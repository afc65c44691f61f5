/** NOR flash: writing can only clear bits, and erasing sets all bits of a whole block. */
module NorFlash {
  import opened Arithmetic

  newtype cell = x: int | 0 <= x < 256
  const BLANK: cell := 0xFF

  /** The bits that two numbers have in common. */
  function CommonBits(a: nat, b: nat): (r: nat)
    ensures r <= a && r <= b
  {
    if a == 0 || b == 0 then 0
    else 2 * CommonBits(a / 2, b / 2) + (if a % 2 == 1 && b % 2 == 1 then 1 else 0)
  }

  /** What a cell holds after it held a and b is written to it: bits can only be cleared. */
  function Meet(a: cell, b: cell): (r: cell)
    ensures r <= a && r <= b
  {
    CommonBits(a as nat, b as nat) as cell
  }

  lemma {:induction false} CommonWithOnes(n: nat, x: nat)
    requires x < Power2(n)
    ensures CommonBits(Power2(n) - 1, x) == x && CommonBits(x, Power2(n) - 1) == x
  {
    if n > 0 {
      CommonWithOnes(n - 1, x / 2);
      assert (Power2(n) - 1) / 2 == Power2(n - 1) - 1;
    }
  }

  /** A blank cell takes any value, and writing a blank value changes nothing. */
  lemma MeetBlank(x: cell)
    ensures Meet(BLANK, x) == x && Meet(x, BLANK) == x
  {
    assert Power2(8) == 256 by {
      assert Power2(4) == 16;
      assert Power2(8) == 16 * Power2(4);
    }
    CommonWithOnes(8, x as nat);
  }

  /** A written cell has just the bits that were set before and are set in what is written: bit k counts d. */
  lemma MeetBits(a: cell, b: cell, k: nat, d: nat)
    requires (k, d) in {(0, 1), (1, 2), (2, 4), (3, 8), (4, 16), (5, 32), (6, 64), (7, 128)}
    ensures Meet(a, b) as nat / d % 2 == 1 <==> a as nat / d % 2 == 1 && b as nat / d % 2 == 1
  {
    CommonBit(a as nat, b as nat, k);
    assert Power2(3) == 8 && Power2(7) == 16 * Power2(3);
  }

  lemma {:induction false} CommonBit(a: nat, b: nat, k: nat)
    ensures CommonBits(a, b) / Power2(k) % 2 == 1 <==> a / Power2(k) % 2 == 1 && b / Power2(k) % 2 == 1
  {
    if k > 0 {
      CommonBit(a / 2, b / 2, k - 1);
      HalfFirst(a, k);
      HalfFirst(b, k);
      HalfFirst(CommonBits(a, b), k);
      assert CommonBits(a, b) / 2 == CommonBits(a / 2, b / 2);
    }
  }

  lemma HalfFirst(x: nat, k: nat)
    requires k > 0
    ensures x / Power2(k) == x / 2 / Power2(k - 1)
  {
    Halved(x, Power2(k - 1), x / 2 / Power2(k - 1), x / 2 % Power2(k - 1));
  }

  lemma Halved(x: nat, p: nat, q: nat, r: nat)
    requires p > 0 && x / 2 == q * p + r && r < p
    ensures x / (2 * p) == q
  {
    assert q * (2 * p) == 2 * (q * p);
    QuotientAndResidue(2 * p, x, q, 2 * r + x % 2);
  }

  /** A run of erase blocks of one size. */
  datatype Region = Region(offset: nat, blocks: nat, size: nat) {
    function End(): nat { offset + blocks * size }
  }

  /** Regions that follow each other without gaps, each with at least one block. */
  ghost predicate Contiguous(rs: seq<Region>) {
    && (forall i :: 0 <= i < |rs| ==> rs[i].blocks > 0 && rs[i].size > 0)
    && (forall i :: 0 <= i < |rs| - 1 ==> rs[i + 1].offset == rs[i].End())
  }

  /** Where block b of a region starts. */
  function BlockStart(r: Region, b: nat): nat { r.offset + b * r.size }

  predicate IsBlock(rs: seq<Region>, i: nat, b: nat, at: int) {
    i < |rs| && b < rs[i].blocks && at == BlockStart(rs[i], b)
  }

  /** The range [at, at + length) is exactly one block. */
  predicate IsWholeBlock(rs: seq<Region>, at: int, length: int) {
    exists i: nat :: i < |rs| && length == rs[i].size && exists b: nat :: b < rs[i].blocks && IsBlock(rs, i, b, at)
  }

  /** A place where an erase may start or end: the start of a block, or the end of the flash. */
  ghost predicate IsBoundary(rs: seq<Region>, at: int) {
    (exists i: nat, b: nat :: IsBlock(rs, i, b, at)) || (rs != [] && at == rs[|rs| - 1].End())
  }

  /** A block starts after the blocks of its region that come before it; a boundary is where one starts, or the end of
      the last region. */
  lemma BoundaryIs(rs: seq<Region>, i: nat, b: nat, at: int)
    ensures IsBlock(rs, i, b, at) <==> i < |rs| && b < rs[i].blocks && at == rs[i].offset + b * rs[i].size
    ensures IsBlock(rs, i, b, at) ==> IsBoundary(rs, at)
    ensures rs != [] && at == rs[|rs| - 1].offset + rs[|rs| - 1].blocks * rs[|rs| - 1].size ==> IsBoundary(rs, at)
    ensures IsBoundary(rs, at) ==>
              || (exists j: nat, k: nat :: IsBlock(rs, j, k, at))
              || (rs != [] && at == rs[|rs| - 1].offset + rs[|rs| - 1].blocks * rs[|rs| - 1].size)
  {
  }

  /** The contents with [a, b) erased. */
  function Erased(c: seq<cell>, a: int, b: int): (r: seq<cell>)
    ensures |r| == |c|
    ensures forall i :: 0 <= i < |c| ==> r[i] == if a <= i < b then BLANK else c[i]
  {
    seq(|c|, i requires 0 <= i < |c| => if a <= i < b then BLANK else c[i])
  }

  /** The contents after writing data at a position: bits can only be cleared. */
  function Programmed(c: seq<cell>, at: int, data: seq<cell>): (r: seq<cell>)
    ensures |r| == |c|
    ensures forall i :: 0 <= i < |c| ==> r[i] == if at <= i < at + |data| then Meet(c[i], data[i - at]) else c[i]
  {
    seq(|c|, i requires 0 <= i < |c| => if at <= i < at + |data| then Meet(c[i], data[i - at]) else c[i])
  }

  /** How often each byte has been erased, after one more erase of [a, b). */
  function Worn(w: seq<nat>, a: int, b: int): (r: seq<nat>)
    ensures |r| == |w|
    ensures forall i :: 0 <= i < |w| ==> r[i] == w[i] + if a <= i < b then 1 else 0
  {
    seq(|w|, i requires 0 <= i < |w| => w[i] + if a <= i < b then 1 else 0)
  }

  lemma ErasedJoin(c: seq<cell>, a: int, m: int, b: int)
    requires a <= m <= b
    ensures Erased(Erased(c, a, m), m, b) == Erased(c, a, b)
  {
  }

  lemma WornJoin(w: seq<nat>, a: int, m: int, b: int)
    requires a <= m <= b
    ensures Worn(Worn(w, a, m), m, b) == Worn(w, a, b)
  {
  }

  lemma ProgrammedJoin(c: seq<cell>, at: int, first: seq<cell>, second: seq<cell>)
    ensures Programmed(Programmed(c, at, first), at + |first|, second) == Programmed(c, at, first + second)
  {
  }

  class Device {
    const regions: seq<Region>
    const size: nat
    var cells: seq<cell>
    var pos: nat
    ghost var wear: seq<nat>

    ghost predicate Valid()
      reads this
    {
      && Contiguous(regions)
      && |cells| == size == |wear|
      && (regions != [] ==> regions[|regions| - 1].End() == size)
    }

    constructor (regions: seq<Region>, cells: seq<cell>)
      requires Contiguous(regions) && (regions != [] ==> regions[|regions| - 1].End() == |cells|)
      ensures Valid() && this.regions == regions && this.cells == cells && size == |cells|
      ensures wear == seq(|cells|, _ => 0)
    {
      this.regions, this.cells, size, pos := regions, cells, |cells|, 0;
      wear := seq(|cells|, _ => 0);
    }

    /** lseek(fd, to, SEEK_SET): fails outside the device. */
    method Seek(to: int) returns (r: int)
      modifies this`pos
      ensures r == if 0 <= to <= size then to else -1
      ensures pos == if 0 <= to <= size then to else old(pos)
    {
      if !(0 <= to <= size) { return -1; }
      pos := to;
      return to;
    }

    /** read(fd, buf, len) */
    method Read(len: nat) returns (data: seq<cell>)
      requires Valid() && pos <= size
      modifies this`pos
      ensures pos == Min(old(pos) + len, size) && data == cells[old(pos)..pos]
    {
      var end := Min(pos + len, size);
      data := cells[pos..end];
      pos := end;
    }

    /** write(fd, data, |data|): what the device has room for. */
    method Write(data: seq<cell>) returns (n: nat)
      requires Valid() && pos <= size
      modifies this`pos, this`cells
      ensures Valid() && n == Min(|data|, size - old(pos)) && pos == old(pos) + n
      ensures cells == Programmed(old(cells), old(pos), data[..n])
    {
      n := Min(|data|, size - pos);
      cells := Programmed(cells, pos, data[..n]);
      pos := pos + n;
    }

    /** ioctl(fd, MEMERASE): erases one block; anything that is not exactly a block is refused. */
    method Erase(start: int, length: int) returns (ok: bool)
      requires Valid()
      modifies this`cells, this`wear
      ensures Valid() && ok == IsWholeBlock(regions, start, length)
      ensures cells == if ok then Erased(old(cells), start, start + length) else old(cells)
      ensures wear == if ok then Worn(old(wear), start, start + length) else old(wear)
    {
      ok := IsWholeBlock(regions, start, length);
      if ok {
        cells := Erased(cells, start, start + length);
        wear := Worn(wear, start, start + length);
      }
    }
  }

  /** The image file or standard input: each read delivers at least one byte until the end. */
  class Input {
    var rest: seq<cell>

    constructor (bytes: seq<cell>)
      ensures rest == bytes
    {
      rest := bytes;
    }

    method Read(len: nat) returns (data: seq<cell>)
      requires len > 0
      modifies this
      ensures |data| <= len && data + rest == old(rest)
      ensures data == [] <==> old(rest) == []
    {
      if rest == [] { return []; }
      var n: nat :| 1 <= n <= len && n <= |rest|;
      data, rest := rest[..n], rest[n..];
    }
  }

  /** Regions end in order. */
  lemma {:induction false} Ordered(rs: seq<Region>, i: nat, j: nat)
    requires Contiguous(rs) && i <= j < |rs|
    ensures i < j ==> rs[i].End() <= rs[j].offset
    ensures rs[i].End() <= rs[j].End()
    decreases j - i
  {
    if i < j {
      Ordered(rs, i + 1, j);
      assert rs[i + 1].offset == rs[i].End();
    }
  }

  lemma BlockInRegion(r: Region, b: nat)
    requires b < r.blocks && r.size > 0
    ensures r.offset <= BlockStart(r, b) && BlockStart(r, b) + r.size <= r.End()
  {
    assert b * r.size + r.size == (b + 1) * r.size <= r.blocks * r.size;
  }

  /** From the start of a block, the next boundary is the end of that block. */
  lemma NextBoundary(rs: seq<Region>, i: nat, b: nat, at: nat, stop: int)
    requires Contiguous(rs) && IsBlock(rs, i, b, at)
    requires IsBoundary(rs, stop) && at < stop
    ensures at + rs[i].size <= stop
    ensures IsBoundary(rs, at + rs[i].size)
  {
    BlockFits(rs, i, b, at, stop);
    BlockEnds(rs, i, b, at);
  }

  lemma BlockFits(rs: seq<Region>, i: nat, b: nat, at: nat, stop: int)
    requires Contiguous(rs) && IsBlock(rs, i, b, at)
    requires IsBoundary(rs, stop) && at < stop
    ensures at + rs[i].size <= stop
  {
    var r := rs[i];
    BlockInRegion(r, b);
    Ordered(rs, i, |rs| - 1);
    if exists j: nat, c: nat :: IsBlock(rs, j, c, stop) {
      var j: nat, c: nat :| IsBlock(rs, j, c, stop);
      BlockInRegion(rs[j], c);
      if j < i {
        Ordered(rs, j, i);
      } else if j == i {
        SameRegion(r, b, c);
      } else {
        Ordered(rs, i, j);
      }
    }
  }

  lemma BlockEnds(rs: seq<Region>, i: nat, b: nat, at: nat)
    requires Contiguous(rs) && IsBlock(rs, i, b, at)
    ensures IsBoundary(rs, at + rs[i].size)
  {
    var r := rs[i];
    if b + 1 < r.blocks {
      assert BlockStart(r, b + 1) == at + r.size;
      assert IsBlock(rs, i, b + 1, at + r.size);
    } else {
      assert b + 1 == r.blocks && r.End() == at + r.size;
      if i + 1 < |rs| {
        assert IsBlock(rs, i + 1, 0, at + r.size);
      }
    }
  }

  lemma SameRegion(r: Region, b: nat, c: nat)
    requires r.size > 0 && BlockStart(r, b) < BlockStart(r, c)
    ensures BlockStart(r, b) + r.size <= BlockStart(r, c)
  {
    Cancel(b, c, r.size);
    assert (b + 1) * r.size <= c * r.size;
  }
}
