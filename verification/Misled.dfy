/** When the cached position misleads a request: exactly when what the request sees can differ from what is there. */
module Misled {
  import opened Arithmetic
  import opened Files
  import opened Overlay
  import opened SeekCache
  import opened Wrappers

  /** The position used is that of the address exactly when using the cache is safe for it. */
  lemma SafeIsRight(c: Cache, h: nat, a: nat)
    requires h > 0 && a / h < |c.offset|
    ensures SeekSafe(c.point, c.offset, h, a) <==> Position(c, h, a) == a % h
  {
  }

  /** A file of zeros with a one in it. */
  function Marked(size: nat, k: nat): (f: seq<byte>)
    ensures |f| == size && forall i :: 0 <= i < size ==> f[i] == if i == k then 1 else 0
  {
    seq(size, i => if i == k then 1 else 0)
  }

  /** A read of n bytes at a position delivers what it would at another one, whatever a file of this size holds, exactly
      when the positions are the same or both are past the end. */
  lemma RawReadExactly(size: nat, pos: nat, at: nat, n: nat)
    requires n > 0
    ensures (forall file: seq<byte> :: |file| == size ==> ReadAt(file, pos, n) == ReadAt(file, at, n))
       <==> pos == at || (pos >= size && at >= size)
  {
    if pos != at && (pos < size || at < size) {
      var file := Marked(size, if at < size then at else pos);
      if at < size { assert ReadAt(file, at, n)[0] == 1; } else { assert ReadAt(file, pos, n)[0] == 1; }
      assert ReadAt(file, pos, n) != ReadAt(file, at, n);
    }
  }

  /** The file after a write at a position, with what fits below the limit. */
  function WrittenAt(file: seq<byte>, pos: nat, data: seq<byte>, limit: nat): seq<byte> {
    Splice(file, pos, data[..Fitting(limit, pos, |data|)])
  }

  /** A write likewise: exactly when the positions are the same or both are past the limit. */
  lemma RawWriteExactly(size: nat, limit: nat, pos: nat, at: nat, n: nat)
    requires n > 0
    ensures (forall file: seq<byte>, data: seq<byte> :: |file| == size && |data| == n ==>
               WrittenAt(file, pos, data, limit) == WrittenAt(file, at, data, limit))
       <==> pos == at || (pos >= limit && at >= limit)
  {
    if pos != at && (pos < limit || at < limit) {
      var file, data := Zeros(size), seq(n, _ => 1);
      if pos < at { FirstWritten(file, data, limit, pos, at); } else { FirstWritten(file, data, limit, at, pos); }
      assert WrittenAt(file, pos, data, limit) != WrittenAt(file, at, data, limit);
    }
  }

  lemma FirstWritten(file: seq<byte>, data: seq<byte>, limit: nat, lower: nat, upper: nat)
    requires lower < upper && lower < limit && data != [] && forall i :: 0 <= i < |data| ==> data[i] == 1
    requires forall i :: 0 <= i < |file| ==> file[i] == 0
    ensures WrittenAt(file, lower, data, limit) != WrittenAt(file, upper, data, limit)
  {
    var s, t := WrittenAt(file, lower, data, limit), WrittenAt(file, upper, data, limit);
    assert s[lower] == 1;
    assert lower < |t| ==> t[lower] == 0;
  }

  function Lengths(base: seq<seq<byte>>): (lens: seq<nat>)
    ensures |lens| == |base| && forall i :: 0 <= i < |base| ==> lens[i] == |base[i]|
  {
    seq(|base|, i requires 0 <= i < |base| => |base[i]|)
  }

  /** The access at address x uses the right position, or there is nothing at either. */
  predicate Harmless(c: Cache, h: nat, lens: seq<nat>, x: nat)
    requires h > 0
  {
    x / h < |lens| && (Position(c, h, x) == x % h || (Position(c, h, x) >= lens[x / h] && x % h >= lens[x / h]))
  }

  lemma HarmlessSeesRight(v: seq<Option<byte>>, base: seq<seq<byte>>, h: nat, c: Cache, x: nat, n: nat)
    requires h > 0 && ShowsBase(v, base, h, x, n) && Harmless(c, h, Lengths(base), x)
    ensures Seen(v, base, h, c, x, n) == v
  {
    var file, pos, at := FileAt(base, h, x), Position(c, h, x), x % h;
    SeenIs(v, base, h, c, x, n, file, pos);
    HarmlessAt(c, h, base, x, file, pos, at);
    NoMatter(v, file, pos, at, x, n);
  }

  lemma HarmlessAt(c: Cache, h: nat, base: seq<seq<byte>>, x: nat, file: seq<byte>, pos: nat, at: nat)
    requires h > 0 && Harmless(c, h, Lengths(base), x)
    requires file == FileAt(base, h, x) && pos == Position(c, h, x) && at == x % h
    ensures pos == at || (pos >= |file| && at >= |file|)
  {
  }

  lemma NoMatter(v: seq<Option<byte>>, file: seq<byte>, pos: nat, at: nat, x: nat, n: nat)
    requires x + n <= |v| && (pos == at || (pos >= |file| && at >= |file|))
    requires forall y :: x <= y < x + n ==> v[y] == ByteAt(file, at + (y - x))
    ensures FromFile(v, file, pos, x, n) == v
  {
  }

  /** Base files of given lengths, all zero but for one byte. */
  function MarkedFiles(lens: seq<nat>, i: nat, k: nat): (base: seq<seq<byte>>)
    ensures Lengths(base) == lens
    ensures i < |lens| ==> base[i] == Marked(lens[i], k)
  {
    var base := seq(|lens|, j requires 0 <= j < |lens| => if j == i then Marked(lens[j], k) else Zeros(lens[j]));
    assert Lengths(base) == lens;
    base
  }

  lemma MisledSeesWrong(lens: seq<nat>, h: nat, c: Cache, x: nat)
    requires h > 0 && x / h < |lens| && !Harmless(c, h, lens, x)
    ensures exists base :: Lengths(base) == lens
                        && ByteAt(FileAt(base, h, x), Position(c, h, x)) != ByteAt(FileAt(base, h, x), x % h)
  {
    var i, at, pos := x / h, x % h, Position(c, h, x);
    var base := MarkedFiles(lens, i, if at < lens[i] then at else pos);
    assert Lengths(base) == lens && ByteAt(FileAt(base, h, x), pos) != ByteAt(FileAt(base, h, x), at);
  }

  /** The part of the image from x on, in page q, which is not in the diff file. */
  predicate InFreshPage(h: nat, pages: seq<nat>, q: nat, x: nat, n: nat) {
    && h > 0 && q < |pages| && pages[q] == NO_PAGE && q * PAGE <= x && n > 0 && x + n <= q * PAGE + PAGE
    && (q * PAGE) % h + PAGE <= h
  }

  lemma FreshPartShowsBase(base: seq<seq<byte>>, h: nat, diff: seq<byte>, pages: seq<nat>, q: nat, x: nat, n: nat)
    requires InFreshPage(h, pages, q, x, n) && (q * PAGE) / h < |base|
    ensures ShowsBase(Image(base, h, diff, pages), base, h, x, n) && x / h == (q * PAGE) / h
  {
    UnmappedPage(base, h, diff, pages, q);
    WithinHunk(h, q * PAGE, x);
  }

  ghost predicate SeesRight(base: seq<seq<byte>>, h: nat, c: Cache, diff: seq<byte>, pages: seq<nat>, x: nat, n: nat)
    requires h > 0
  {
    Seen(Image(base, h, diff, pages), base, h, c, x, n) == Image(base, h, diff, pages)
  }

  ghost predicate AlwaysSeesRight(lens: seq<nat>, h: nat, c: Cache, diff: seq<byte>, pages: seq<nat>, x: nat, n: nat)
    requires h > 0
  {
    forall base :: Lengths(base) == lens ==> SeesRight(base, h, c, diff, pages, x, n)
  }

  /** An access to the base sees the image as it is, whatever base files of these lengths hold, exactly when it is
      harmless. */
  lemma SeesExactly(lens: seq<nat>, h: nat, c: Cache, diff: seq<byte>, pages: seq<nat>, q: nat, x: nat, n: nat)
    requires InFreshPage(h, pages, q, x, n) && (q * PAGE) / h < |lens|
    ensures AlwaysSeesRight(lens, h, c, diff, pages, x, n) <==> Harmless(c, h, lens, x)
  {
    if Harmless(c, h, lens, x) {
      forall base | Lengths(base) == lens ensures SeesRight(base, h, c, diff, pages, x, n) {
        FreshPartShowsBase(base, h, diff, pages, q, x, n);
        HarmlessSeesRight(Image(base, h, diff, pages), base, h, c, x, n);
      }
    } else {
      WithinHunk(h, q * PAGE, x);
      MisledSeesWrong(lens, h, c, x);
      var base :| Lengths(base) == lens
               && ByteAt(FileAt(base, h, x), Position(c, h, x)) != ByteAt(FileAt(base, h, x), x % h);
      FreshPartShowsBase(base, h, diff, pages, q, x, n);
      SeesOther(Image(base, h, diff, pages), base, h, c, x, n);
    }
  }

  lemma SeesOther(v: seq<Option<byte>>, base: seq<seq<byte>>, h: nat, c: Cache, x: nat, n: nat)
    requires h > 0 && n > 0 && ShowsBase(v, base, h, x, n)
    requires ByteAt(FileAt(base, h, x), Position(c, h, x)) != ByteAt(FileAt(base, h, x), x % h)
    ensures Seen(v, base, h, c, x, n)[x] != v[x]
  {
  }
}
