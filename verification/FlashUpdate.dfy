/** The flash updater: erase a range block by block across regions of different block sizes, copy an image into it,
    and put the saved configuration back. */
module FlashUpdate {
  import opened Arithmetic
  import opened NorFlash
  import opened Wrappers

  const CONFIG_START := 8192 * 124
  const CONFIG_LEN := 16384
  const COPY_BUFSIZ := 1024

  /** boundary_check: is offset the start of a block, or the end of the last region? If so, of which region, and
      which block in it. */
  method BoundaryCheck(rs: seq<Region>, offset: int) returns (ok: bool, region: nat, block: nat)
    requires Contiguous(rs)
    ensures ok <==> IsBoundary(rs, offset)
    ensures ok && !(rs != [] && offset == rs[|rs| - 1].End()) ==> IsBlock(rs, region, block, offset)
    ensures ok && rs != [] && offset == rs[|rs| - 1].End() ==> region == |rs| - 1 && block == rs[region].blocks
  {
    ok, region, block := false, 0, 0;
    var i := 0;
    while i < |rs|
      invariant 0 <= i <= |rs|
      invariant forall j: nat, b: nat :: j < i ==> !IsBlock(rs, j, b, offset)
      invariant i == |rs| && rs != [] ==> offset != rs[|rs| - 1].End()
    {
      var r := rs[i];
      if offset == r.End() && i == |rs| - 1 {
        return true, i, r.blocks;
      } else if r.offset <= offset < r.End() {
        if (r.End() - offset) % r.size == 0 {
          AlignedInRegion(r, offset);
          region, block := i, (offset - r.offset) / r.size;
          assert IsBlock(rs, region, block, offset);
          Ordered(rs, i, |rs| - 1);
          return true, region, block;
        }
      }
      forall b: nat | IsBlock(rs, i, b, offset) ensures false {
        BlockInRegion(r, b);
        AlignedBlock(r, b);
      }
      i := i + 1;
    }
  }

  /** The source measures alignment from the end of the region; that is the same as from its start. */
  lemma AlignedInRegion(r: Region, offset: int)
    requires r.size > 0 && r.offset <= offset < r.End() && (r.End() - offset) % r.size == 0
    ensures 0 <= (offset - r.offset) / r.size < r.blocks
    ensures offset == BlockStart(r, (offset - r.offset) / r.size)
  {
    var k := (r.End() - offset) / r.size;
    var b := r.blocks - k;
    assert r.End() - offset == k * r.size;
    assert offset - r.offset == b * r.size;
    Cancel(0, k, r.size);
    Cancel(-1, b, r.size);
    QuotientAndResidue(r.size, offset - r.offset, b, 0);
  }

  lemma AlignedBlock(r: Region, b: nat)
    requires r.size > 0 && b < r.blocks
    ensures (r.End() - BlockStart(r, b)) % r.size == 0
  {
    BlockInRegion(r, b);
    assert r.End() - BlockStart(r, b) == (r.blocks - b) * r.size;
    QuotientAndResidue(r.size, r.End() - BlockStart(r, b), r.blocks - b, 0);
  }

  /** One pass of the erase loop: the block at offset is erased. Neither of its two failures can happen. */
  method EraseBlockAt(d: Device, offset: int, ghost stop: int) returns (size: nat)
    requires d.Valid() && IsBoundary(d.regions, offset) && IsBoundary(d.regions, stop) && offset < stop
    modifies d`cells, d`wear
    ensures d.Valid() && 0 < size && offset + size <= stop && IsBoundary(d.regions, offset + size)
    ensures d.cells == Erased(old(d.cells), offset, offset + size)
    ensures d.wear == Worn(old(d.wear), offset, offset + size)
  {
    var ok, region, block := BoundaryCheck(d.regions, offset);
    if !ok {
      assert false;  // "could not find region in middle of erase"
    }
    BeforeTheEnd(d.regions, offset, stop);
    NextBoundary(d.regions, region, block, offset, stop);
    size := d.regions[region].size;
    ok := d.Erase(offset, size);
    if !ok {
      assert false;  // "region block erase failure"
    }
  }

  /** region_erase: refuses a range that does not start and end on boundaries; otherwise every byte of the range is
      erased exactly once and no other byte is. */
  method RegionErase(d: Device, start: int, length: int) returns (res: int)
    requires d.Valid()
    modifies d`cells, d`wear
    ensures d.Valid()
    ensures res == if IsBoundary(d.regions, start) && IsBoundary(d.regions, start + length) then 0 else 1
    ensures d.cells == if res == 0 then Erased(old(d.cells), start, start + length) else old(d.cells)
    ensures d.wear == if res == 0 then Worn(old(d.wear), start, start + length) else old(d.wear)
  {
    var ok, region, block := BoundaryCheck(d.regions, start);
    if !ok { return 1; }
    ok, region, block := BoundaryCheck(d.regions, start + length);
    if !ok { return 1; }
    ghost var c, w := d.cells, d.wear;
    var offset := start;
    while offset < start + length
      invariant d.Valid() && IsBoundary(d.regions, offset)
      invariant offset == start || start <= offset <= start + length
      invariant d.cells == Erased(c, start, offset) && d.wear == Worn(w, start, offset)
    {
      var size := EraseBlockAt(d, offset, start + length);
      ErasedJoin(c, start, offset, offset + size);
      WornJoin(w, start, offset, offset + size);
      offset := offset + size;
    }
    assert Erased(c, start, offset) == Erased(c, start, start + length);
    assert Worn(w, start, offset) == Worn(w, start, start + length);
    res := 0;
  }

  /** A boundary with another one after it is not the end of the flash. */
  lemma BeforeTheEnd(rs: seq<Region>, at: int, stop: int)
    requires Contiguous(rs) && IsBoundary(rs, stop) && at < stop
    ensures rs != [] && at < rs[|rs| - 1].End()
  {
    if exists j: nat, c: nat :: IsBlock(rs, j, c, stop) {
      var j: nat, c: nat :| IsBlock(rs, j, c, stop);
      BlockInRegion(rs[j], c);
      Ordered(rs, j, |rs| - 1);
    }
  }

  /** Write one piece of the image after what has been written already. */
  method CopyPiece(d: Device, buf: seq<cell>, ghost c: seq<cell>, ghost start: nat, ghost done: seq<cell>)
    returns (n: nat)
    requires d.Valid() && d.pos == start + |done| <= d.size && d.cells == Programmed(c, start, done)
    modifies d`cells, d`pos
    ensures d.Valid() && n == Min(|buf|, d.size - old(d.pos)) && d.pos == start + |done| + n
    ensures d.cells == Programmed(c, start, done + buf[..n])
  {
    n := d.Write(buf);
    ProgrammedJoin(c, start, done, buf[..n]);
  }

  /** copy: the image goes to start, whatever pieces it is read in. It stops with 2 when the device cannot seek there,
      and with 4 at the piece that does not fit; what fits is then programmed. */
  method Copy(d: Device, from: Input, start: nat) returns (res: int)
    requires d.Valid()
    modifies d`cells, d`pos, from
    ensures d.Valid()
    ensures res == CopyResult(start, |old(from.rest)|, d.size)
    ensures res == if start > d.size then 2 else if start + |old(from.rest)| > d.size then 4 else 0
    ensures d.cells == if res == 2 then old(d.cells)
                       else Programmed(old(d.cells), start, old(from.rest)[..Min(|old(from.rest)|, d.size - start)])
  {
    var to := d.Seek(start);
    if to != start { return 2; }
    ghost var image, done, c := from.rest, [], d.cells;
    assert c == Programmed(c, start, done);
    while true
      invariant CopySoFar(d, from, c, start, image, done)
      decreases |from.rest|
    {
      var n, want;
      n, want, done := CopyStep(d, from, c, start, image, done);
      if want == 0 { return 0; }
      if n != want { return 4; }
    }
  }

  /** done is written at start, and the rest of the image is still to be read. */
  ghost predicate CopySoFar(d: Device, from: Input, c: seq<cell>, start: nat, image: seq<cell>, done: seq<cell>)
    reads d, from
  {
    && d.Valid() && done + from.rest == image && d.pos == start + |done| <= d.size
    && d.cells == Programmed(c, start, done)
  }

  /** Read a piece and write it. Nothing is read at the end of the image only. */
  method CopyStep(d: Device, from: Input, ghost c: seq<cell>, ghost start: nat, ghost image: seq<cell>,
                  ghost done: seq<cell>)
    returns (n: nat, want: nat, ghost now: seq<cell>)
    requires CopySoFar(d, from, c, start, image, done)
    modifies d`cells, d`pos, from
    ensures d.Valid() && |from.rest| + want == |old(from.rest)|
    ensures want == 0 ==> start + |image| <= d.size && d.cells == Programmed(c, start, image)
    ensures want > 0 && n == want ==> CopySoFar(d, from, c, start, image, now)
    ensures want > 0 && n != want ==>
              0 <= d.size - start < |image| && d.cells == Programmed(c, start, image[..d.size - start])
  {
    var buf := from.Read(COPY_BUFSIZ);
    n, want, now := 0, |buf|, done;
    if buf != [] {
      n := CopyPiece(d, buf, c, start, done);
      now := done + buf[..n];
      assert buf + from.rest == image[|done|..];
      if n == |buf| { assert buf[..n] == buf; }
      else { assert now == image[..d.size - start]; }
    } else {
      assert done == image;
    }
  }

  function CopyResult(start: int, len: nat, size: nat): int {
    if !(0 <= start <= size) then 2 else if start + len > size then 4 else 0
  }

  /** What the program is asked to do. */
  datatype Request = Request(start: int, length: int, save: bool)

  /** The flash after erasing the range and writing the image, and whether the program goes on from there. */
  function WrittenImage(c: seq<cell>, q: Request, image: Option<seq<cell>>): seq<cell>
    requires 0 <= q.start <= |c|
  {
    var e := Erased(c, q.start, q.start + q.length);
    if image.None? then e
    else Programmed(e, q.start, image.value[..Min(|image.value|, |c| - q.start)])
  }

  /** The flash after the configuration that was read from it before has been put back. */
  function Restored(c: seq<cell>, saved: seq<cell>): seq<cell> {
    Programmed(Erased(c, CONFIG_START, CONFIG_START + CONFIG_LEN), CONFIG_START, saved)
  }

  /** Whether the configuration blocks can be erased by themselves. */
  ghost predicate ConfigErasable(rs: seq<Region>) {
    IsBoundary(rs, CONFIG_START) && IsBoundary(rs, CONFIG_START + CONFIG_LEN)
  }

  ghost predicate RangeErasable(rs: seq<Region>, q: Request) {
    IsBoundary(rs, q.start) && IsBoundary(rs, q.start + q.length)
  }

  /** The flash that the whole program leaves, and its exit status. */
  ghost function Updated(rs: seq<Region>, c: seq<cell>, q: Request, image: Option<seq<cell>>): (seq<cell>, int) {
    if !RangeErasable(rs, q) || !(0 <= q.start <= |c|) then (c, 1)  // a boundary lies inside the flash
    else
      var w := WrittenImage(c, q, image);
      if image.Some? && q.start + |image.value| > |c| then (w, 4)
      else if q.save && ConfigErasable(rs) && CONFIG_START + CONFIG_LEN <= |c| then
        (Restored(w, c[CONFIG_START..CONFIG_START + CONFIG_LEN]), 0)
      else (w, 0)
  }

  /** A boundary is a place in the flash. */
  lemma BoundaryInside(d: Device, at: int)
    requires d.Valid() && IsBoundary(d.regions, at)
    ensures 0 <= at <= d.size
  {
    if exists j: nat, c: nat :: IsBlock(d.regions, j, c, at) {
      var j: nat, c: nat :| IsBlock(d.regions, j, c, at);
      BlockInRegion(d.regions[j], c);
      Ordered(d.regions, j, |d.regions| - 1);
    }
  }

  /** get_config: the configuration as it is before anything is erased; short on a device that ends before it. */
  method GetConfig(d: Device) returns (config: seq<cell>)
    requires d.Valid() && d.pos <= d.size
    modifies d`pos
    ensures d.pos <= d.size && |config| <= CONFIG_LEN
    ensures CONFIG_START + CONFIG_LEN <= d.size ==> config == d.cells[CONFIG_START..CONFIG_START + CONFIG_LEN]
  {
    var r := d.Seek(CONFIG_START);
    config := d.Read(CONFIG_LEN);
  }

  /** Erase the configuration blocks and write the saved configuration there; an error here is only reported. */
  method RestoreConfig(d: Device, config: seq<cell>)
    requires d.Valid()
    requires CONFIG_START + CONFIG_LEN <= d.size ==> |config| == CONFIG_LEN
    modifies d`cells, d`wear, d`pos
    ensures d.Valid()
    ensures d.cells == if ConfigErasable(d.regions) then Restored(old(d.cells), config) else old(d.cells)
    ensures d.wear == if ConfigErasable(d.regions) then Worn(old(d.wear), CONFIG_START, CONFIG_START + CONFIG_LEN)
                      else old(d.wear)
  {
    var res := RegionErase(d, CONFIG_START, CONFIG_LEN);
    if res == 0 {
      BoundaryInside(d, CONFIG_START + CONFIG_LEN);
      var at := d.Seek(CONFIG_START);
      if at == CONFIG_START {
        var n := d.Write(config);
        assert config[..n] == config;
      }
    }
  }

  /** Erase the range and, if there is one, write the image there. */
  method EraseAndWrite(d: Device, q: Request, image: Option<Input>, ghost bytes: Option<seq<cell>>) returns (res: int)
    requires d.Valid()
    requires bytes == if image.Some? then Some(image.value.rest) else None
    modifies d`cells, d`wear, d`pos, (if image.Some? then {image.value} else {})
    ensures d.Valid()
    ensures res == 1 <==> !RangeErasable(d.regions, q)
    ensures res != 1 ==> 0 <= q.start <= d.size && d.cells == WrittenImage(old(d.cells), q, bytes)
    ensures res == 1 ==> d.cells == old(d.cells)
    ensures d.wear == if res == 1 then old(d.wear) else Worn(old(d.wear), q.start, q.start + q.length)
    ensures res != 1 ==> res == if bytes.Some? && q.start + |bytes.value| > d.size then 4 else 0
  {
    res := RegionErase(d, q.start, q.length);
    if res != 0 { return; }
    BoundaryInside(d, q.start);
    if image.Some? {
      res := Copy(d, image.value, q.start);
    }
  }

  /** The program, from the opened device on. */
  method Update(d: Device, q: Request, image: Option<Input>) returns (res: int)
    requires d.Valid() && d.pos <= d.size
    modifies d`cells, d`wear, d`pos, (if image.Some? then {image.value} else {})
    ensures d.Valid()
    ensures (d.cells, res) == Updated(d.regions, old(d.cells), q, if image.Some? then Some(old(image.value.rest)) else None)
    ensures res == if !(IsBoundary(d.regions, q.start) && IsBoundary(d.regions, q.start + q.length)) then 1
                   else if image.Some? && q.start + |old(image.value.rest)| > d.size then 4
                   else 0
    ensures d.wear ==
      UpdatedWear(d.regions, old(d.wear), d.size, q, if image.Some? then Some(old(image.value.rest)) else None)
  {
    ghost var c, bytes := d.cells, if image.Some? then Some(image.value.rest) else None;
    var config := [];
    if q.save {
      config := GetConfig(d);
    }
    res := EraseAndWrite(d, q, image, bytes);
    if res != 0 { return; }
    if q.save {
      if ConfigErasable(d.regions) { BoundaryInside(d, CONFIG_START + CONFIG_LEN); }
      RestoreConfig(d, config);
    }
  }

  /** The range can be erased. On a device that is so for boundaries only, which lie in the flash. */
  ghost predicate Starts(rs: seq<Region>, n: nat, q: Request) {
    RangeErasable(rs, q) && 0 <= q.start <= n
  }

  /** The image does not run past the end of the flash. */
  predicate ImageFits(n: nat, q: Request, image: Option<seq<cell>>) {
    image.Some? ==> q.start + |image.value| <= n
  }

  /** The run gets to the configuration and puts it back. */
  ghost predicate PutsBack(rs: seq<Region>, n: nat, q: Request, image: Option<seq<cell>>) {
    q.save && ConfigErasable(rs) && CONFIG_START + CONFIG_LEN <= n && ImageFits(n, q, image)
  }

  /** How often each byte has been erased after the run: once more in the range, and in the configuration blocks once more
      when they are put back, so twice where the range holds them. */
  ghost function UpdatedWear(rs: seq<Region>, w: seq<nat>, n: nat, q: Request, image: Option<seq<cell>>): seq<nat> {
    if !Starts(rs, n, q) then w
    else
      var once := Worn(w, q.start, q.start + q.length);
      if PutsBack(rs, n, q, image) then Worn(once, CONFIG_START, CONFIG_START + CONFIG_LEN) else once
  }

  predicate InConfig(i: int) {
    CONFIG_START <= i < CONFIG_START + CONFIG_LEN
  }

  /** Byte i of the flash after any run, case by case: unchanged when the range cannot be erased; the saved bytes
      where the configuration is put back (asked for, in blocks that can be erased by themselves, after an image that
      fits); under the image, the image, or what is left of the old bits where it runs past the erased range; blank on
      the rest of that range; and unchanged anywhere else. */
  lemma UpdatedByte(rs: seq<Region>, c: seq<cell>, q: Request, image: Option<seq<cell>>, i: nat)
    requires i < |c|
    ensures var out := Updated(rs, c, q, image).0;
            var starts := IsBoundary(rs, q.start) && IsBoundary(rs, q.start + q.length) && 0 <= q.start <= |c|;
            var putsBack := q.save && IsBoundary(rs, 0xF8000) && IsBoundary(rs, 0xFC000) && 0xFC000 <= |c|
                            && (image.Some? ==> q.start + |image.value| <= |c|);
            var erased := q.start <= i < q.start + q.length;
            |out| == |c| && out[i] ==
              if !starts then c[i]
              else if putsBack && 0xF8000 <= i < 0xFC000 then c[i]
              else if image.Some? && q.start <= i < q.start + |image.value| then
                (if erased then image.value[i - q.start] else Meet(c[i], image.value[i - q.start]))
              else if erased then 0xFF
              else c[i]
  {
    if Starts(rs, |c|, q) {
      WrittenByte(c, q, image, i);
      MeetBlank(c[i]);
    }
  }

  /** How often byte i has been erased then. */
  lemma UpdatedWearByte(rs: seq<Region>, w: seq<nat>, q: Request, image: Option<seq<cell>>, i: nat)
    requires i < |w|
    ensures var after := UpdatedWear(rs, w, |w|, q, image);
            var starts := IsBoundary(rs, q.start) && IsBoundary(rs, q.start + q.length) && 0 <= q.start <= |w|;
            var putsBack := q.save && IsBoundary(rs, 0xF8000) && IsBoundary(rs, 0xFC000) && 0xFC000 <= |w|
                            && (image.Some? ==> q.start + |image.value| <= |w|);
            |after| == |w|
            && after[i] == w[i] + (if starts && q.start <= i < q.start + q.length then 1 else 0)
                                + (if starts && putsBack && 0xF8000 <= i < 0xFC000 then 1 else 0)
  {
  }

  lemma WrittenByte(c: seq<cell>, q: Request, image: Option<seq<cell>>, i: nat)
    requires 0 <= q.start <= |c| && i < |c|
    ensures var erased := q.start <= i < q.start + q.length;
            WrittenImage(c, q, image)[i] ==
              if image.Some? && q.start <= i < q.start + |image.value| then
                (if erased then image.value[i - q.start] else Meet(c[i], image.value[i - q.start]))
              else if erased then BLANK
              else c[i]
  {
    if image.Some? && q.start <= i < q.start + |image.value| {
      MeetBlank(image.value[i - q.start]);
    }
  }

  /** The run writes to byte i of the flash in a way that can change it. */
  predicate Touches(q: Request, image: Option<seq<cell>>, i: int) {
    || q.start <= i < q.start + q.length
    || (image.Some? && q.start <= i < q.start + |image.value| && image.value[i - q.start] != BLANK)
  }

  ghost predicate TouchesConfig(q: Request, image: Option<seq<cell>>) {
    exists i :: InConfig(i) && Touches(q, image, i)
  }

  ghost predicate KeepsConfig(rs: seq<Region>, c: seq<cell>, q: Request, image: Option<seq<cell>>)
    requires CONFIG_START + CONFIG_LEN <= |c|
  {
    SameConfig(Updated(rs, c, q, image).0, c)
  }

  ghost predicate SameConfig(out: seq<cell>, c: seq<cell>)
    requires CONFIG_START + CONFIG_LEN <= |c|
  {
    |out| == |c| && forall i :: InConfig(i) ==> out[i] == c[i]
  }

  /** The configuration is kept, whatever it is, exactly when the range cannot be erased at all, or it is put back
      (asked for, in blocks that can be erased by themselves, after an image that fits), or the run does not touch it
      anyway. The program checks none of this before it erases. */
  lemma ConfigKeptExactly(rs: seq<Region>, n: nat, q: Request, image: Option<seq<cell>>)
    requires CONFIG_START + CONFIG_LEN <= n
    ensures (forall c: seq<cell> :: |c| == n ==> KeepsConfig(rs, c, q, image))
       <==> !Starts(rs, n, q) || PutsBack(rs, n, q, image) || !TouchesConfig(q, image)
  {
    if !Starts(rs, n, q) || PutsBack(rs, n, q, image) || !TouchesConfig(q, image) {
      forall c: seq<cell> | |c| == n ensures KeepsConfig(rs, c, q, image) {
        KeptConfig(rs, c, q, image);
      }
    } else {
      var i :| InConfig(i) && Touches(q, image, i);
      LostByte(rs, n, q, image, i);
    }
  }

  lemma KeptConfig(rs: seq<Region>, c: seq<cell>, q: Request, image: Option<seq<cell>>)
    requires CONFIG_START + CONFIG_LEN <= |c|
    requires !Starts(rs, |c|, q) || PutsBack(rs, |c|, q, image) || !TouchesConfig(q, image)
    ensures KeepsConfig(rs, c, q, image)
  {
    var out := Updated(rs, c, q, image).0;
    UpdatedByte(rs, c, q, image, CONFIG_START);
    forall i | InConfig(i) ensures out[i] == c[i] {
      UpdatedByte(rs, c, q, image, i);
      if Starts(rs, |c|, q) && !PutsBack(rs, |c|, q, image) {
        assert !Touches(q, image, i);
        MeetBlank(c[i]);
      }
    }
  }

  /** What is put on a touched byte. */
  function NewByte(q: Request, image: Option<seq<cell>>, i: int): cell {
    if image.Some? && q.start <= i < q.start + |image.value| then image.value[i - q.start] else BLANK
  }

  /** A touched configuration byte that changes for some old contents. */
  lemma LostByte(rs: seq<Region>, n: nat, q: Request, image: Option<seq<cell>>, i: int)
    requires CONFIG_START + CONFIG_LEN <= n && Starts(rs, n, q) && !PutsBack(rs, n, q, image)
    requires InConfig(i) && Touches(q, image, i)
    ensures exists c: seq<cell> :: |c| == n && !KeepsConfig(rs, c, q, image)
  {
    var before := if NewByte(q, image, i) == BLANK then 0 else BLANK;
    var c := seq(n, _ => before);
    ChangedByte(rs, c, q, image, i);
  }

  lemma ChangedByte(rs: seq<Region>, c: seq<cell>, q: Request, image: Option<seq<cell>>, i: int)
    requires CONFIG_START + CONFIG_LEN <= |c| && Starts(rs, |c|, q) && !PutsBack(rs, |c|, q, image)
    requires InConfig(i) && Touches(q, image, i)
    requires c[i] == if NewByte(q, image, i) == BLANK then 0 else BLANK
    ensures !KeepsConfig(rs, c, q, image)
  {
    UpdatedByte(rs, c, q, image, i);
    MeetBlank(NewByte(q, image, i));
    var out := Updated(rs, c, q, image).0;
    assert out[i] == NewByte(q, image, i);
  }

  const FLASH_SIZE := 0x100000

  function Blocks(n: nat, size: nat): seq<Region> { [Region(0, n, size)] }

  /** A first real case: in a flash of sixteen 64 KB blocks the configuration starts in the middle of a block. Erasing
      all of it with -s leaves every configuration blank, with exit status 0. */
  lemma UniformBlocksLoseConfig(c: seq<cell>)
    requires |c| == FLASH_SIZE
    ensures Updated(Blocks(16, 0x10000), c, Request(0, FLASH_SIZE, true), None) == (Erased(c, 0, FLASH_SIZE), 0)
    ensures forall i :: 0 <= i < FLASH_SIZE ==> Erased(c, 0, FLASH_SIZE)[i] == BLANK
  {
    var rs := Blocks(16, 0x10000);
    assert IsBlock(rs, 0, 0, 0);
    forall i: nat, b: nat ensures !IsBlock(rs, i, b, CONFIG_START) {
      if IsBlock(rs, i, b, CONFIG_START) { InMidBlock(b); }
    }
  }

  lemma InMidBlock(b: nat)
    ensures 0x10000 * b != CONFIG_START
  {
  }

  /** A second one: with blocks that suit the configuration, an image that is one byte too long ends the run with
      status 4 before the configuration is put back; it holds the image. */
  lemma LongImageLosesConfig(c: seq<cell>, image: seq<cell>, i: nat)
    requires |c| == FLASH_SIZE && |image| == FLASH_SIZE + 1 && InConfig(i)
    ensures ConfigErasable(Blocks(64, 0x4000))
    ensures var r := Updated(Blocks(64, 0x4000), c, Request(0, FLASH_SIZE, true), Some(image));
            r.1 == 4 && |r.0| == |c| && r.0[i] == image[i]
  {
    var rs, q := Blocks(64, 0x4000), Request(0, FLASH_SIZE, true);
    SmallBlocks();
    LongImageStatus(rs, c, q, image);
    UpdatedByte(rs, c, q, Some(image), i);
  }

  lemma LongImageStatus(rs: seq<Region>, c: seq<cell>, q: Request, image: seq<cell>)
    requires Starts(rs, |c|, q) && q.start + |image| > |c|
    ensures Updated(rs, c, q, Some(image)).1 == 4
  {
  }

  lemma SmallBlocks()
    ensures ConfigErasable(Blocks(64, 0x4000)) && RangeErasable(Blocks(64, 0x4000), Request(0, FLASH_SIZE, true))
  {
    var rs := Blocks(64, 0x4000);
    assert IsBlock(rs, 0, 0, 0) && IsBlock(rs, 0, 62, CONFIG_START) && IsBlock(rs, 0, 63, CONFIG_START + CONFIG_LEN);
  }
}
