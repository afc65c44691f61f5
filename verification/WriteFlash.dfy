/** The flash card writer: copies an input of unknown length to a linear card, erasing each block just before the
    first data for it arrives. */
module WriteFlash {
  import opened Arithmetic
  import opened NorFlash

  const READBUF := 1024

  /** A card with blocks of one size. */
  ghost predicate Card(d: Device, size: nat)
    reads d
  {
    d.Valid() && size > 0 && |d.regions| == 1 && d.regions[0].offset == 0 && d.regions[0].size == size
  }

  /** The start of the block of an address, and the start of the first block at or after it. */
  function BlockDown(at: nat, size: nat): nat
    requires size > 0
  {
    size * (at / size)
  }

  function BlockUp(at: nat, size: nat): nat
    requires size > 0
  {
    size * ((at + size - 1) / size)
  }

  lemma BlockBounds(at: nat, size: nat)
    requires size > 0
    ensures BlockDown(at, size) <= at < BlockDown(at, size) + size
    ensures at <= BlockUp(at, size) < at + size
  {
  }

  /** A multiple of the block size. */
  ghost predicate OnGrid(size: nat, at: nat) {
    exists k: nat :: IsMultiple(size, k, at)
  }

  predicate IsMultiple(size: nat, k: nat, at: nat) { at == k * size }

  lemma BlockDownOnGrid(at: nat, size: nat)
    requires size > 0
    ensures OnGrid(size, BlockDown(at, size))
  {
    assert IsMultiple(size, at / size, BlockDown(at, size));
  }

  /** Of the multiples of the block size, BlockUp is the only one less than a block above. */
  lemma BlockUpUnique(at: nat, size: nat, up: nat)
    requires size > 0 && OnGrid(size, up) && at <= up < at + size
    ensures up == BlockUp(at, size)
  {
    var k: nat :| IsMultiple(size, k, up);
    QuotientAndResidue(size, at + size - 1, k, at + size - 1 - up);
  }

  /** Erasing is possible at every multiple of the block size below the end of the card, and nowhere else; the block
      then ends inside the card, at the next multiple. */
  lemma CardBlock(d: Device, size: nat, at: nat)
    requires Card(d, size) && OnGrid(size, at)
    ensures IsWholeBlock(d.regions, at, size) <==> at < d.size
    ensures at < d.size ==> at + size <= d.size
    ensures OnGrid(size, at + size)
  {
    var r := d.regions[0];
    var k: nat :| IsMultiple(size, k, at);
    assert IsMultiple(size, k + 1, at + size);
    if at < d.size {
      Cancel(k, r.blocks, size);
      assert IsBlock(d.regions, 0, k, at);
      BlockInRegion(r, k);
    }
    if IsWholeBlock(d.regions, at, size) {
      var b: nat :| b < r.blocks && IsBlock(d.regions, 0, b, at);
      BlockInRegion(r, b);
    }
  }

  /** MEMERASE, tried three times. */
  method EraseBlock(d: Device, size: nat, offset: nat) returns (ok: bool)
    requires Card(d, size) && OnGrid(size, offset)
    modifies d`cells, d`wear
    ensures Card(d, size) && OnGrid(size, offset + size)
    ensures ok <==> offset < d.size
    ensures ok ==> offset + size <= d.size
    ensures d.cells == if ok then Erased(old(d.cells), offset, offset + size) else old(d.cells)
    ensures d.wear == if ok then Worn(old(d.wear), offset, offset + size) else old(d.wear)
  {
    CardBlock(d, size, offset);
    ok := d.Erase(offset, size);
    if !ok {
      ok := d.Erase(offset, size);
      if !ok { ok := d.Erase(offset, size); }
    }
  }

  /** Erase the blocks from offset up to the one that holds the last byte before end, after asking once. */
  method EraseAhead(d: Device, size: nat, offset: nat, end: nat, ask: bool, yes: bool)
    returns (ok: bool, offset': nat, ask': bool)
    requires Card(d, size) && OnGrid(size, offset)
    modifies d`cells, d`wear
    ensures Card(d, size) && OnGrid(size, offset') && offset <= offset'
    ensures d.cells == Erased(old(d.cells), offset, offset') && d.wear == Worn(old(d.wear), offset, offset')
    ensures ok <==> offset >= end || (!(ask && !yes) && end <= d.size)
    ensures ok ==> if offset < end then end <= offset' < end + size && offset' <= d.size else offset' == offset
    ensures ok ==> ask' == (ask && offset >= end)
    ensures ask && !yes ==> offset' == offset
    ensures offset' == offset || offset' <= d.size
    ensures !ok && !(ask && !yes) ==> offset' >= d.size
  {
    offset', ask' := offset, ask;
    ghost var c, w := d.cells, d.wear;
    assert Erased(c, offset, offset) == c && Worn(w, offset, offset) == w;
    while offset' < end
      invariant Card(d, size) && OnGrid(size, offset') && offset <= offset'
      invariant offset' == offset || (offset < end && offset' < end + size)
      invariant d.cells == Erased(c, offset, offset') && d.wear == Worn(w, offset, offset')
      invariant ask' == (ask && offset' == offset)
      invariant offset' > offset ==> !(ask && !yes) && offset' <= d.size
      decreases end + size - offset'
    {
      if ask' {
        if !yes { return false, offset', ask'; }
        ask' := false;
      }
      ok := EraseBlock(d, size, offset');
      if !ok { return false, offset', ask'; }
      ErasedJoin(c, offset, offset', offset' + size);
      WornJoin(w, offset, offset', offset' + size);
      offset' := offset' + size;
    }
    ok := true;
  }

  /** The state of a run after some of the input has been written: done is on the card from start on, and all blocks
      from the first one to offset have been erased once. Nothing at or above offset has been written. */
  ghost predicate WrittenSoFar(d: Device, size: nat, c: seq<cell>, w: seq<nat>, first: nat, start: nat,
                               done: seq<cell>, offset: nat, erase: bool)
    reads d
  {
    && Card(d, size) && OnGrid(size, offset) && first <= offset && first <= start < first + size
    && (if erase then done == [] || start + |done| <= offset < start + |done| + size else offset == first)
    && (erase && done == [] ==> offset == first) && (offset == first || offset <= d.size)
    && (done == [] || start + |done| <= d.size)
    && d.cells == Programmed(Erased(c, first, offset), start, done)
    && d.wear == Worn(w, first, offset)
  }

  /** What a run has done when it gives up: wrote stands at start, and the blocks from first to offset are erased,
      which with erasing is all of the ground that was written. */
  ghost predicate Stopped(d: Device, c: seq<cell>, w: seq<nat>, first: nat, start: nat, wrote: seq<cell>, offset: nat,
                          erase: bool)
    reads d
  {
    && first <= offset && (if erase then wrote == [] || start + |wrote| <= offset else offset == first)
    && d.cells == Programmed(Erased(c, first, offset), start, wrote)
    && d.wear == Worn(w, first, offset)
  }

  /** How far it has come: without erasing, as far as the card goes; with erasing, it has erased as far as the card goes,
      or nothing when that was declined. */
  predicate StopsAt(cardSize: nat, first: nat, start: nat, wrote: nat, offset: nat, erase: bool, declined: bool) {
    if !erase then wrote == Max(cardSize - start, 0)
    else if declined then wrote == 0 && offset == first
    else offset == Max(first, cardSize)
  }

  predicate SameBelow(a: seq<cell>, b: seq<cell>, end: nat) {
    |a| == |b| && forall i :: 0 <= i < end && i < |a| ==> a[i] == b[i]
  }

  /** One pass of the outer loop: a piece of the input has been read, and the blocks that it needs are erased before
      it is written. */
  method WritePiece(d: Device, size: nat, piece: seq<cell>, at: nat, offset: nat, ask: bool, yes: bool, erase: bool,
                    ghost c: seq<cell>, ghost w: seq<nat>, ghost first: nat, ghost start: nat, ghost done: seq<cell>)
    returns (ok: bool, offset': nat, ask': bool, ghost wrote: seq<cell>)
    requires WrittenSoFar(d, size, c, w, first, start, done, offset, erase)
    requires piece != [] && at == start + |done|
    modifies d`cells, d`wear, d`pos
    ensures Card(d, size) && SameBelow(d.cells, old(d.cells), first)
    ensures ok ==> WrittenSoFar(d, size, c, w, first, start, done + piece, offset', erase)
    ensures !ok ==> wrote <= done + piece && Stopped(d, c, w, first, start, wrote, offset', erase)
    ensures !ok ==> if erase then offset' == (if ask && !yes then offset else Max(first, d.size))
                    else |wrote| == Max(d.size - start, 0)
    ensures ok <==> at + |piece| <= d.size && !(erase && ask && !yes && offset < at + |piece|)
    ensures ok ==> ask' == (ask && !(erase && offset < at + |piece|))
    ensures erase && ask && !yes && offset < at + |piece| ==> d.cells == old(d.cells) && d.wear == old(d.wear)
  {
    offset', ask', wrote := offset, ask, done;
    if erase {
      ok, offset', ask' := EraseAhead(d, size, offset, at + |piece|, ask, yes);
      EraseAfter(c, first, offset, offset', start, done);
      WornJoin(w, first, offset, offset');
      if !ok { return; }
    }
    var r := d.Seek(at);
    if r == -1 { return false, offset', ask', done; }
    var n := d.Write(piece);
    ProgrammedJoin(Erased(c, first, offset'), start, done, piece[..n]);
    wrote := done + piece[..n];
    if n != |piece| { return false, offset', ask', wrote; }
    assert piece[..n] == piece;
    ok := true;
  }

  /** Erasing blocks above all that has been written commutes with that writing. */
  lemma EraseAfter(c: seq<cell>, first: nat, offset: nat, offset': nat, start: nat, done: seq<cell>)
    requires first <= offset <= offset' && (done == [] || start + |done| <= offset)
    ensures Erased(Programmed(Erased(c, first, offset), start, done), offset, offset')
         == Programmed(Erased(c, first, offset'), start, done)
  {
  }

  /** What a whole run leaves: with erasing, the input stands in the touched blocks and the rest of them is blank;
      without, it is programmed over what was there. */
  function Formatted(c: seq<cell>, size: nat, start: nat, input: seq<cell>, erase: bool): seq<cell>
    requires size > 0
  {
    if erase && input != [] then
      Programmed(Erased(c, BlockDown(start, size), BlockUp(start + |input|, size)), start, input)
    else Programmed(c, start, input)
  }

  function FormattedWear(w: seq<nat>, size: nat, start: nat, length: nat, erase: bool): seq<nat>
    requires size > 0
  {
    if erase && length > 0 then Worn(w, BlockDown(start, size), BlockUp(start + length, size)) else w
  }

  /** The run succeeds: the input ends inside the card, and the question is not asked or answered with yes. */
  predicate Succeeds(start: nat, length: nat, cardSize: nat, erase: bool, ask: bool, yes: bool) {
    length == 0 || (start + length <= cardSize && !(erase && ask && !yes))
  }

  /** The run is under way: done has been read and written, and the question is open until the first erase. */
  ghost predicate Going(d: Device, size: nat, from: Input, c: seq<cell>, w: seq<nat>, input: seq<cell>, first: nat,
                        start: nat, done: seq<cell>, offset: nat, asking: bool, ask: bool, yes: bool, erase: bool)
    reads d, from
  {
    && WrittenSoFar(d, size, c, w, first, start, done, offset, erase) && SameBelow(d.cells, c, first)
    && done + from.rest == input
    && asking == (ask && !(erase && done != [])) && (done != [] ==> !(erase && ask && !yes))
    && (done == [] ==> d.cells == c && d.wear == w)
  }

  /** The run has failed, as it had to. */
  ghost predicate GivenUp(d: Device, c: seq<cell>, w: seq<nat>, input: seq<cell>, first: nat, start: nat,
                          wrote: seq<cell>, offset: nat, ask: bool, yes: bool, erase: bool)
    reads d
  {
    && !Succeeds(start, |input|, d.size, erase, ask, yes)
    && wrote <= input && Stopped(d, c, w, first, start, wrote, offset, erase)
    && StopsAt(d.size, first, start, |wrote|, offset, erase, ask && !yes)
    && (erase && ask && !yes ==> d.cells == c && d.wear == w)
  }

  /** Read a piece, and write it unless the input has ended. */
  method FormatStep(d: Device, size: nat, from: Input, offset: nat, at: nat, asking: bool, yes: bool, erase: bool,
                    ghost c: seq<cell>, ghost w: seq<nat>, ghost input: seq<cell>, ghost first: nat, ghost start: nat,
                    ghost done: seq<cell>, ghost ask: bool)
    returns (ok: bool, n: nat, offset': nat, asking': bool, ghost done': seq<cell>)
    requires Going(d, size, from, c, w, input, first, start, done, offset, asking, ask, yes, erase)
    requires at == start + |done|
    modifies d`cells, d`wear, d`pos, from
    ensures Card(d, size) && SameBelow(d.cells, c, first)
    ensures ok ==> Going(d, size, from, c, w, input, first, start, done', offset', asking', ask, yes, erase)
    ensures ok ==> |done'| == |done| + n && |from.rest| + n == |old(from.rest)|
    ensures ok ==> (n == 0 <==> from.rest == [] && done' == done)
    ensures ok && n == 0 ==> done' == input
    ensures !ok ==> GivenUp(d, c, w, input, first, start, done', offset', ask, yes, erase)
  {
    var piece := from.Read(READBUF);
    ok, n, offset', asking', done' := true, |piece|, offset, asking, done;
    if piece == [] {
      assert done == input;
    } else {
      assert done + piece <= input by { assert input == done + piece + from.rest; }
      ok, offset', asking', done' := WritePiece(d, size, piece, at, offset, asking, yes, erase, c, w, first, start, done);
      if ok {
        done' := done + piece;
        assert done' + from.rest == input;
      }
    }
  }

  /** The loop of format_partition, from the first block on. */
  method FormatFrom(d: Device, size: nat, from: Input, ask: bool, yes: bool, erase: bool, first: nat, start: nat)
    returns (res: int, ghost end: nat, ghost wrote: seq<cell>)
    requires Card(d, size) && OnGrid(size, first) && first <= start < first + size
    modifies d`cells, d`wear, d`pos, from
    ensures Card(d, size) && SameBelow(d.cells, old(d.cells), first)
    ensures res == if Succeeds(start, |old(from.rest)|, d.size, erase, ask, yes) then 0 else -1
    ensures res == 0 ==> WrittenSoFar(d, size, old(d.cells), old(d.wear), first, start, old(from.rest), end, erase)
    ensures res == -1 ==> wrote <= old(from.rest)
    ensures res == -1 ==> Stopped(d, old(d.cells), old(d.wear), first, start, wrote, end, erase)
    ensures res == -1 ==> StopsAt(d.size, first, start, |wrote|, end, erase, ask && !yes)
    ensures erase && ask && !yes ==> d.cells == old(d.cells) && d.wear == old(d.wear)
  {
    ghost var c, w, input, done := d.cells, d.wear, from.rest, [];
    var offset, at, asking := first, start, ask;
    NothingYet(c, w, first, start);
    while true
      invariant Going(d, size, from, c, w, input, first, start, done, offset, asking, ask, yes, erase)
      invariant at == start + |done|
      decreases |from.rest|
    {
      var ok, n;
      ok, n, offset, asking, done := FormatStep(d, size, from, offset, at, asking, yes, erase, c, w, input, first, start,
                                                done, ask);
      if !ok { return -1, offset, done; }
      if n == 0 { return 0, offset, done; }
      at := at + n;
    }
  }

  /** format_partition: for every input and every way to chop it, the flash and the erase counts are as Formatted and
      FormattedWear say. So every touched block is erased exactly once, before data lands in it and never after. A run
      that fails has written a part of the input, on erased blocks when it erases, and erased each of those once. */
  method FormatPartition(d: Device, size: nat, from: Input, ask: bool, yes: bool, erase: bool, start: nat)
    returns (res: int, ghost end: nat, ghost wrote: seq<cell>)
    requires Card(d, size)
    modifies d`cells, d`wear, d`pos, from
    ensures Card(d, size) && SameBelow(d.cells, old(d.cells), BlockDown(start, size))
    ensures res == if Succeeds(start, |old(from.rest)|, d.size, erase, ask, yes) then 0 else -1
    ensures res == 0 <==> |old(from.rest)| == 0 || (start + |old(from.rest)| <= d.size && !(erase && ask && !yes))
    ensures res == -1 ==> wrote <= old(from.rest)
    ensures res == -1 ==> Stopped(d, old(d.cells), old(d.wear), BlockDown(start, size), start, wrote, end, erase)
    ensures res == -1 ==> StopsAt(d.size, BlockDown(start, size), start, |wrote|, end, erase, ask && !yes)
    ensures res == 0 ==> d.cells == Formatted(old(d.cells), size, start, old(from.rest), erase)
    ensures res == 0 ==> d.wear == FormattedWear(old(d.wear), size, start, |old(from.rest)|, erase)
    ensures erase && ask && !yes ==> d.cells == old(d.cells) && d.wear == old(d.wear)
  {
    ghost var c, w, input := d.cells, d.wear, from.rest;
    BlockBounds(start, size);
    BlockDownOnGrid(start, size);
    res, end, wrote := FormatFrom(d, size, from, ask, yes, erase, size * (start / size), start);
    if res == 0 {
      if erase && input != [] {
        BlockUpUnique(start + |input|, size, end);
      } else {
        NothingYet(c, w, BlockDown(start, size), start);
      }
    }
  }

  lemma NothingYet(c: seq<cell>, w: seq<nat>, first: nat, start: nat)
    ensures Erased(c, first, first) == c && Worn(w, first, first) == w && Programmed(c, start, []) == c
  {
  }

  /** Byte i of the card afterwards. With erasing: the input where it went, blank in the rest of the touched blocks,
      which are those from the block of its first byte to the block of its last, and unchanged elsewhere; touched
      blocks are erased once more and no others. Without: the input over the bits that were there. */
  lemma FormattedByte(c: seq<cell>, w: seq<nat>, size: nat, start: nat, input: seq<cell>, erase: bool, i: nat)
    requires size > 0 && i < |c| == |w|
    ensures var after, worn := Formatted(c, size, start, input, erase), FormattedWear(w, size, start, |input|, erase);
            var touched := erase && input != [] && start / size <= i / size <= (start + |input| - 1) / size;
            && |after| == |c| && |worn| == |w|
            && after[i] == (if start <= i < start + |input|
                            then (if erase then input[i - start] else Meet(c[i], input[i - start]))
                            else if touched then 0xFF else c[i])
            && worn[i] == w[i] + (if touched then 1 else 0)
  {
    if input != [] {
      TouchedBlocks(size, start, |input|, i);
      BlockBounds(start, size);
      BlockBounds(start + |input|, size);
      if start <= i < start + |input| { MeetBlank(input[i - start]); }
    }
  }

  lemma TouchedBlocks(size: nat, start: nat, length: nat, i: nat)
    requires size > 0 && length > 0
    ensures BlockDown(start, size) <= i < BlockUp(start + length, size)
       <==> start / size <= i / size <= (start + length - 1) / size
  {
    EndOfBlock(size, start + length);
    BlockOf(size, i, start / size);
    BlockOf(size, i, (start + length - 1) / size);
  }

  lemma BlockOf(size: nat, i: nat, q: nat)
    requires size > 0
    ensures size * q <= i <==> q <= i / size
    ensures i < q * size + size <==> i / size <= q
  {
    var k := i / size;
    assert k * size <= i < k * size + size;
    if k < q { assert (k + 1) * size <= q * size; }
    if q < k { assert (q + 1) * size <= k * size; }
    if q == k { assert q * size == k * size; }
    if q <= k { assert q * size <= k * size; }
  }

  lemma EndOfBlock(size: nat, end: nat)
    requires size > 0 && end > 0
    ensures BlockUp(end, size) == (end - 1) / size * size + size
  {
    var b := (end - 1) / size;
    QuotientAndResidue(size, end + size - 1, b + 1, (end - 1) % size);
  }

  /** Byte i of the card after a run that has failed: with erasing, all blocks from the first one on are erased once,
      unless that was declined, and hold what has been written; without, all that the card had room for is written
      over the bits that were there. */
  lemma StoppedByte(d: Device, c: seq<cell>, w: seq<nat>, size: nat, start: nat, wrote: seq<cell>, end: nat, erase: bool,
                    declined: bool, i: nat)
    requires size > 0 && i < |c| == |w| == d.size
    requires Stopped(d, c, w, BlockDown(start, size), start, wrote, end, erase)
    requires StopsAt(d.size, BlockDown(start, size), start, |wrote|, end, erase, declined)
    ensures |d.cells| == |c| && |d.wear| == |w|
    ensures var erased := erase && !declined && i >= size * (start / size);
            && d.cells[i] == (if start <= i < start + |wrote|
                              then (if erase then wrote[i - start] else Meet(c[i], wrote[i - start]))
                              else if erased then 0xFF else c[i])
            && d.wear[i] == w[i] + (if erased then 1 else 0)
    ensures !erase ==> |wrote| == if start < d.size then d.size - start else 0
    ensures erase && declined ==> wrote == []
  {
    BlockBounds(start, size);
    if start <= i < start + |wrote| { MeetBlank(wrote[i - start]); }
  }
}
