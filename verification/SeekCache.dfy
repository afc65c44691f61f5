/** The cached file position of the block server, on values: which seeks it may skip, and what a request makes of it. */
module SeekCache {
  import opened Arithmetic
  import opened Files
  import opened Overlay
  import opened Wrappers

  /** The cached position, and where the hunk files really stand. */
  datatype Cache = Cache(point: nat, offset: seq<nat>)

  /** Using the cached position for address b is safe: either it does not match b, so that a seek is made, or the
      file of b really stands there. */
  predicate SeekSafe(point: nat, offset: seq<nat>, h: nat, b: nat)
    requires h > 0
  {
    b / h < |offset| && (point == b % h ==> offset[b / h] == b % h)
  }

  /** The first page of lo..end-1 that is not in the diff file. */
  function FirstUnmapped(pages: seq<nat>, lo: nat, end: nat): (r: Option<nat>)
    requires lo <= end <= |pages|
    ensures r.None? ==> forall q :: lo <= q < end ==> pages[q] != NO_PAGE
    ensures r.Some? ==> lo <= r.value < end && pages[r.value] == NO_PAGE
    ensures r.Some? ==> forall q :: lo <= q < r.value ==> pages[q] != NO_PAGE
    decreases end - lo
  {
    if lo == end then None
    else if pages[lo] == NO_PAGE then Some(lo)
    else FirstUnmapped(pages, lo + 1, end)
  }

  /** The last one. */
  function LastUnmapped(pages: seq<nat>, lo: nat, end: nat): (r: Option<nat>)
    requires lo <= end <= |pages|
    ensures r.None? ==> forall q :: lo <= q < end ==> pages[q] != NO_PAGE
    ensures r.Some? ==> lo <= r.value < end && pages[r.value] == NO_PAGE
    ensures r.Some? ==> forall q :: r.value < q < end ==> pages[q] != NO_PAGE
  {
    if lo == end then None
    else if pages[end - 1] == NO_PAGE then Some(end - 1)
    else LastUnmapped(pages, lo, end - 1)
  }

  /** The part of a request from a to stop that lies in page q. */
  function PartStart(q: nat, a: nat): (r: nat)
    ensures r >= a && r >= q * PAGE
  {
    if q * PAGE <= a then a else q * PAGE
  }

  function PartLength(q: nat, a: nat, stop: nat): nat {
    Max(Min(stop, q * PAGE + PAGE) - PartStart(q, a), 0)
  }

  /** Where the file of address at is read or written: at the offset of the address, or, when the cached position has that
      offset, where the file stands. */
  function Position(c: Cache, h: nat, at: nat): nat
    requires h > 0
  {
    if c.point == at % h && at / h < |c.offset| then c.offset[at / h] else at % h
  }

  /** A raw access of n bytes at an address: the position is cached as it was before. */
  function AfterRead(c: Cache, h: nat, at: nat, n: nat): (r: Cache)
    requires h > 0
    ensures |r.offset| == |c.offset|
  {
    Cache(at % h, if at / h < |c.offset| then c.offset[at / h := Position(c, h, at) + n] else c.offset)
  }

  /** The base reads among pages lo..p-1 of a request from a to stop. */
  function AfterReads(c: Cache, h: nat, pages: seq<nat>, lo: nat, p: nat, a: nat, stop: nat): (r: Cache)
    requires h > 0 && lo <= p <= |pages|
    ensures |r.offset| == |c.offset|
    decreases p
  {
    if p == lo then c
    else
      var before := AfterReads(c, h, pages, lo, p - 1, a, stop);
      if pages[p - 1] != NO_PAGE then before
      else AfterRead(before, h, PartStart(p - 1, a), PartLength(p - 1, a, stop))
  }

  lemma AfterPart(c: Cache, h: nat, pages: seq<nat>, lo: nat, p: nat, a: nat, stop: nat, at: nat, n: nat)
    requires h > 0 && lo <= p < |pages|
    requires at == PartStart(p, a) && n == PartLength(p, a, stop)
    ensures AfterReads(c, h, pages, lo, p + 1, a, stop) ==
            var before := AfterReads(c, h, pages, lo, p, a, stop);
            if pages[p] == NO_PAGE then AfterRead(before, h, at, n) else before
  {
  }

  lemma AfterCopy(c: Cache, h: nat, pages: seq<nat>, lo: nat, p: nat, hi: nat)
    requires h > 0 && lo <= p <= hi < |pages|
    ensures AfterReads(c, h, pages, lo, p + 1, lo * PAGE, hi * PAGE + PAGE) ==
            var before := AfterReads(c, h, pages, lo, p, lo * PAGE, hi * PAGE + PAGE);
            if pages[p] == NO_PAGE then AfterRead(before, h, p * PAGE, PAGE) else before
  {
    AfterPart(c, h, pages, lo, p, lo * PAGE, hi * PAGE + PAGE, p * PAGE, PAGE);
  }

  /** The pages of a request, and what a read and a write of it, which copies whole pages, make of the cache. */
  function FirstPage(a: nat): nat { a / PAGE }

  function LastPage(a: nat, len: nat): nat
    requires len > 0
  {
    (a + len - 1) / PAGE
  }

  /** What the main loop makes of the cache after a request: the position is moved on by the length of the whole
      request. */
  function Moved(c: Cache, len: nat): Cache {
    Cache((c.point + len) % U64, c.offset)
  }

  /** The cached position is an offset in file j that belongs to the export. */
  predicate PointsInto(c: Cache, h: nat, size: nat, j: nat) {
    c.point < h && j * h + c.point < size
  }

  /** Every file into which the cached position points stands there. */
  predicate Sound(c: Cache, h: nat, size: nat) {
    forall j :: 0 <= j < |c.offset| && PointsInto(c, h, size, j) ==> c.offset[j] == c.point
  }

  /** That is so exactly when the cache is safe for every address of the export. */
  lemma SoundExactly(c: Cache, h: nat, size: nat)
    requires h > 0 && forall b :: 0 <= b < size ==> b / h < |c.offset|
    ensures Sound(c, h, size) <==> forall b :: 0 <= b < size ==> SeekSafe(c.point, c.offset, h, b)
  {
    if Sound(c, h, size) {
      forall b | 0 <= b < size ensures SeekSafe(c.point, c.offset, h, b) {
        var j := b / h;
        assert b == j * h + b % h;
        if c.point == b % h { assert PointsInto(c, h, size, j); }
      }
    }
    if forall b :: 0 <= b < size ==> SeekSafe(c.point, c.offset, h, b) {
      forall j | 0 <= j < |c.offset| && PointsInto(c, h, size, j) ensures c.offset[j] == c.point {
        var b := j * h + c.point;
        QuotientAndResidue(h, b, j, c.point);
        assert SeekSafe(c.point, c.offset, h, b);
      }
    }
  }

  /** A part of a file: addresses from start on that do not leave hunk i. */
  predicate InHunk(h: nat, i: nat, start: int, end: int) {
    i * h <= start && end <= i * h + h
  }

  lemma {:induction false} FirstGrows(pages: seq<nat>, lo: nat, p: nat)
    requires lo < p <= |pages|
    ensures var before := FirstUnmapped(pages, lo, p - 1);
            FirstUnmapped(pages, lo, p) == if before.Some? then before
                                           else if pages[p - 1] == NO_PAGE then Some((p - 1) as nat) else None
    decreases p - lo
  {
    if lo < p - 1 { FirstGrows(pages, lo + 1, p); }
  }

  /** The cached position of a request under way is that of its last base read; without one nothing has happened. */
  lemma {:induction false} PointSoFar(c: Cache, h: nat, pages: seq<nat>, lo: nat, p: nat, a: nat, stop: nat)
    requires h > 0 && lo <= p <= |pages|
    ensures var last := LastUnmapped(pages, lo, p);
            && (last.None? <==> FirstUnmapped(pages, lo, p).None?)
            && (last.None? ==> AfterReads(c, h, pages, lo, p, a, stop) == c)
            && (last.Some? ==> AfterReads(c, h, pages, lo, p, a, stop).point == PartStart(last.value, a) % h)
    decreases p
  {
    if p > lo {
      PointSoFar(c, h, pages, lo, p - 1, a, stop);
      FirstGrows(pages, lo, p);
    }
  }

  /** In a request shorter than a hunk, only the first base read uses the cached position that it found: later ones have
      other offsets than the one before them, so a seek is made. */
  lemma PositionInRequest(c: Cache, h: nat, pages: seq<nat>, lo: nat, p: nat, a: nat, stop: nat)
    requires 0 < h && lo <= p < |pages| && a < lo * PAGE + PAGE && (p + 1 - lo) * PAGE <= h
    ensures Position(AfterReads(c, h, pages, lo, p, a, stop), h, PartStart(p, a))
         == if FirstUnmapped(pages, lo, p).None? then Position(c, h, PartStart(p, a)) else PartStart(p, a) % h
  {
    PointSoFar(c, h, pages, lo, p, a, stop);
    var last := LastUnmapped(pages, lo, p);
    if last.Some? {
      OtherResidue(h, PartStart(last.value, a), PartStart(p, a), lo, last.value, p, a);
    }
  }

  lemma OtherResidue(h: nat, before: nat, x: nat, lo: nat, q: nat, p: nat, a: nat)
    requires 0 < h && lo <= q < p && a < lo * PAGE + PAGE && (p + 1 - lo) * PAGE <= h
    requires before == PartStart(q, a) && x == PartStart(p, a)
    ensures before % h != x % h
  {
    assert q * PAGE + PAGE <= p * PAGE && lo * PAGE <= q * PAGE;
    ResiduesDiffer(h, before, x);
  }

  function FileAt(base: seq<seq<byte>>, h: nat, x: nat): seq<byte>
    requires h > 0
  {
    if x / h < |base| then base[x / h] else []
  }

  /** An image with n bytes from x on as a file has them at a position. */
  function FromFile(v: seq<Option<byte>>, file: seq<byte>, pos: nat, x: nat, n: nat): (r: seq<Option<byte>>)
    ensures |r| == |v|
    ensures forall y :: 0 <= y < |v| ==> r[y] == if x <= y < x + n then ByteAt(file, pos + (y - x)) else v[y]
  {
    seq(|v|, y requires 0 <= y < |v| => if x <= y < x + n then ByteAt(file, pos + (y - x)) else v[y])
  }

  /** The image as an access of n bytes at address x sees it: there it finds what the file has at the position used. */
  function Seen(v: seq<Option<byte>>, base: seq<seq<byte>>, h: nat, c: Cache, x: nat, n: nat): (r: seq<Option<byte>>)
    requires h > 0
    ensures |r| == |v|
    ensures forall y :: 0 <= y < |v| ==>
              r[y] == if x <= y < x + n then ByteAt(FileAt(base, h, x), Position(c, h, x) + (y - x)) else v[y]
  {
    seq(|v|, y requires 0 <= y < |v| =>
               if x <= y < x + n then ByteAt(FileAt(base, h, x), Position(c, h, x) + (y - x)) else v[y])
  }

  lemma SeenIs(v: seq<Option<byte>>, base: seq<seq<byte>>, h: nat, c: Cache, x: nat, n: nat, file: seq<byte>, pos: nat)
    requires h > 0 && file == FileAt(base, h, x) && pos == Position(c, h, x)
    ensures Seen(v, base, h, c, x, n) == FromFile(v, file, pos, x, n)
  {
    var w, u := Seen(v, base, h, c, x, n), FromFile(v, file, pos, x, n);
    forall y | 0 <= y < |v| ensures w[y] == u[y] {
    }
  }

  /** ... as a request from a to stop does whose first base read is in page first. */
  function SeenFrom(v: seq<Option<byte>>, base: seq<seq<byte>>, h: nat, c: Cache, first: Option<nat>, a: nat, stop: nat):
    (r: seq<Option<byte>>)
    requires h > 0
    ensures |r| == |v|
  {
    match first
    case None => v
    case Some(q) => Seen(v, base, h, c, PartStart(q, a), PartLength(q, a, stop))
  }

  /** What the access reads, on the image that it sees. */
  lemma SeenRead(v: seq<Option<byte>>, base: seq<seq<byte>>, h: nat, c: Cache, x: nat, n: nat)
    requires h > 0 && n > 0 && x + n <= |v|
    ensures var data := ReadAt(FileAt(base, h, x), Position(c, h, x), n);
            && (|data| == n <==> Present(Seen(v, base, h, c, x, n), x, n))
            && (|data| == n ==> Shows(Seen(v, base, h, c, x, n), x, data)
                                && Seen(v, base, h, c, x, n) == Overwrite(v, x, data))
  {
    var w, file, pos := Seen(v, base, h, c, x, n), FileAt(base, h, x), Position(c, h, x);
    var data := ReadAt(file, pos, n);
    PartOfFile(w, file, pos, x, n);
    if |data| == n { SeenIsOverwrite(v, w, file, pos, x, n); }
  }

  lemma PartOfFile(w: seq<Option<byte>>, file: seq<byte>, pos: nat, x: nat, n: nat)
    requires n > 0 && x + n <= |w| && forall y :: x <= y < x + n ==> w[y] == ByteAt(file, pos + (y - x))
    ensures |ReadAt(file, pos, n)| == n <==> Present(w, x, n)
    ensures |ReadAt(file, pos, n)| == n ==> Shows(w, x, ReadAt(file, pos, n))
  {
    if pos + n > |file| { assert w[x + n - 1].None?; }
  }

  lemma SeenIsOverwrite(v: seq<Option<byte>>, w: seq<Option<byte>>, file: seq<byte>, pos: nat, x: nat, n: nat)
    requires x + n <= |v| == |w| && |ReadAt(file, pos, n)| == n
    requires forall y :: 0 <= y < |v| ==> w[y] == if x <= y < x + n then ByteAt(file, pos + (y - x)) else v[y]
    ensures w == Overwrite(v, x, ReadAt(file, pos, n))
  {
    var data := ReadAt(file, pos, n);
    forall y | 0 <= y < |v| ensures w[y] == Overwrite(v, x, data)[y] {
      if x <= y < x + n { assert data[y - x] == file[pos + (y - x)]; }
    }
  }

  /** The image shows the base files from x on, as it does on a page that is not in the diff file. */
  ghost predicate ShowsBase(v: seq<Option<byte>>, base: seq<seq<byte>>, h: nat, x: nat, n: nat)
    requires h > 0
  {
    && x + n <= |v| && x % h + n <= h
    && forall y :: x <= y < x + n ==> v[y] == ByteAt(FileAt(base, h, x), x % h + (y - x))
  }

  lemma PartShowsBase(v: seq<Option<byte>>, base: seq<seq<byte>>, h: nat, at: nat, size: nat, x: nat, n: nat)
    requires h > 0 && ShowsBase(v, base, h, at, size) && at <= x < at + size && x + n <= at + size
    ensures ShowsBase(v, base, h, x, n)
  {
    WithinHunk(h, at, x);
  }

  /** An access at the right position sees the image as it is. */
  lemma SeenRight(v: seq<Option<byte>>, base: seq<seq<byte>>, h: nat, c: Cache, x: nat, n: nat)
    requires h > 0 && ShowsBase(v, base, h, x, n) && Position(c, h, x) == x % h
    ensures Seen(v, base, h, c, x, n) == v
  {
    var w := Seen(v, base, h, c, x, n);
    forall y | 0 <= y < |v| ensures w[y] == v[y] {
    }
  }

  /** What the read of the part of page p sees. */
  function SeenPart(v: seq<Option<byte>>, base: seq<seq<byte>>, h: nat, c: Cache, pages: seq<nat>, p: nat, a: nat,
                    stop: nat): (r: seq<Option<byte>>)
    requires h > 0 && p < |pages|
    ensures |r| == |v|
  {
    if pages[p] == NO_PAGE then Seen(v, base, h, c, PartStart(p, a), PartLength(p, a, stop)) else v
  }

  /** Each part of a request, with the cache as it finds it, sees what the request sees from the start. */
  lemma SeenInRequest(v: seq<Option<byte>>, base: seq<seq<byte>>, h: nat, c: Cache, pages: seq<nat>, lo: nat, p: nat,
                      hi: nat, a: nat, stop: nat)
    requires 0 < h && lo <= p <= hi < |pages| && a < lo * PAGE + PAGE && (hi + 1 - lo) * PAGE <= h
    requires hi * PAGE < stop && a < stop <= |v|
    requires pages[p] == NO_PAGE ==> ShowsBase(v, base, h, PartStart(p, a), PartLength(p, a, stop))
    ensures var x, n := PartStart(p, a), PartLength(p, a, stop);
            var d := AfterReads(c, h, pages, lo, p, a, stop);
            Agree(SeenFrom(v, base, h, c, FirstUnmapped(pages, lo, hi + 1), a, stop),
                  SeenPart(v, base, h, d, pages, p, a, stop), x, n)
  {
    var x, n := PartStart(p, a), PartLength(p, a, stop);
    var d := AfterReads(c, h, pages, lo, p, a, stop);
    var first := FirstUnmapped(pages, lo, hi + 1);
    FirstBefore(pages, lo, p, hi + 1);
    if pages[p] == NO_PAGE {
      PositionInRequest(c, h, pages, lo, p, a, stop);
      if FirstUnmapped(pages, lo, p).Some? { SeenRight(v, base, h, d, x, n); }
    }
    if first.Some? && first.value != p { PartsApart(first.value, p, a, stop); }
  }

  lemma PartsApart(q: nat, p: nat, a: nat, stop: nat)
    requires q != p
    ensures PartStart(q, a) + PartLength(q, a, stop) <= PartStart(p, a)
         || PartStart(p, a) + PartLength(p, a, stop) <= PartStart(q, a)
         || PartLength(p, a, stop) == 0 || PartLength(q, a, stop) == 0
  {
    if q < p { assert q * PAGE + PAGE <= p * PAGE; } else { assert p * PAGE + PAGE <= q * PAGE; }
  }

  lemma {:induction false} FirstBefore(pages: seq<nat>, lo: nat, p: nat, end: nat)
    requires lo <= p < end <= |pages|
    ensures var first := FirstUnmapped(pages, lo, p);
            && (first.Some? ==> FirstUnmapped(pages, lo, end) == first && first.value < p)
            && (first.None? && pages[p] == NO_PAGE ==> FirstUnmapped(pages, lo, end) == Some(p))
            && (first.None? && pages[p] != NO_PAGE ==> FirstUnmapped(pages, lo, end) != Some(p))
    decreases p - lo
  {
    if lo < p && pages[lo] != NO_PAGE { FirstBefore(pages, lo + 1, p, end); }
  }

  /** Where file i stands after the base reads of a request in its hunk, of which the first and the last were in the given
      pages: after the last one, which was at the right position unless it was the only one. */
  function FileEnd(c: Cache, h: nat, i: nat, first: Option<nat>, last: Option<nat>, a: nat, stop: nat): nat
    requires h > 0 && i < |c.offset|
  {
    match last
    case None => c.offset[i]
    case Some(q) =>
      (if first == last then Position(c, h, PartStart(q, a)) else PartStart(q, a) % h) + PartLength(q, a, stop)
  }

  /** A request in hunk i has turned cache c into d: the cached position is that of its last base read, and no other file
      has moved. */
  predicate LeftAt(c: Cache, d: Cache, h: nat, first: Option<nat>, last: Option<nat>, a: nat, stop: nat, i: nat)
    requires h > 0 && i < |c.offset|
  {
    d == match last
         case None => c
         case Some(q) => Cache(PartStart(q, a) % h, c.offset[i := FileEnd(c, h, i, first, last, a, stop)])
  }

  /** Pages lo..p-1 hold a request that is shorter than a hunk and stays in hunk i. */
  predicate RequestInHunk(h: nat, i: nat, lo: nat, p: nat, a: nat, stop: nat) {
    && 0 < h < U64 && lo <= p && (p - lo) * PAGE <= h
    && lo * PAGE <= a < lo * PAGE + PAGE && (p > lo ==> (p - 1) * PAGE < stop) && a < stop && InHunk(h, i, a, stop)
  }

  /** The base reads of a request that stays in one hunk leave the cache at the last of them. */
  lemma {:induction false} ReadsInHunk(c: Cache, h: nat, pages: seq<nat>, lo: nat, p: nat, a: nat, stop: nat, i: nat)
    requires RequestInHunk(h, i, lo, p, a, stop) && p <= |pages| && i < |c.offset|
    ensures LeftAt(c, AfterReads(c, h, pages, lo, p, a, stop), h, FirstUnmapped(pages, lo, p), LastUnmapped(pages, lo, p),
                   a, stop, i)
    decreases p
  {
    if p > lo {
      ReadsInHunk(c, h, pages, lo, p - 1, a, stop, i);
      FirstGrows(pages, lo, p);
      if pages[p - 1] == NO_PAGE {
        PositionInRequest(c, h, pages, lo, p - 1, a, stop);
        HunkOfPart(h, i, p - 1, a, stop);
      }
    }
  }

  lemma HunkOfPart(h: nat, i: nat, q: nat, a: nat, stop: nat)
    requires h > 0 && InHunk(h, i, a, stop) && q * PAGE < stop && a < stop
    ensures PartStart(q, a) / h == i
  {
    var x := PartStart(q, a);
    QuotientAndResidue(h, x, i, x - i * h);
  }

  /** Every file but i into which a position points stands there. */
  predicate OthersStand(c: Cache, h: nat, size: nat, i: nat, point: nat) {
    forall j :: 0 <= j < |c.offset| && j != i && PointsInto(Cache(point, c.offset), h, size, j) ==> c.offset[j] == point
  }

  /** An access at offset at of file i that left the file at end leaves a sound cache, once the position is moved on by
      len, exactly when that is where the file stands, or past the export or the hunk, and every other file into which
      it points happens to stand there. */
  predicate Kept(c: Cache, h: nat, size: nat, i: nat, at: nat, end: nat, len: nat) {
    (end == at + len || i * h + at + len >= size || at + len >= h) && OthersStand(c, h, size, i, at + len)
  }

  lemma KeptExactly(c: Cache, h: nat, size: nat, i: nat, at: nat, end: nat, len: nat)
    requires i < |c.offset| && at + len < U64
    ensures Sound(Moved(Cache(at, c.offset[i := end]), len), h, size) <==> Kept(c, h, size, i, at, end, len)
  {
    var d := Moved(Cache(at, c.offset[i := end]), len);
    assert d.offset[i] == end && d.point == at + len;
    if Sound(d, h, size) {
      assert PointsInto(d, h, size, i) ==> d.offset[i] == d.point;
      forall j | 0 <= j < |c.offset| && j != i && PointsInto(Cache(at + len, c.offset), h, size, j)
        ensures c.offset[j] == at + len
      {
        assert PointsInto(d, h, size, j) && d.offset[j] == c.offset[j];
      }
    }
    if Kept(c, h, size, i, at, end, len) {
      forall j | 0 <= j < |d.offset| && PointsInto(d, h, size, j) ensures d.offset[j] == d.point {
        if j != i { assert PointsInto(Cache(at + len, c.offset), h, size, j); }
      }
    }
  }

  /** For a request that is one access to one file. */
  lemma OneAccessKeepsExactly(c: Cache, h: nat, size: nat, a: nat, len: nat)
    requires h > 0 && a / h < |c.offset| && a % h + len < U64
    ensures Sound(Moved(AfterRead(c, h, a, len), len), h, size)
       <==> Kept(c, h, size, a / h, a % h, Position(c, h, a) + len, len)
  {
    KeptExactly(c, h, size, a / h, a % h, Position(c, h, a) + len, len);
  }

  /** What counts for the cache after a copy-on-write request in one hunk is its last base read, if there is one. */
  predicate RequestKeeps(c: Cache, h: nat, size: nat, first: Option<nat>, last: Option<nat>, a: nat, stop: nat, i: nat,
                         len: nat)
    requires h > 0 && i < |c.offset|
  {
    match last
    case None => Sound(Moved(c, len), h, size)
    case Some(q) => Kept(c, h, size, i, PartStart(q, a) % h, FileEnd(c, h, i, first, last, a, stop), len)
  }

  lemma RequestKeepsExactly(c: Cache, h: nat, size: nat, pages: seq<nat>, lo: nat, p: nat, a: nat, stop: nat, i: nat,
                            len: nat)
    requires RequestInHunk(h, i, lo, p, a, stop) && p <= |pages| && i < |c.offset| && stop + len < U64
    ensures Sound(Moved(AfterReads(c, h, pages, lo, p, a, stop), len), h, size)
       <==> RequestKeeps(c, h, size, FirstUnmapped(pages, lo, p), LastUnmapped(pages, lo, p), a, stop, i, len)
  {
    ReadsInHunk(c, h, pages, lo, p, a, stop, i);
    var last := LastUnmapped(pages, lo, p);
    if last.Some? { SmallOffset(h, last.value, p, a, stop); }
    LeftAtKeeps(c, AfterReads(c, h, pages, lo, p, a, stop), h, size, FirstUnmapped(pages, lo, p),
                LastUnmapped(pages, lo, p), a, stop, i, len);
  }

  lemma SmallOffset(h: nat, q: nat, p: nat, a: nat, stop: nat)
    requires h > 0 && q < p && (p - 1) * PAGE < stop && a < stop
    ensures PartStart(q, a) % h < stop
  {
    ResidueSmall(h, PartStart(q, a));
  }

  lemma LeftAtKeeps(c: Cache, d: Cache, h: nat, size: nat, first: Option<nat>, last: Option<nat>, a: nat, stop: nat,
                    i: nat, len: nat)
    requires h > 0 && i < |c.offset| && LeftAt(c, d, h, first, last, a, stop, i)
    requires last.Some? ==> PartStart(last.value, a) % h + len < U64
    ensures Sound(Moved(d, len), h, size) <==> RequestKeeps(c, h, size, first, last, a, stop, i, len)
  {
    if last.Some? {
      KeptExactly(c, h, size, i, PartStart(last.value, a) % h, FileEnd(c, h, i, first, last, a, stop), len);
    }
  }

  /** A request that crosses from hunk i to the next at page b is two requests, as far as the cache goes. */
  lemma {:induction false} ReadsSplit(c: Cache, h: nat, pages: seq<nat>, lo: nat, b: nat, p: nat, a: nat, stop: nat)
    requires h > 0 && lo <= b <= p <= |pages| && a <= b * PAGE
    ensures AfterReads(c, h, pages, lo, p, a, stop)
         == AfterReads(AfterReads(c, h, pages, lo, b, a, stop), h, pages, b, p, b * PAGE, stop)
    decreases p
  {
    if p > b { ReadsSplit(c, h, pages, lo, b, p - 1, a, stop); }
  }

  lemma {:induction false} ReadsCut(c: Cache, h: nat, pages: seq<nat>, lo: nat, p: nat, a: nat, stop: nat, stop': nat)
    requires h > 0 && lo <= p <= |pages| && p * PAGE <= stop && p * PAGE <= stop'
    ensures AfterReads(c, h, pages, lo, p, a, stop) == AfterReads(c, h, pages, lo, p, a, stop')
    decreases p
  {
    if p > lo { ReadsCut(c, h, pages, lo, p - 1, a, stop, stop'); }
  }

  /** For a request that crosses from hunk i to the next at page b: what counts is the last base read in the second
      hunk, with file i where the base reads in the first one leave it; without one there, it is as if the request
      ended at b. */
  predicate AcrossKeeps(c: Cache, h: nat, size: nat, first: Option<nat>, last: Option<nat>, first': Option<nat>,
                        last': Option<nat>, a: nat, b: nat, stop: nat, i: nat, len: nat)
    requires h > 0 && i + 1 < |c.offset|
  {
    match last'
    case None => RequestKeeps(c, h, size, first, last, a, b * PAGE, i, len)
    case Some(q) =>
      var x := PartStart(q, b * PAGE);
      var from := if first.None? && first' == last' then Position(c, h, x) else x % h;
      Kept(Cache(c.point, c.offset[i := FileEnd(c, h, i, first, last, a, b * PAGE)]), h, size, i + 1, x % h,
           from + PartLength(q, b * PAGE, stop), len)
  }

  lemma AcrossHunksKeepsExactly(c: Cache, h: nat, size: nat, pages: seq<nat>, lo: nat, b: nat, p: nat, a: nat, stop: nat,
                                i: nat, len: nat)
    requires lo < b < p <= |pages| && i + 1 < |c.offset| && stop + len < U64 && (p + 1 - lo) * PAGE <= h
    requires RequestInHunk(h, i, lo, b, a, b * PAGE) && RequestInHunk(h, i + 1, b, p, b * PAGE, stop)
    ensures Sound(Moved(AfterReads(c, h, pages, lo, p, a, stop), len), h, size)
       <==> AcrossKeeps(c, h, size, FirstUnmapped(pages, lo, b), LastUnmapped(pages, lo, b), FirstUnmapped(pages, b, p),
                        LastUnmapped(pages, b, p), a, b, stop, i, len)
  {
    var d := AfterReads(c, h, pages, lo, b, a, b * PAGE);
    var first, last := FirstUnmapped(pages, lo, b), LastUnmapped(pages, lo, b);
    var first', last' := FirstUnmapped(pages, b, p), LastUnmapped(pages, b, p);
    ReadsSplit(c, h, pages, lo, b, p, a, stop);
    ReadsCut(c, h, pages, lo, b, a, stop, b * PAGE);
    ReadsInHunk(c, h, pages, lo, b, a, b * PAGE, i);
    PointSoFar(c, h, pages, lo, b, a, b * PAGE);
    RequestKeepsExactly(d, h, size, pages, b, p, b * PAGE, stop, i + 1, len);
    if last'.None? {
      NothingRead(d, h, pages, b, p, b * PAGE, stop);
      RequestKeepsExactly(c, h, size, pages, lo, b, a, b * PAGE, i, len);
    } else {
      if last.Some? {
        OtherResidue(h, PartStart(last.value, a), PartStart(last'.value, b * PAGE), lo, last.value, last'.value, a);
      }
      SecondHunk(c, d, h, size, first, last, first', last', a, b, stop, i, len);
    }
  }

  lemma NothingRead(c: Cache, h: nat, pages: seq<nat>, lo: nat, p: nat, a: nat, stop: nat)
    requires h > 0 && lo <= p <= |pages| && LastUnmapped(pages, lo, p).None?
    ensures AfterReads(c, h, pages, lo, p, a, stop) == c
  {
    PointSoFar(c, h, pages, lo, p, a, stop);
  }

  lemma SecondHunk(c: Cache, d: Cache, h: nat, size: nat, first: Option<nat>, last: Option<nat>, first': Option<nat>,
                   last': Option<nat>, a: nat, b: nat, stop: nat, i: nat, len: nat)
    requires h > 0 && i + 1 < |c.offset| && LeftAt(c, d, h, first, last, a, b * PAGE, i)
    requires last'.Some? && (first.None? <==> last.None?)
    requires last.Some? ==> PartStart(last.value, a) % h != PartStart(last'.value, b * PAGE) % h
    ensures RequestKeeps(d, h, size, first', last', b * PAGE, stop, i + 1, len)
       <==> AcrossKeeps(c, h, size, first, last, first', last', a, b, stop, i, len)
  {
    var moved := Cache(c.point, c.offset[i := FileEnd(c, h, i, first, last, a, b * PAGE)]);
    var x := PartStart(last'.value, b * PAGE);
    assert d.offset == moved.offset;
    assert first' == last' && last.Some? ==> Position(d, h, x) == x % h;
    SameOthers(d, moved, h, size, i + 1, x % h + len);
  }

  lemma SameOthers(c: Cache, d: Cache, h: nat, size: nat, i: nat, point: nat)
    requires c.offset == d.offset
    ensures OthersStand(c, h, size, i, point) <==> OthersStand(d, h, size, i, point)
  {
  }

  /** The image on which a write that sees w instead of v has got to page p. */
  function Upto(v: seq<Option<byte>>, w: seq<Option<byte>>, first: Option<nat>, p: nat): seq<Option<byte>> {
    if first.Some? && first.value < p then w else v
  }

  /** One step of a write: the page to copy is seen as the whole write sees it, and what it makes of the image so far is
      what it would make of the image that the whole write sees. */
  lemma SeenByStep(v: seq<Option<byte>>, w: seq<Option<byte>>, base: seq<seq<byte>>, h: nat, c: Cache, d: Cache,
                   pages: seq<nat>, lo: nat, p: nat, hi: nat, a: nat, done: seq<byte>, cur: seq<Option<byte>>)
    requires 0 < h && lo <= p <= hi < |pages| && (hi + 1 - lo) * PAGE <= h && hi * PAGE + PAGE <= |v|
    requires pages[p] == NO_PAGE ==> ShowsBase(v, base, h, p * PAGE, PAGE)
    requires w == SeenFrom(v, base, h, c, FirstUnmapped(pages, lo, hi + 1), lo * PAGE, hi * PAGE + PAGE)
    requires d == AfterReads(c, h, pages, lo, p, lo * PAGE, hi * PAGE + PAGE)
    requires (done == [] || a + |done| <= p * PAGE) && a + |done| <= |v|
    requires cur == Overwrite(Upto(v, w, FirstUnmapped(pages, lo, hi + 1), p), a, done)
    ensures var now := if pages[p] == NO_PAGE then Seen(cur, base, h, d, p * PAGE, PAGE) else cur;
            && now == Overwrite(Upto(v, w, FirstUnmapped(pages, lo, hi + 1), p + 1), a, done)
            && Agree(now, w, p * PAGE, PAGE)
  {
    var first := FirstUnmapped(pages, lo, hi + 1);
    var now := if pages[p] == NO_PAGE then Seen(cur, base, h, d, p * PAGE, PAGE) else cur;
    StepSeen(v, w, base, h, c, d, pages, lo, p, hi);
    FirstBefore(pages, lo, p, hi + 1);
    SeenOutside(v, w, base, h, c, first, lo, hi);
    forall y | 0 <= y < |v|
      ensures now[y] == Overwrite(Upto(v, w, first, p + 1), a, done)[y]
      ensures p * PAGE <= y < p * PAGE + PAGE ==> now[y] == w[y]
    {
      if p * PAGE <= y < p * PAGE + PAGE { SamePage(p, y); }
    }
  }

  lemma StepSeen(v: seq<Option<byte>>, w: seq<Option<byte>>, base: seq<seq<byte>>, h: nat, c: Cache, d: Cache,
                 pages: seq<nat>, lo: nat, p: nat, hi: nat)
    requires 0 < h && lo <= p <= hi < |pages| && (hi + 1 - lo) * PAGE <= h && hi * PAGE + PAGE <= |v|
    requires pages[p] == NO_PAGE ==> ShowsBase(v, base, h, p * PAGE, PAGE)
    requires w == SeenFrom(v, base, h, c, FirstUnmapped(pages, lo, hi + 1), lo * PAGE, hi * PAGE + PAGE)
    requires d == AfterReads(c, h, pages, lo, p, lo * PAGE, hi * PAGE + PAGE)
    ensures Agree(w, if pages[p] == NO_PAGE then Seen(v, base, h, d, p * PAGE, PAGE) else v, p * PAGE, PAGE)
  {
    StepPart(lo, p, hi);
    SeenInRequest(v, base, h, c, pages, lo, p, hi, lo * PAGE, hi * PAGE + PAGE);
  }

  lemma StepPart(lo: nat, p: nat, hi: nat)
    requires lo <= p <= hi
    ensures PartStart(p, lo * PAGE) == p * PAGE && PartLength(p, lo * PAGE, hi * PAGE + PAGE) == PAGE
  {
  }

  lemma SamePage(p: nat, y: nat)
    requires p * PAGE <= y < p * PAGE + PAGE
    ensures y / PAGE == p
  {
  }

  /** A write sees the image as it is outside the first page that it copies. */
  lemma SeenOutside(v: seq<Option<byte>>, w: seq<Option<byte>>, base: seq<seq<byte>>, h: nat, c: Cache,
                    first: Option<nat>, lo: nat, hi: nat)
    requires h > 0 && (first.Some? ==> lo <= first.value <= hi)
    requires w == SeenFrom(v, base, h, c, first, lo * PAGE, hi * PAGE + PAGE)
    ensures |w| == |v| && forall y :: 0 <= y < |v| && !(first.Some? && y / PAGE == first.value) ==> w[y] == v[y]
  {
    if first.Some? { StepPart(lo, first.value, hi); }
  }

  /** A page that is lost on the way is lost from the image that the whole write sees. */
  lemma LostOnTheWay(v: seq<Option<byte>>, w: seq<Option<byte>>, base: seq<seq<byte>>, h: nat, c: Cache,
                     first: Option<nat>, lo: nat, p: nat, hi: nat, a: nat, done: seq<byte>, t: seq<Option<byte>>)
    requires h > 0 && lo <= p <= hi && (first.Some? ==> lo <= first.value <= p) && a + |done| <= |v|
    requires w == SeenFrom(v, base, h, c, first, lo * PAGE, hi * PAGE + PAGE)
    requires IsLost(Overwrite(Upto(v, w, first, p), a, done), t, p)
    ensures IsLost(Overwrite(w, a, done), t, p)
  {
    SeenOutside(v, w, base, h, c, first, lo, hi);
  }
}
