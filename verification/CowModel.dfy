/** Copy-on-write requests on values: what a write makes, page by page, of the image, the page map and the cache, and what
    that comes to for the whole request. */
module CowModel {
  import opened Arithmetic
  import opened Files
  import opened Overlay
  import opened SeekCache
  import opened Wrappers

  /** The export as clients see it, the page map, the next free slot of the diff file, and the cache. */
  datatype Snapshot = Snapshot(image: seq<Option<byte>>, pages: seq<nat>, next: nat, cache: Cache)

  /** The image that the overwriting of a part of page p starts from: the page itself, or what a copy of it reads. */
  ghost function Ground(s: Snapshot, base: seq<seq<byte>>, h: nat, p: nat): (w: seq<Option<byte>>)
    requires h > 0 && p < |s.pages|
    ensures |w| == |s.image|
  {
    if s.pages[p] == NO_PAGE then Seen(s.image, base, h, s.cache, p * PAGE, PAGE) else s.image
  }

  /** The page is in the diff file or can be copied. */
  ghost predicate Copies(s: Snapshot, base: seq<seq<byte>>, h: nat, p: nat)
    requires h > 0 && p < |s.pages| && |s.pages| * PAGE == |s.image|
  {
    s.pages[p] != NO_PAGE || Present(Ground(s, base, h, p), p * PAGE, PAGE)
  }

  /** What the write of a piece at an address in page p makes of it all. */
  ghost function PageOn(s: Snapshot, ground: seq<Option<byte>>, h: nat, p: nat, at: nat, piece: seq<byte>): (t: Snapshot)
    requires h > 0 && p < |s.pages| && at + |piece| <= |ground|
  {
    if s.pages[p] == NO_PAGE then
      Snapshot(Overwrite(ground, at, piece), s.pages[p := s.next], s.next + 1, AfterRead(s.cache, h, p * PAGE, PAGE))
    else s.(image := Overwrite(ground, at, piece))
  }

  ghost function PageWritten(s: Snapshot, base: seq<seq<byte>>, h: nat, p: nat, at: nat, piece: seq<byte>): (t: Snapshot)
    requires h > 0 && p < |s.pages| && at + |piece| <= |s.image|
  {
    PageOn(s, Ground(s, base, h, p), h, p, at, piece)
  }

  lemma IsPageOn(s: Snapshot, t: Snapshot, ground: seq<Option<byte>>, h: nat, p: nat, at: nat, piece: seq<byte>)
    requires h > 0 && p < |s.pages| && at + |piece| <= |ground| && t.image == Overwrite(ground, at, piece)
    requires t.pages == (if s.pages[p] == NO_PAGE then s.pages[p := s.next] else s.pages)
    requires t.next == s.next + (if s.pages[p] == NO_PAGE then 1 else 0)
    requires t.cache == (if s.pages[p] == NO_PAGE then AfterRead(s.cache, h, p * PAGE, PAGE) else s.cache)
    ensures PageOn(s, ground, h, p, at, piece) == t
  {
  }

  lemma WriteOn(u: seq<Option<byte>>, a: nat, done: seq<byte>, piece: seq<byte>, done': seq<byte>,
                ground: seq<Option<byte>>)
    requires a + |done| + |piece| <= |u| && done' == done + piece && ground == Overwrite(u, a, done)
    ensures Overwrite(ground, a + |done|, piece) == Overwrite(u, a, done')
  {
    OverwriteJoin(u, a, done, piece);
  }

  lemma Associative(a: seq<byte>, b: seq<byte>, c: seq<byte>)
    ensures a + b + c == a + (b + c)
  {
  }

  /** A write of data at address a to pages lo..hi of an export of hunk files of size h. */
  datatype WriteJob = WriteJob(base: seq<seq<byte>>, h: nat, start: Snapshot, lo: nat, hi: nat, a: nat, data: seq<byte>) {

    predicate Sized() {
      && lo <= hi < |start.pages| && |start.pages| * PAGE == |start.image| && 0 < h && (hi + 1 - lo) * PAGE <= h
      && lo * PAGE <= a < lo * PAGE + PAGE && hi * PAGE < a + |data| <= hi * PAGE + PAGE && data != []
    }

    /** The part of the data that goes before page p. */
    predicate IsDone(p: nat, done: seq<byte>)
      requires Sized()
    {
      a + |done| == if p <= lo then a else if p <= hi then p * PAGE else a + |data|
    }

    lemma DoneGrows(p: nat, done: seq<byte>)
      requires Sized() && lo <= p <= hi && IsDone(p, done)
      ensures |done| < |data| && p * PAGE <= a + |done| < p * PAGE + PAGE && a + |data| <= |start.image|
      ensures p < hi ==> p * PAGE + PAGE < a + |data|
      ensures p == hi ==> a + |data| <= p * PAGE + PAGE
      ensures done == [] || a + |done| == p * PAGE
    {
      assert hi * PAGE + PAGE <= |start.pages| * PAGE;
      assert p < hi ==> p * PAGE + PAGE <= hi * PAGE;
    }

    ghost function First(): Option<nat>
      requires Sized()
    {
      FirstUnmapped(start.pages, lo, hi + 1)
    }

    /** The image as the write sees it: as it is, but that the first page to copy has the bytes that its base file has at
        the position used. */
    ghost function SeenImage(): (w: seq<Option<byte>>)
      requires Sized()
      ensures |w| == |start.image|
    {
      SeenFrom(start.image, base, h, start.cache, First(), lo * PAGE, hi * PAGE + PAGE)
    }

    ghost function CacheAfter(p: nat): Cache
      requires Sized() && lo <= p <= hi + 1
    {
      AfterReads(start.cache, h, start.pages, lo, p, lo * PAGE, hi * PAGE + PAGE)
    }

    /** The server when page p is next: done is written on the image that the write sees, once it has got to the first
        page that it copies, and new pages have the next slots of the diff file in order. */
    ghost function At(p: nat, done: seq<byte>): (s: Snapshot)
      requires Sized() && lo <= p <= hi + 1 && a + |done| <= |start.image|
      ensures |s.image| == |start.image| && |s.pages| == |start.pages|
    {
      Snapshot(Overwrite(Upto(start.image, SeenImage(), First(), p), a, done), Allocate(start.pages, lo, p, start.next),
               start.next + FreshPages(start.pages, lo, p), CacheAfter(p))
    }

    /** Page p shows its base file unless it is in the diff file. */
    ghost predicate BaseShown(v: seq<Option<byte>>, p: nat)
      requires Sized() && p <= hi
    {
      start.pages[p] == NO_PAGE ==> ShowsBase(v, base, h, p * PAGE, PAGE)
    }

    /** A page that is still to come is as the write found it. */
    lemma StillShown(p: nat, done: seq<byte>)
      requires Sized() && lo <= p <= hi && a + |done| <= |start.image| && (done == [] || a + |done| <= p * PAGE)
      requires BaseShown(At(p, done).image, p)
      ensures BaseShown(start.image, p)
    {
      SeenOutside(start.image, SeenImage(), base, h, start.cache, First(), lo, hi);
      FirstBefore(start.pages, lo, p, hi + 1);
      var v := At(p, done).image;
      forall y | p * PAGE <= y < p * PAGE + PAGE && y < |v| ensures v[y] == start.image[y] {
        SamePage(p, y);
      }
    }

    /** What page p starts from is what the whole write sees, with what is done by then. */
    lemma GroundIs(p: nat, done: seq<byte>)
      requires Sized() && lo <= p <= hi && a + |done| <= |start.image| && (done == [] || a + |done| <= p * PAGE)
      requires BaseShown(start.image, p)
      ensures At(p, done).pages[p] == start.pages[p]
      ensures Ground(At(p, done), base, h, p) == Overwrite(Upto(start.image, SeenImage(), First(), p + 1), a, done)
      ensures Agree(Ground(At(p, done), base, h, p), SeenImage(), p * PAGE, PAGE)
    {
      InImage(p);
      SeenByStep(start.image, SeenImage(), base, h, start.cache, CacheAfter(p), start.pages, lo, p, hi, a, done,
                 At(p, done).image);
    }

    lemma InImage(p: nat)
      requires Sized() && lo <= p <= hi
      ensures p * PAGE + PAGE <= hi * PAGE + PAGE <= |start.image|
    {
    }

    lemma Step(p: nat, done: seq<byte>, piece: seq<byte>, done': seq<byte>, ground: seq<Option<byte>>)
      requires Sized() && lo <= p <= hi && a + |done| + |piece| <= |start.image| && done' == done + piece
      requires ground == Overwrite(Upto(start.image, SeenImage(), First(), p + 1), a, done)
      ensures PageOn(At(p, done), ground, h, p, a + |done|, piece) == At(p + 1, done')
    {
      StepMap(p, done, done');
      WriteOn(Upto(start.image, SeenImage(), First(), p + 1), a, done, piece, done', ground);
      IsPageOn(At(p, done), At(p + 1, done'), ground, h, p, a + |done|, piece);
    }

    /** One page further. */
    lemma Next(p: nat, done: seq<byte>, piece: seq<byte>, rest: seq<byte>)
      requires Sized() && lo <= p <= hi && BaseShown(start.image, p) && IsDone(p, done) && done + piece + rest == data
      requires |piece| == Min(|data| - |done|, p * PAGE + PAGE - (a + |done|))
      ensures a + |done| + |piece| <= |start.image| && IsDone(p + 1, done + piece)
      ensures PageWritten(At(p, done), base, h, p, a + |done|, piece) == At(p + 1, done + piece)
    {
      DoneGrows(p, done);
      GroundIs(p, done);
      Step(p, done, piece, done + piece, Ground(At(p, done), base, h, p));
    }

    /** The server s is where the loop of the write should be when page p is next, with buf still to be written to at. The
        quantifier keeps this from being unfolded where it is only passed on. */
    ghost predicate Tracks(s: Snapshot, p: nat, at: nat, buf: seq<byte>, done: seq<byte>) {
      forall k: nat :: TracksNow(s, p, at, buf, done, k)
    }

    ghost predicate TracksNow(s: Snapshot, p: nat, at: nat, buf: seq<byte>, done: seq<byte>, k: nat) {
      && Sized() && lo <= p <= hi + 1 && IsDone(p, done) && done + buf == data && at == a + |done| <= |start.image|
      && s == At(p, done) && SucceedsTo(p)
    }

    lemma Starts()
      requires Sized()
      ensures Tracks(start, lo, a, data, [])
    {
      DoneGrows(lo, []);
      assert Overwrite(start.image, a, []) == start.image && [] + data == data;
      Track(start, lo, a, data, []);
    }

    lemma Place(s: Snapshot, p: nat, at: nat, buf: seq<byte>, done: seq<byte>)
      requires Tracks(s, p, at, buf, done) && p <= hi
      ensures p * PAGE <= at < p * PAGE + PAGE && p < |s.pages| == |start.pages| && s.pages[p] == start.pages[p]
      ensures h > 0 && |s.pages| * PAGE == |s.image|
    {
      assert TracksNow(s, p, at, buf, done, 0);
      DoneGrows(p, done);
      StepMap(p, done, done);
    }

    /** One page of the loop, from the server before to the server after: either way it is where the model says. */
    lemma Judge(before: Snapshot, p: nat, at: nat, buf: seq<byte>, done: seq<byte>, piece: seq<byte>, rest: seq<byte>,
                ok: bool, after: Snapshot)
      requires Tracks(before, p, at, buf, done) && Sized() && lo <= p <= hi && piece + rest == buf
      requires |piece| == Min(|buf|, p * PAGE + PAGE - at) && at + |piece| <= |before.image|
      requires p < |before.pages| && |before.pages| * PAGE == |before.image| && BaseShown(before.image, p)
      requires ok <==> Copies(before, base, h, p)
      requires ok ==> after == PageWritten(before, base, h, p, at, piece)
      requires !ok ==> IsLost(before.image, after.image, p)
      ensures ok ==> Tracks(after, p + 1, at + |piece|, rest, done + piece)
      ensures !ok ==> FailedAt(after.image, p, done) && !Succeeds()
    {
      if ok {
        Goes(before, p, at, buf, done, piece, rest, after);
      } else {
        Stops(before, p, at, buf, done, piece, rest, after);
      }
    }

    lemma Goes(before: Snapshot, p: nat, at: nat, buf: seq<byte>, done: seq<byte>, piece: seq<byte>, rest: seq<byte>,
               after: Snapshot)
      requires Tracks(before, p, at, buf, done) && Sized() && lo <= p <= hi && piece + rest == buf
      requires |piece| == Min(|buf|, p * PAGE + PAGE - at) && at + |piece| <= |before.image|
      requires p < |before.pages| && |before.pages| * PAGE == |before.image| && BaseShown(before.image, p)
      requires Copies(before, base, h, p) && after == PageWritten(before, base, h, p, at, piece)
      ensures Tracks(after, p + 1, at + |piece|, rest, done + piece)
    {
      assert TracksNow(before, p, at, buf, done, 0);
      Associative(done, piece, rest);
      JudgeAt(p, done, before, at, piece, rest, true, after);
      Track(after, p + 1, at + |piece|, rest, done + piece);
    }

    lemma Stops(before: Snapshot, p: nat, at: nat, buf: seq<byte>, done: seq<byte>, piece: seq<byte>, rest: seq<byte>,
                after: Snapshot)
      requires Tracks(before, p, at, buf, done) && Sized() && lo <= p <= hi && piece + rest == buf
      requires |piece| == Min(|buf|, p * PAGE + PAGE - at) && at + |piece| <= |before.image|
      requires p < |before.pages| && |before.pages| * PAGE == |before.image| && BaseShown(before.image, p)
      requires !Copies(before, base, h, p) && IsLost(before.image, after.image, p)
      ensures FailedAt(after.image, p, done) && !Succeeds()
    {
      assert TracksNow(before, p, at, buf, done, 0);
      Associative(done, piece, rest);
      JudgeAt(p, done, before, at, piece, rest, false, after);
      Fails(after.image, p, done, buf);
    }

    lemma JudgeAt(p: nat, done: seq<byte>, before: Snapshot, at: nat, piece: seq<byte>, rest: seq<byte>, ok: bool,
                  after: Snapshot)
      requires Sized() && lo <= p <= hi && IsDone(p, done) && done + piece + rest == data && SucceedsTo(p)
      requires at == a + |done| && |piece| == Min(|piece + rest|, p * PAGE + PAGE - at)
      requires at + |piece| <= |start.image| && before == At(p, done)
      requires BaseShown(before.image, p)
      requires ok <==> Copies(before, base, h, p)
      requires ok ==> after == PageWritten(before, base, h, p, at, piece)
      ensures BaseShown(start.image, p)
      ensures ok ==> IsDone(p + 1, done + piece) && after == At(p + 1, done + piece) && SucceedsTo(p + 1)
      ensures !ok ==> !Succeeds()
    {
      DoneGrows(p, done);
      StillShown(p, done);
      CopiedTo(p, done);
      if ok { Next(p, done, piece, rest); }
    }

    lemma Track(s: Snapshot, p: nat, at: nat, buf: seq<byte>, done: seq<byte>)
      requires Sized() && lo <= p <= hi + 1 && IsDone(p, done) && done + buf == data && at == a + |done| <= |start.image|
      requires s == At(p, done) && SucceedsTo(p)
      ensures Tracks(s, p, at, buf, done)
    {
      forall k: nat ensures TracksNow(s, p, at, buf, done, k) {
      }
    }

    lemma StepMap(p: nat, done: seq<byte>, done': seq<byte>)
      requires Sized() && lo <= p <= hi && a + |done| <= |start.image| && a + |done'| <= |start.image|
      ensures var s, t := At(p, done), At(p + 1, done');
              && s.pages[p] == start.pages[p]
              && t.pages == (if s.pages[p] == NO_PAGE then s.pages[p := s.next] else s.pages)
              && t.next == s.next + (if s.pages[p] == NO_PAGE then 1 else 0)
              && t.cache == (if s.pages[p] == NO_PAGE then AfterRead(s.cache, h, p * PAGE, PAGE) else s.cache)
    {
      AllocateStep(start.pages, lo, p, start.next);
      AfterCopy(start.cache, h, start.pages, lo, p, hi);
    }

    lemma CopiesExactly(p: nat, done: seq<byte>)
      requires Sized() && lo <= p <= hi && BaseShown(start.image, p)
      requires a + |done| <= |start.image| && (done == [] || a + |done| <= p * PAGE)
      ensures Copies(At(p, done), base, h, p) <==> start.pages[p] != NO_PAGE || Present(SeenImage(), p * PAGE, PAGE)
    {
      GroundIs(p, done);
      InImage(p);
      AgreeShow(Ground(At(p, done), base, h, p), SeenImage(), p * PAGE, PAGE, []);
    }

    /** The whole write. */
    ghost function End(): Snapshot
      requires Sized() && a + |data| <= |start.image|
    {
      Snapshot(Overwrite(SeenImage(), a, data), Allocate(start.pages, lo, hi + 1, start.next),
               start.next + FreshPages(start.pages, lo, hi + 1), CacheAfter(hi + 1))
    }

    lemma Ends(s: Snapshot, at: nat, buf: seq<byte>, done: seq<byte>)
      requires Tracks(s, hi + 1, at, buf, done)
      ensures Sized() && a + |data| <= |start.image| && s == End() && Succeeds()
    {
      assert TracksNow(s, hi + 1, at, buf, done, 0);
      assert done == data;
    }

    /** The write succeeds when every page that it touches is in the diff file or can be copied. */
    ghost predicate Succeeds()
      requires Sized()
    {
      SucceedsTo(hi + 1)
    }

    ghost predicate SucceedsTo(p: nat)
      requires Sized() && p <= hi + 1
    {
      Copyable(SeenImage(), start.pages, lo, p)
    }

    lemma CopiedTo(p: nat, done: seq<byte>)
      requires Sized() && lo <= p <= hi && BaseShown(start.image, p) && IsDone(p, done)
      requires a + |done| <= |start.image| && SucceedsTo(p)
      ensures Copies(At(p, done), base, h, p) <==> SucceedsTo(p + 1)
      ensures !Copies(At(p, done), base, h, p) ==> !Succeeds()
    {
      DoneGrows(p, done);
      CopiesExactly(p, done);
    }

    /** The write has stopped at page p, which could not be copied: what goes before it is written, and the page is lost
        with all that could be read of it. */
    ghost predicate FailedAt(v: seq<Option<byte>>, p: nat, done: seq<byte>)
      requires Sized()
    {
      && lo <= p <= hi && IsDone(p, done) && done <= data
      && start.pages[p] == NO_PAGE && !Present(SeenImage(), p * PAGE, PAGE)
      && a + |done| <= |start.image| && IsLost(Overwrite(SeenImage(), a, done), v, p)
    }

    lemma Fails(v: seq<Option<byte>>, p: nat, done: seq<byte>, rest: seq<byte>)
      requires Sized() && lo <= p <= hi && BaseShown(start.image, p) && IsDone(p, done)
      requires done + rest == data && a + |done| <= |start.image|
      requires !Copies(At(p, done), base, h, p) && IsLost(At(p, done).image, v, p)
      ensures FailedAt(v, p, done)
    {
      DoneGrows(p, done);
      CopiesExactly(p, done);
      LostAt(v, p, done);
    }

    lemma LostAt(v: seq<Option<byte>>, p: nat, done: seq<byte>)
      requires Sized() && lo <= p <= hi && a + |done| <= |start.image| && start.pages[p] == NO_PAGE
      requires IsLost(At(p, done).image, v, p)
      ensures IsLost(Overwrite(SeenImage(), a, done), v, p)
    {
      FirstBefore(start.pages, lo, p, hi + 1);
      LostOnTheWay(start.image, SeenImage(), base, h, start.cache, First(), lo, p, hi, a, done, v);
    }
  }

  /** A read of the bytes from a to stop in pages lo..hi. */
  datatype ReadJob = ReadJob(base: seq<seq<byte>>, h: nat, start: Snapshot, lo: nat, hi: nat, a: nat, stop: nat) {

    predicate Sized() {
      && lo <= hi < |start.pages| && |start.pages| * PAGE == |start.image| && 0 < h && (hi + 1 - lo) * PAGE <= h
      && lo * PAGE <= a < lo * PAGE + PAGE && hi * PAGE < stop <= hi * PAGE + PAGE && a < stop
    }

    /** Page p shows its base file unless it is in the diff file. */
    ghost predicate BaseShown(p: nat)
      requires Sized() && p <= hi
    {
      start.pages[p] == NO_PAGE ==> ShowsBase(start.image, base, h, p * PAGE, PAGE)
    }

    ghost function First(): Option<nat>
      requires Sized()
    {
      FirstUnmapped(start.pages, lo, hi + 1)
    }

    /** The image as the read sees it: as it is, but that the first part that comes from the base has the bytes that its
        base file has at the position used. */
    ghost function SeenImage(): (w: seq<Option<byte>>)
      requires Sized()
      ensures |w| == |start.image|
    {
      SeenFrom(start.image, base, h, start.cache, First(), a, stop)
    }

    ghost function CacheAfter(p: nat): Cache
      requires Sized() && lo <= p <= hi + 1
    {
      AfterReads(start.cache, h, start.pages, lo, p, a, stop)
    }

    /** What the read of the part of page p sees. */
    ghost function PartSeen(p: nat): (w: seq<Option<byte>>)
      requires Sized() && lo <= p <= hi
      ensures |w| == |start.image|
    {
      SeenPart(start.image, base, h, CacheAfter(p), start.pages, p, a, stop)
    }

    /** Each part is seen as the whole read sees it. */
    lemma PartIs(p: nat)
      requires Sized() && lo <= p <= hi && BaseShown(p)
      ensures Agree(SeenImage(), PartSeen(p), PartStart(p, a), PartLength(p, a, stop))
    {
      PartFromBase(p);
      PartSeenIs(p);
    }

    lemma PartSeenIs(p: nat)
      requires Sized() && lo <= p <= hi
      requires start.pages[p] == NO_PAGE ==> ShowsBase(start.image, base, h, PartStart(p, a), PartLength(p, a, stop))
      ensures Agree(SeenImage(), PartSeen(p), PartStart(p, a), PartLength(p, a, stop))
    {
      PartsFit(p);
      SeenInRequest(start.image, base, h, start.cache, start.pages, lo, p, hi, a, stop);
    }

    /** One page further. */
    lemma Next(p: nat, data: seq<byte>, piece: seq<byte>)
      requires Sized() && lo <= p <= hi && BaseShown(p) && a + |data| == PartStart(p, a) && Shows(SeenImage(), a, data)
      ensures var x, n := PartStart(p, a), PartLength(p, a, stop);
              && x + n <= |PartSeen(p)| == |SeenImage()| && stop <= |SeenImage()|
              && (|piece| == n && Shows(PartSeen(p), x, piece) ==> Shows(SeenImage(), a, data + piece))
              && (!Present(PartSeen(p), x, n) ==> !Present(SeenImage(), a, stop - a))
              && CacheAfter(p + 1)
                 == (if start.pages[p] == NO_PAGE then AfterRead(CacheAfter(p), h, x, n) else CacheAfter(p))
    {
      PartsFit(p);
      PartIs(p);
      var x, n := PartStart(p, a), PartLength(p, a, stop);
      AgreeShow(SeenImage(), PartSeen(p), x, n, piece);
      if |piece| == n && Shows(PartSeen(p), x, piece) { ShowsJoin(SeenImage(), a, data, x, piece); }
      AfterPart(start.cache, h, start.pages, lo, p, a, stop, x, n);
    }

    lemma Judge(p: nat, data: seq<byte>, at: nat, n: nat, piece: seq<byte>, ok: bool)
      requires Sized() && lo <= p <= hi && BaseShown(p) && a + |data| == PartStart(p, a) && Shows(SeenImage(), a, data)
      requires at == PartStart(p, a) && n == PartLength(p, a, stop) && at + n <= |PartSeen(p)|
      requires ok <==> Present(PartSeen(p), at, n)
      requires ok ==> |piece| == n && Shows(PartSeen(p), at, piece)
      ensures stop <= |SeenImage()|
      ensures ok ==> Shows(SeenImage(), a, data + piece)
      ensures ok ==> a + |data + piece| == if p < hi then PartStart(p + 1, a) else stop
      ensures !ok ==> !Present(SeenImage(), a, stop - a)
      ensures CacheAfter(p + 1) == if start.pages[p] == NO_PAGE then AfterRead(CacheAfter(p), h, at, n) else CacheAfter(p)
    {
      PartsFit(p);
      Next(p, data, piece);
    }

    lemma PartFromBase(p: nat)
      requires Sized() && lo <= p <= hi && BaseShown(p)
      ensures start.pages[p] == NO_PAGE ==> ShowsBase(start.image, base, h, PartStart(p, a), PartLength(p, a, stop))
    {
      PartsFit(p);
      if start.pages[p] == NO_PAGE {
        PartShowsBase(start.image, base, h, p * PAGE, PAGE, PartStart(p, a), PartLength(p, a, stop));
      }
    }

    lemma PartsFit(p: nat)
      requires Sized() && lo <= p <= hi
      ensures p * PAGE <= PartStart(p, a) < p * PAGE + PAGE && PartStart(p, a) == (if p == lo then a else p * PAGE)
      ensures 0 < PartLength(p, a, stop) == Min(stop - PartStart(p, a), p * PAGE + PAGE - PartStart(p, a))
      ensures PartStart(p, a) + PartLength(p, a, stop) <= stop <= |start.image|
      ensures p < hi ==> PartStart(p, a) + PartLength(p, a, stop) == PartStart(p + 1, a)
      ensures p == hi ==> PartStart(p, a) + PartLength(p, a, stop) == stop
    {
      assert hi * PAGE + PAGE <= |start.pages| * PAGE;
    }
  }
}
