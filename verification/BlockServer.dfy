/** The export side of the network block server: reads and writes of an export made of hunk files, through a
    cached file position that saves seeks and, when asked for, a copy-on-write overlay. */
module BlockServer {
  import opened Arithmetic
  import opened Files
  import opened Overlay
  import opened SeekCache
  import opened CowModel
  import opened Wrappers

  const GIGA := 1024 * 1024 * 1024

  datatype Status = Ok | Failed | Fatal   // Fatal: the process exits

  function HunkSize(multi: bool): (h: nat)
    ensures h > 0
  {
    if multi then GIGA else NO_POINT
  }

  /** How many files the loop in serveconnection opens. */
  function HunkCount(exportSize: nat, multi: bool): nat {
    (exportSize + HunkSize(multi) - 1) / HunkSize(multi)
  }

  class Server {
    const files: FileTable
    const exportSize: nat
    const hunkSize: nat
    const hunks: nat         // descriptors 0..hunks-1 are the hunks, descriptor hunks is the diff file
    const cow: bool
    const difmap: array<nat>

    var diffLen: nat         // difffilelen
    var lastPoint: nat
    var pageBuf: seq<byte>
    ghost var owner: seq<nat>

    ghost predicate Shape()
      reads files`contents
    {
      && hunkSize == HunkSize(hunkSize == GIGA)
      && 0 < exportSize < U64 / 2
      && hunks == HunkCount(exportSize, hunkSize == GIGA)
      && |files.contents| == hunks + (if cow then 1 else 0)
    }

    /** Copy on write is served for whole pages, up to 4 GB, with room for the diff file. */
    ghost predicate CowShape()
      reads files`contents, this`pageBuf
    {
      && Shape() && cow
      && exportSize % PAGE == 0 && exportSize <= U32
      && difmap.Length == exportSize / PAGE
      && |pageBuf| == PAGE
      && exportSize <= files.limit
    }

    ghost function Base(): seq<seq<byte>>
      requires hunks <= |files.contents|
      reads files`contents
    {
      files.contents[..hunks]
    }

    ghost function Diff(): seq<byte>
      requires hunks < |files.contents|
      reads files`contents
    {
      files.contents[hunks]
    }

    /** The page map, the slots and the diff file agree. */
    ghost predicate Consistent()
      reads this`pageBuf, this`owner, this`diffLen, files`contents, difmap
    {
      && CowShape()
      && Allocated(difmap[..], owner, Diff())
      && diffLen == |owner|
    }

    ghost predicate Valid()
      reads this, files, difmap
    {
      files.Valid() && Consistent()
    }

    /** The export as clients must see it. */
    ghost function View(): (v: seq<Option<byte>>)
      requires CowShape()
      reads this`pageBuf, files`contents, difmap
      ensures |v| == exportSize
    {
      Image(Base(), hunkSize, Diff(), difmap[..])
    }

    /** The cached position is safe to use for every address of the export. */
    ghost predicate CacheSound()
      reads this`lastPoint, files`offset
    {
      hunkSize > 0 && forall b :: 0 <= b < exportSize ==> SeekSafe(lastPoint, files.offset, hunkSize, b)
    }

    /** serveconnection: open the hunks, and for copy on write create the diff file and an empty page map. */
    constructor (files: FileTable, exportSize: nat, multi: bool, cow: bool)
      requires files.Valid() && 0 < exportSize < U64 / 2
      requires |files.contents| == HunkCount(exportSize, multi) + (if cow then 1 else 0)
      requires cow ==> files.contents[HunkCount(exportSize, multi)] == []
      ensures this.files == files && this.exportSize == exportSize && this.cow == cow
      ensures hunkSize == HunkSize(multi) && files.Valid() && Shape() && CacheSound() && fresh(difmap)
      ensures lastPoint == NO_POINT
      ensures hunkSize == if multi then 0x4000_0000 else 0xFFFF_FFFF_FFFF_FFFF
      ensures (hunks - 1) * hunkSize < exportSize <= hunks * hunkSize
      ensures cow ==> difmap.Length == exportSize / 4096 && forall p :: 0 <= p < difmap.Length ==> difmap[p] == NO_PAGE
      ensures cow && exportSize % 4096 == 0 && exportSize <= 0x1_0000_0000 && exportSize <= files.limit ==>
                Valid() && forall x :: 0 <= x < exportSize ==>
                  View()[x] == (if x % hunkSize < |files.contents[x / hunkSize]|
                                then Some(files.contents[x / hunkSize][x % hunkSize]) else None)
    {
      this.files, this.exportSize, this.cow := files, exportSize, cow;
      hunkSize := HunkSize(multi);
      hunks := HunkCount(exportSize, multi);
      difmap := new nat[if cow then exportSize / PAGE else 0](_ => NO_PAGE);
      diffLen, lastPoint := 0, NO_POINT;
      pageBuf := Zeros(PAGE);
      owner := [];
      new;
      forall b | 0 <= b < exportSize ensures SeekSafe(lastPoint, files.offset, hunkSize, b) {
        HunkOf(b);
      }
    }

    lemma HunkOf(a: nat)
      requires Shape() && a < exportSize
      ensures a / hunkSize < hunks
    {
    }

    /** export[a/hunksize], a%hunksize: seek there unless the cache says that the file already stands there. */
    method MaybeSeek(fd: nat, a: nat) returns (status: Status)
      requires files.Valid() && fd < |files.contents|
      modifies this`lastPoint, files`offset
      ensures files.Valid()
      ensures a > exportSize ==> status == Fatal && lastPoint == old(lastPoint) && files.offset == old(files.offset)
      ensures a <= exportSize ==> status == Ok && lastPoint == a
      ensures a <= exportSize ==>
        files.offset == if old(lastPoint) == a then old(files.offset) else old(files.offset)[fd := a]
    {
      if a > exportSize { return Fatal; }
      if lastPoint != a {
        files.Seek(fd, a);
        lastPoint := a;
      }
      status := Ok;
    }

    /** The cache as a value. */
    ghost function Seeks(): Cache
      requires hunks <= |files.offset|
      reads this`lastPoint, files`offset
    {
      Cache(lastPoint, files.offset[..hunks])
    }

    /** An address with an open hunk. */
    ghost predicate InHunks(a: nat)
      reads files
    {
      files.Valid() && hunkSize > 0 && a / hunkSize < hunks <= |files.contents| && a % hunkSize <= exportSize
    }

    /** Read at an address of one hunk. Right or stale, the bytes come from the position that the cache gives, and
        afterwards the cached position lags behind the file by what was read. */
    method RawRead(a: nat, len: nat) returns (status: Status, data: seq<byte>)
      requires InHunks(a)
      modifies this`lastPoint, files`offset
      ensures files.Valid() && data == ReadAt(files.contents[a / hunkSize], Position(old(Seeks()), hunkSize, a), len)
      ensures status == if |data| == len then Ok else Failed
      ensures Seeks() == AfterRead(old(Seeks()), hunkSize, a, |data|)
      ensures files.offset[hunks..] == old(files.offset[hunks..])
    {
      status := MaybeSeek(a / hunkSize, a % hunkSize);
      data := files.Read(a / hunkSize, len);
      status := if |data| != len then Failed else Ok;
    }

    method RawWrite(a: nat, data: seq<byte>) returns (status: Status)
      requires InHunks(a)
      modifies this`lastPoint, files
      ensures files.Valid()
      ensures var fd, at := a / hunkSize, Position(old(Seeks()), hunkSize, a);
              var n := Fitting(files.limit, at, |data|);
              && files.contents == old(files.contents)[fd := Splice(old(files.contents[fd]), at, data[..n])]
              && status == (if n == |data| then Ok else Failed)
              && Seeks() == AfterRead(old(Seeks()), hunkSize, a, n)
    {
      status := MaybeSeek(a / hunkSize, a % hunkSize);
      var n := files.Write(a / hunkSize, data);
      status := if n != |data| then Failed else Ok;
    }

    /** The cache in terms of the fields: an access is made where the file stands if the cached position is the offset
        of its address, else at that offset; the cached position is that offset then. */
    lemma CacheIs(a: nat, n: nat)
      requires InHunks(a)
      ensures Position(Seeks(), hunkSize, a)
           == if lastPoint == a % hunkSize then files.offset[a / hunkSize] else a % hunkSize
      ensures var at := if lastPoint == a % hunkSize then files.offset[a / hunkSize] else a % hunkSize;
              AfterRead(Seeks(), hunkSize, a, n) == Cache(a % hunkSize, files.offset[..hunks][a / hunkSize := at + n])
    {
    }

    lemma PageFacts(p: nat)
      requires CowShape() && p < difmap.Length
      ensures p * PAGE + PAGE <= exportSize
      ensures (p * PAGE) % hunkSize + PAGE <= hunkSize
      ensures (p * PAGE) / hunkSize < hunks
    {
      HunkOf(p * PAGE);
      PageInHunk(hunkSize, p);
    }

    /** Page and slot numbers times the page size, plus an offset, are computed in 32 bits. Below the size of the
        export that is exact. */
    method Offset32(s: nat, off: nat) returns (at: nat)
      requires CowShape() && s < difmap.Length && off < PAGE
      ensures at == s * PAGE + off
    {
      assert s * PAGE + PAGE <= exportSize;
      at := (s * PAGE + off) % U32;
    }

    lemma SlotOfPage(p: nat)
      requires Valid() && p < difmap.Length && difmap[p] != NO_PAGE
      ensures difmap[p] < difmap.Length && difmap[p] * PAGE + PAGE <= |Diff()| <= exportSize
    {
      SlotsFit(difmap[..], owner);
      assert difmap[..][p] < |owner|;
    }

    /** myseek to an offset in the slot of page p. */
    method SeekSlot(p: nat, off: nat)
      requires Valid() && p < difmap.Length && difmap[p] != NO_PAGE && off < PAGE
      modifies files`offset
      ensures files.Valid() && files.offset == old(files.offset)[hunks := difmap[p] * PAGE + off]
    {
      SlotOfPage(p);
      var at := Offset32(difmap[p], off);
      files.Seek(hunks, at);
    }

    /** The page is in the diff file: overwrite the piece there. */
    method WriteMapped(p: nat, off: nat, piece: seq<byte>) returns (ok: bool)
      requires Valid() && p < difmap.Length && off + |piece| <= PAGE && off < PAGE
      requires difmap[p] != NO_PAGE
      modifies files
      ensures Valid() && ok && Base() == old(Base())
      ensures View() == Overwrite(old(View()), p * PAGE + off, piece)
      ensures files.offset[..hunks] == old(files.offset)[..hunks]
    {
      ghost var base, diff, pages := Base(), Diff(), difmap[..];
      SlotOfPage(p);
      SeekSlot(p, off);
      var n := files.Write(hunks, piece);
      ok := n == |piece|;
      assert Diff() == Splice(diff, pages[p] * PAGE + off, piece) && Base() == base && difmap[..] == pages;
      MappedWriteImage(base, hunkSize, diff, pages, owner, p, off, piece);
    }

    /** What a copy of page p would read. */
    ghost function PageRead(p: nat): seq<byte>
      requires Valid() && p < difmap.Length
      reads this, files, difmap
    {
      ReadAt(FileAt(Base(), hunkSize, p * PAGE), Position(Seeks(), hunkSize, p * PAGE), PAGE)
    }

    /** Read page p of the base into the page buffer. The cut at the end of a hunk never applies. */
    method LoadPage(p: nat, pageStart: nat, ghost page: seq<byte>) returns (ok: bool)
      requires files.Valid() && CowShape() && p < difmap.Length && pageStart == p * PAGE
      requires page == ReadAt(FileAt(Base(), hunkSize, p * PAGE), Position(Seeks(), hunkSize, p * PAGE), PAGE)
      modifies this`pageBuf, this`lastPoint, files`offset
      ensures files.Valid() && CowShape() && ok == (|page| == PAGE) && (ok ==> pageBuf == page)
      ensures Seeks() == AfterRead(old(Seeks()), hunkSize, p * PAGE, |page|)
      ensures files.offset[hunks] == old(files.offset[hunks])
    {
      PageFacts(p);
      var inHunk := pageStart % hunkSize;
      var rdLen := if PAGE + inHunk > hunkSize then hunkSize - inHunk else PAGE;
      ghost var rest := files.offset[hunks..];
      var status, data := RawRead(pageStart, rdLen);
      assert files.offset[hunks] == files.offset[hunks..][0] == rest[0];
      pageBuf := data + pageBuf[|data|..];
      ok := status == Ok;
    }

    /** Give page p the next slot, and stand there. The 32-bit counter does not wrap. */
    method TakeSlot(p: nat)
      requires Valid() && p < difmap.Length && difmap[p] == NO_PAGE
      modifies this`diffLen, this`owner, files`offset, difmap
      ensures files.Valid() && CowShape()
      ensures difmap[..] == old(difmap[..])[p := old(diffLen)] && owner == old(owner) + [p]
      ensures diffLen == old(diffLen) + 1 == |owner| <= difmap.Length
      ensures files.offset == old(files.offset)[hunks := old(diffLen) * PAGE]
    {
      SlotFree(difmap[..], owner, p);
      var slotStart := Offset32(diffLen, 0);
      files.Seek(hunks, slotStart);
      difmap[p] := diffLen;
      diffLen := (diffLen + 1) % U32;
      owner := owner + [p];
    }

    /** The server as a value. */
    ghost function Here(): (s: Snapshot)
      requires files.Valid() && CowShape()
      reads this`pageBuf, this`diffLen, this`lastPoint, files, difmap
      ensures |s.image| == exportSize == |s.pages| * PAGE
    {
      Snapshot(View(), difmap[..], diffLen, Seeks())
    }

    /** The page is not in the diff file: give it the next slot, copy it and put the piece in. The map entry is
        made before the copy, so a copy that fails leaves a mapped page without contents. */
    method WriteFresh(p: nat, off: nat, piece: seq<byte>) returns (ok: bool)
      requires Valid() && p < difmap.Length && off + |piece| <= PAGE && off < PAGE && difmap[p] == NO_PAGE
      modifies this, files, difmap
      ensures files.Valid() && CowShape() && Base() == old(Base())
      ensures ok <==> Copies(old(Here()), Base(), hunkSize, p)
      ensures ok <==> Valid()
      ensures ok ==> Here() == PageWritten(old(Here()), Base(), hunkSize, p, p * PAGE + off, piece)
      ensures !ok ==> IsLost(old(View()), View(), p)
    {
      ghost var base, diff, pages, slots, page := Base(), Diff(), difmap[..], owner, PageRead(p);
      PageFacts(p);
      SeenRead(View(), base, hunkSize, Seeks(), p * PAGE, PAGE);
      TakeSlot(p);
      var pageStart := Offset32(p, 0);
      ok := LoadPage(p, pageStart, page);
      if !ok {
        assert Diff() == diff && |diff| < PAGE * |owner| && Base() == base;
        UnfilledPage(base, hunkSize, diff, pages, slots, p);
        return;
      }
      FreshPageImage(base, hunkSize, diff, pages, slots, p, off, piece, page);
      pageBuf := Patch(pageBuf, off, piece);
      var n := files.Write(hunks, pageBuf);
      ok := n == PAGE;
      assert Diff() == Splice(diff, |slots| * PAGE, pageBuf) && Base() == base;
    }

    /** A page that is not in the diff file shows its base file. */
    lemma FreshShowsBase(p: nat, off: nat, n: nat)
      requires Valid() && p < difmap.Length && difmap[p] == NO_PAGE && off + n <= PAGE && off < PAGE
      ensures ShowsBase(View(), Base(), hunkSize, p * PAGE + off, n)
    {
      PageFacts(p);
      UnmappedPage(Base(), hunkSize, Diff(), difmap[..], p);
      WithinHunk(hunkSize, p * PAGE, p * PAGE + off);
    }

    /** ... as a model that has the same pages and base files needs it. */
    lemma PageShown(p: nat)
      requires Valid() && p < difmap.Length
      ensures difmap[p] == NO_PAGE ==> ShowsBase(View(), Base(), hunkSize, p * PAGE, PAGE)
    {
      if difmap[p] == NO_PAGE { FreshShowsBase(p, 0, PAGE); }
    }

    /** Put a piece of a write into page p. */
    method WritePiece(p: nat, off: nat, piece: seq<byte>) returns (ok: bool)
      requires Valid() && p < difmap.Length && off + |piece| <= PAGE && off < PAGE
      modifies this, files, difmap
      ensures files.Valid() && CowShape() && Base() == old(Base()) && p * PAGE + PAGE <= exportSize
      ensures ok <==> Copies(old(Here()), Base(), hunkSize, p)
      ensures ok <==> Valid()
      ensures ok ==> Here() == PageWritten(old(Here()), Base(), hunkSize, p, p * PAGE + off, piece)
      ensures !ok ==> IsLost(old(View()), View(), p)
    {
      PageFacts(p);
      if difmap[p] != NO_PAGE {
        ok := WriteMapped(p, off, piece);
      } else {
        ok := WriteFresh(p, off, piece);
      }
    }

    /** One pass of the loop of a copy-on-write write: buf, which goes to address at in page p, loses what the page
        has room for. */
    method WritePage(p: nat, at: nat, buf: seq<byte>) returns (ok: bool, at': nat, buf': seq<byte>, ghost piece: seq<byte>)
      requires Valid() && p < difmap.Length && p * PAGE <= at < p * PAGE + PAGE
      modifies this, files, difmap
      ensures files.Valid() && CowShape() && Base() == old(Base())
      ensures piece + buf' == buf && |piece| == Min(|buf|, p * PAGE + PAGE - at) && at' == at + |piece| <= exportSize
      ensures ok <==> Copies(old(Here()), Base(), hunkSize, p)
      ensures ok <==> Valid()
      ensures ok ==> Here() == PageWritten(old(Here()), Base(), hunkSize, p, at, piece)
      ensures !ok ==> IsLost(old(View()), View(), p)
    {
      var pageStart := Offset32(p, 0);
      var offset := at - pageStart;
      var wrLen := if |buf| < PAGE - offset then |buf| else PAGE - offset;
      piece := buf[..wrLen];
      ok := WritePiece(p, offset, buf[..wrLen]);
      at', buf' := at + wrLen, buf[wrLen..];
    }

    /** The server is where the model of the write is when page p is next. */
    ghost predicate WrittenSoFar(j: WriteJob, p: nat, at: nat, buf: seq<byte>, done: seq<byte>)
      requires files.Valid() && CowShape()
      reads this`pageBuf, this`diffLen, this`lastPoint, files, difmap
    {
      Base() == j.base && hunkSize == j.h && j.Tracks(Here(), p, at, buf, done)
    }

    /** One pass of the loop: p moves on, and part of buf has joined what is done. */
    method WriteStep(ghost j: WriteJob, p: nat, at: nat, buf: seq<byte>, ghost done: seq<byte>)
      returns (ok: bool, at': nat, buf': seq<byte>, ghost done': seq<byte>)
      requires Valid() && j.Sized() && j.lo <= p <= j.hi && WrittenSoFar(j, p, at, buf, done)
      modifies this, files, difmap
      ensures files.Valid() && CowShape() && Base() == j.base
      ensures ok <==> Valid()
      ensures ok ==> WrittenSoFar(j, p + 1, at', buf', done')
      ensures !ok ==> j.FailedAt(View(), p, done) && !j.Succeeds()
    {
      ghost var before := Here();
      j.Place(before, p, at, buf, done);
      PageShown(p);
      ghost var piece;
      ok, at', buf', piece := WritePage(p, at, buf);
      done' := done + piece;
      j.Judge(before, p, at, buf, done, piece, buf', ok, Here());
    }

    /** A write of data at address a to pages lo..hi, as it finds the server. */
    ghost function WriteFound(lo: nat, hi: nat, a: nat, data: seq<byte>): WriteJob
      requires files.Valid() && CowShape()
      reads this, files, difmap
    {
      WriteJob(Base(), hunkSize, Here(), lo, hi, a, data)
    }

    /** The loop of a copy-on-write write over pages lo..hi, which are those that data at address a touches. */
    method WritePages(lo: nat, hi: nat, a: nat, data: seq<byte>, ghost j: WriteJob)
      returns (ok: bool, ghost lost: nat, ghost done: seq<byte>)
      requires Valid() && j.Sized() && lo == j.lo && hi == j.hi && WrittenSoFar(j, lo, a, data, [])
      modifies this, files, difmap
      ensures files.Valid() && CowShape() && Base() == j.base
      ensures ok <==> Valid()
      ensures ok <==> j.Succeeds()
      ensures ok ==> j.a + |j.data| <= exportSize && Here() == j.End()
      ensures !ok ==> j.FailedAt(View(), lost, done)
    {
      var p, at, buf := lo, a, data;
      done := [];
      while p <= hi
        invariant lo <= p <= hi + 1 && Valid() && WrittenSoFar(j, p, at, buf, done)
      {
        ghost var before := done;
        ok, at, buf, done := WriteStep(j, p, at, buf, done);
        if !ok { return false, p, before; }
        p := p + 1;
      }
      j.Ends(Here(), at, buf, done);
      ok, lost := true, hi;
    }

    /** The pages of a write are computed in 32 bits, which is exact for the exports that are served. */
    method Pages32(a: nat, len: nat) returns (lo: nat, hi: nat)
      requires CowShape() && len > 0 && a + len <= exportSize
      ensures lo == FirstPage(a) && hi == LastPage(a, len) && lo <= hi < difmap.Length
    {
      lo, hi := (a / PAGE) % U32, ((a + len - 1) / PAGE) % U32;
    }

    /** A copy-on-write write, as it finds the server. */
    ghost function CowWriteFound(a: nat, data: seq<byte>): WriteJob
      requires files.Valid() && CowShape() && data != []
      reads this, files, difmap
    {
      WriteFound(FirstPage(a), LastPage(a, |data|), a, data)
    }

    lemma WriteFits(a: nat, data: seq<byte>)
      requires Valid() && 1 <= |data| <= BUFSIZE && a + |data| <= exportSize
      ensures CowWriteFound(a, data).Sized()
    {
    }

    /** expwrite for a copy-on-write export. It succeeds exactly when every page that it touches is in the diff file or
        can be copied, and exactly then the overlay stays consistent; the export then reads as a flat array, as the write
        saw it, with the data written at a. Otherwise what comes before some page that cannot be copied is written, and
        that page is lost with all that could be read of it. The base files never change. */
    method CowWrite(a: nat, data: seq<byte>, ghost j: WriteJob) returns (ok: bool, ghost lost: nat, ghost done: seq<byte>)
      requires Valid() && 1 <= |data| <= BUFSIZE && a + |data| <= exportSize && j == CowWriteFound(a, data)
      modifies this, files, difmap
      ensures files.Valid() && CowShape() && Base() == j.base && j.Sized()
      ensures ok <==> Valid()
      ensures ok <==> j.Succeeds()
      ensures ok ==> Here() == j.End()
      ensures !ok ==> j.FailedAt(View(), lost, done)
    {
      WriteFits(a, data);
      var lo, hi := Pages32(a, |data|);
      j.Starts();
      ok, lost, done := WritePages(lo, hi, a, data, j);
    }

    /** Read part of page p from its slot of the diff file: always possible. */
    method ReadSlot(p: nat, off: nat, len: nat, ghost x: nat) returns (ok: bool, data: seq<byte>)
      requires Valid() && p < difmap.Length && difmap[p] != NO_PAGE && len > 0 && off + len <= PAGE && x == p * PAGE + off
      modifies files`offset
      ensures Valid() && files.offset[..hunks] == old(files.offset[..hunks]) && x + len <= exportSize
      ensures ok && Present(View(), x, len)
      ensures |data| == len && Shows(View(), x, data)
    {
      ghost var pages, diff := difmap[..], Diff();
      PageFacts(p);
      MappedPage(Base(), hunkSize, diff, pages, owner, p);
      SeekSlot(p, off);
      data := files.Read(hunks, len);
      ok := |data| == len;
      ReadInPage(View(), p * PAGE, diff, difmap[p] * PAGE, off, len, x);
    }

    /** Read bytes of page p, which is not in the diff file; w is the image that the read sees. */
    method ReadBase(x: nat, len: nat, ghost p: nat, ghost w: seq<Option<byte>>) returns (ok: bool, data: seq<byte>)
      requires Valid() && p < difmap.Length && difmap[p] == NO_PAGE && len > 0 && p * PAGE <= x && x + len <= p * PAGE + PAGE
      requires w == Seen(View(), Base(), hunkSize, Seeks(), x, len)
      modifies this`lastPoint, files`offset
      ensures Valid() && x + len <= exportSize
      ensures ok <==> Present(w, x, len)
      ensures ok ==> |data| == len && Shows(w, x, data)
      ensures ok ==> Seeks() == AfterRead(old(Seeks()), hunkSize, x, len)
    {
      HunkOfPage(p, x, len);
      ghost var got := ReadAt(FileAt(Base(), hunkSize, x), Position(Seeks(), hunkSize, x), len);
      SeenRead(View(), Base(), hunkSize, Seeks(), x, len);
      var status;
      status, data := RawRead(x, len);
      assert data == got;
      ok := status == Ok;
    }

    lemma HunkOfPage(p: nat, x: nat, len: nat)
      requires files.Valid() && CowShape() && p < difmap.Length && len > 0 && p * PAGE <= x && x + len <= p * PAGE + PAGE
      ensures InHunks(x) && x + len <= exportSize
    {
      PageFacts(p);
      WithinHunk(hunkSize, p * PAGE, x);
    }

    /** One pass of the loop of a copy-on-write read. */
    method ReadPage(p: nat, at: nat, len: nat, ghost n: nat, ghost w: seq<Option<byte>>)
      returns (ok: bool, data: seq<byte>, rdLen: nat)
      requires Valid() && p < difmap.Length && p * PAGE <= at < p * PAGE + PAGE && len > 0
      requires n == Min(len, p * PAGE + PAGE - at)
      requires w == if difmap[p] == NO_PAGE then Seen(View(), Base(), hunkSize, Seeks(), at, n) else View()
      modifies this`lastPoint, files`offset
      ensures Valid() && rdLen == n && at + n <= exportSize
      ensures ok <==> Present(w, at, n)
      ensures ok ==> |data| == n && Shows(w, at, data)
      ensures ok ==> Seeks() == if difmap[p] == NO_PAGE then AfterRead(old(Seeks()), hunkSize, at, n) else old(Seeks())
    {
      var pageStart := p * PAGE;
      var offset := at - pageStart;
      rdLen := if len < PAGE - offset then len else PAGE - offset;
      PageFacts(p);
      if difmap[p] != NO_PAGE {
        ok, data := ReadSlot(p, offset, rdLen, at);
      } else {
        ok, data := ReadBase(at, rdLen, p, w);
      }
    }

    /** A read of the bytes from a to stop in pages lo..hi, as it finds the server. */
    ghost function ReadFound(lo: nat, hi: nat, a: nat, stop: nat): ReadJob
      requires files.Valid() && CowShape()
      reads this, files, difmap
    {
      ReadJob(Base(), hunkSize, Here(), lo, hi, a, stop)
    }

    /** How far a read has come when page p is next: data has been delivered, and only the cache has changed. */
    ghost predicate ReadSoFar(j: ReadJob, p: nat, data: seq<byte>)
      requires files.Valid() && CowShape() && j.Sized() && j.lo <= p <= j.hi + 1
      reads this`pageBuf, this`diffLen, this`lastPoint, files, difmap
    {
      && Base() == j.base && hunkSize == j.h && View() == j.start.image && difmap[..] == j.start.pages
      && j.a + |data| == (if p <= j.hi then PartStart(p, j.a) else j.stop)
      && Shows(j.SeenImage(), j.a, data)
      && Seeks() == j.CacheAfter(p)
    }

    /** One pass of the loop: p moves on. */
    method ReadStep(ghost j: ReadJob, p: nat, at: nat, rest: nat, data: seq<byte>)
      returns (ok: bool, data': seq<byte>, at': nat, rest': nat)
      requires Valid() && j.Sized() && j.lo <= p <= j.hi && ReadSoFar(j, p, data)
      requires at == j.a + |data| && at + rest == j.stop
      modifies this`lastPoint, files`offset
      ensures Valid() && at' + rest' == j.stop && (ok ==> at' == j.a + |data'|)
      ensures ok ==> ReadSoFar(j, p + 1, data')
      ensures !ok ==> !Present(j.SeenImage(), j.a, j.stop - j.a)
    {
      ghost var n, w := PartLength(p, j.a, j.stop), j.PartSeen(p);
      assert p * PAGE <= at < p * PAGE + PAGE && n == Min(rest, p * PAGE + PAGE - at) && n > 0 by { j.PartsFit(p); }
      assert difmap[..][p] == difmap[p];
      PageShown(p);
      var piece, rdLen;
      ok, piece, rdLen := ReadPage(p, at, rest, n, w);
      data', at', rest' := data + piece, at + rdLen, rest - rdLen;
      j.Judge(p, data, at, n, piece, ok);
    }

    /** The loop of a copy-on-write read over pages lo..hi, which are those that the bytes from a to end touch. */
    method ReadPages(lo: nat, hi: nat, a: nat, len: nat, ghost j: ReadJob) returns (ok: bool, data: seq<byte>)
      requires Valid() && j == ReadFound(lo, hi, a, a + len) && j.Sized()
      modifies this`lastPoint, files`offset
      ensures Valid() && a + len <= exportSize
      ensures ok <==> Present(j.SeenImage(), a, len)
      ensures ok ==> |data| == len && Shows(j.SeenImage(), a, data)
      ensures ok ==> Seeks() == j.CacheAfter(hi + 1)
    {
      j.PartsFit(hi);
      var p, at, rest := lo, a, len;
      data := [];
      while p <= hi
        invariant Valid() && lo <= p <= hi + 1 && ReadSoFar(j, p, data)
        invariant at == a + |data| && at + rest == a + len
      {
        ok, data, at, rest := ReadStep(j, p, at, rest, data);
        if !ok { return; }
        p := p + 1;
      }
      ShownIsPresent(j.SeenImage(), a, data);
      ok := true;
    }

    /** A copy-on-write read, as it finds the server. */
    ghost function CowReadFound(a: nat, len: nat): ReadJob
      requires files.Valid() && CowShape() && len > 0
      reads this, files, difmap
    {
      ReadFound(FirstPage(a), LastPage(a, len), a, a + len)
    }

    lemma ReadFits(a: nat, len: nat)
      requires Valid() && 1 <= len <= BUFSIZE && a + len <= exportSize
      ensures CowReadFound(a, len).Sized()
    {
    }

    /** expread for a copy-on-write export: it succeeds exactly when all of the bytes can be read on the image that it
        sees, and delivers them. Neither the files nor the map change. */
    method CowRead(a: nat, len: nat, ghost j: ReadJob) returns (ok: bool, data: seq<byte>)
      requires Valid() && 1 <= len <= BUFSIZE && a + len <= exportSize && j == CowReadFound(a, len)
      modifies this`lastPoint, files`offset
      ensures Valid() && j.Sized()
      ensures ok <==> Present(j.SeenImage(), a, len)
      ensures ok ==> |data| == len && Shows(j.SeenImage(), a, data)
      ensures ok ==> Seeks() == j.CacheAfter(j.hi + 1)
    {
      ReadFits(a, len);
      ok, data := ReadPages(a / PAGE, (a + len - 1) / PAGE, a, len, j);
    }

    /** With a single file: the cached position is unset or is the position of the file. */
    ghost predicate CacheTrue()
      requires files.Valid() && |files.contents| > 0
      reads this`lastPoint, files
    {
      lastPoint == NO_POINT || lastPoint == files.offset[0]
    }

    /** With a single file, the cache is safe for the whole export unless it points into the export and the file
        stands elsewhere. */
    lemma SingleFileCache()
      requires files.Valid() && Shape() && hunkSize == NO_POINT
      ensures hunks == 1
      ensures CacheSound() <==> lastPoint >= exportSize || lastPoint == files.offset[0]
    {
      if lastPoint < exportSize {
        assert lastPoint % hunkSize == lastPoint && lastPoint / hunkSize == 0;
        if CacheSound() {
          assert SeekSafe(lastPoint, files.offset, hunkSize, lastPoint);
        }
      }
      forall b | 0 <= b < exportSize ensures b / hunkSize == 0 && b % hunkSize == b {
      }
    }

    /** A single-file export without copy on write. */
    ghost predicate Plain()
      reads files
    {
      files.Valid() && Shape() && !cow && hunkSize == NO_POINT && |files.contents| == 1
    }

    lemma OnlyHunk(a: nat)
      requires hunkSize == NO_POINT && a < NO_POINT
      ensures a / hunkSize == 0 && a % hunkSize == a
    {
    }

    /** A read as the main loop serves it for a plain export. Whatever requests came before, the bytes are those at
        address a: the cached position is never wrong. */
    method PlainRead(a: nat, len: nat) returns (status: Status, data: seq<byte>)
      requires Plain() && CacheTrue() && a < NO_POINT && len <= BUFSIZE
      modifies this`lastPoint, files`offset
      ensures Plain() && CacheTrue()
      ensures data == if a > exportSize then [] else ReadAt(files.contents[0], a, len)
      ensures status == if a > exportSize then Fatal else if |data| == len then Ok else Failed
    {
      if a > exportSize { return Fatal, []; }  // maybeseek: "Can not happen"
      OnlyHunk(a);
      status, data := RawRead(a, len);
      lastPoint := if status == Ok then (lastPoint + len) % U64 else NO_POINT;
    }

    /** ... and a write. */
    method PlainWrite(a: nat, data: seq<byte>) returns (status: Status)
      requires Plain() && CacheTrue() && a < NO_POINT && |data| <= BUFSIZE
      modifies this`lastPoint, files
      ensures Plain() && CacheTrue()
      ensures var n := if a > exportSize then 0 else Fitting(files.limit, a, |data|);
              && files.contents == [Splice(old(files.contents[0]), a, data[..n])]
              && status == if a > exportSize then Fatal else if n == |data| then Ok else Failed
    {
      if a > exportSize { return Fatal; }
      OnlyHunk(a);
      status := RawWrite(a, data);
      lastPoint := if status == Ok then (lastPoint + |data|) % U64 else NO_POINT;
    }

    /** Soundness of the cache, file by file. */
    lemma CacheSoundExactly()
      requires files.Valid() && Shape()
      ensures CacheSound() <==> Sound(Seeks(), hunkSize, exportSize)
    {
      var c := Seeks();
      forall b | 0 <= b < exportSize
        ensures b / hunkSize < |c.offset|
        ensures SeekSafe(lastPoint, files.offset, hunkSize, b) == SeekSafe(c.point, c.offset, hunkSize, b)
      {
        HunkOf(b);
        assert files.offset[b / hunkSize] == c.offset[b / hunkSize];
      }
      SoundExactly(c, hunkSize, exportSize);
    }

    /** What the main loop does to the cached position after a request: moved on by the length of the whole request, or
        dropped. */
    method MoveCache(ok: bool, len: nat)
      requires files.Valid() && Shape()
      modifies this`lastPoint
      ensures ok ==> Seeks() == Moved(old(Seeks()), len)
      ensures !ok ==> lastPoint == NO_POINT
      ensures lastPoint == if ok then (old(lastPoint) + len) % 0x1_0000_0000_0000_0000 else 0xFFFF_FFFF_FFFF_FFFF
      ensures CacheSound() <==> (ok ==> Sound(Moved(old(Seeks()), len), hunkSize, exportSize))
    {
      lastPoint := if ok then (lastPoint + len) % U64 else NO_POINT;
      CacheSoundExactly();
    }

    /** A copy-on-write read as the main loop serves it. */
    method ServeCowRead(a: nat, len: nat, ghost j: ReadJob) returns (ok: bool, data: seq<byte>)
      requires Valid() && 1 <= len <= BUFSIZE && a + len <= exportSize && j == CowReadFound(a, len)
      modifies this`lastPoint, files`offset
      ensures Valid() && j.Sized()
      ensures ok <==> Present(j.SeenImage(), a, len)
      ensures ok ==> |data| == len && Shows(j.SeenImage(), a, data)
      ensures if ok then Seeks() == Moved(j.CacheAfter(j.hi + 1), len) else lastPoint == NO_POINT
      ensures CacheSound() <==> (ok ==> Sound(Moved(j.CacheAfter(j.hi + 1), len), hunkSize, exportSize))
    {
      ok, data := CowRead(a, len, j);
      MoveCache(ok, len);
    }

    /** A copy-on-write write as the main loop serves it. */
    method ServeCowWrite(a: nat, data: seq<byte>, ghost j: WriteJob)
      returns (ok: bool, ghost lost: nat, ghost done: seq<byte>)
      requires Valid() && 1 <= |data| <= BUFSIZE && a + |data| <= exportSize && j == CowWriteFound(a, data)
      modifies this, files, difmap
      ensures files.Valid() && CowShape() && Base() == j.base && j.Sized()
      ensures ok <==> Valid()
      ensures ok <==> j.Succeeds()
      ensures ok ==> Here() == j.End().(cache := Moved(j.End().cache, |data|))
      ensures !ok ==> j.FailedAt(View(), lost, done) && lastPoint == NO_POINT
      ensures CacheSound() <==> (ok ==> Sound(Moved(j.End().cache, |data|), hunkSize, exportSize))
    {
      ok, lost, done := CowWrite(a, data, j);
      MoveCache(ok, |data|);
    }

    /** A read without copy on write as the main loop serves it, from one or several files: the bytes come from the
        file of its address, at the position that the cache gives. */
    method ServeHunkRead(a: nat, len: nat) returns (ok: bool, data: seq<byte>)
      requires Shape() && !cow && InHunks(a) && len <= BUFSIZE && a + len <= exportSize
      modifies this`lastPoint, files`offset
      ensures Shape() && files.Valid()
      ensures data == ReadAt(files.contents[a / hunkSize], Position(old(Seeks()), hunkSize, a), len) && ok == (|data| == len)
      ensures ok ==> Seeks() == Moved(AfterRead(old(Seeks()), hunkSize, a, len), len)
      ensures !ok ==> lastPoint == NO_POINT
      ensures CacheSound() <==> (ok ==> Kept(old(Seeks()), hunkSize, exportSize, a / hunkSize, a % hunkSize,
                                             Position(old(Seeks()), hunkSize, a) + len, len))
    {
      SmallResidue(a);
      OneAccessKeepsExactly(Seeks(), hunkSize, exportSize, a, len);
      var status;
      status, data := RawRead(a, len);
      ok := status == Ok;
      MoveCache(ok, len);
    }

    lemma SmallResidue(a: nat)
      requires hunkSize > 0
      ensures a % hunkSize <= a
    {
      ResidueSmall(hunkSize, a);
    }

    /** ... and a write: it puts what fits into that file at that position, and changes nothing else. */
    method ServeHunkWrite(a: nat, data: seq<byte>) returns (ok: bool)
      requires Shape() && !cow && InHunks(a) && |data| <= BUFSIZE && a + |data| <= exportSize
      modifies this`lastPoint, files
      ensures Shape() && files.Valid()
      ensures var at := Position(old(Seeks()), hunkSize, a);
              var n := Fitting(files.limit, at, |data|);
              && ok == (n == |data|)
              && files.contents
                 == old(files.contents)[a / hunkSize := Splice(old(files.contents[a / hunkSize]), at, data[..n])]
      ensures ok ==> Seeks() == Moved(AfterRead(old(Seeks()), hunkSize, a, |data|), |data|)
      ensures !ok ==> lastPoint == NO_POINT
      ensures CacheSound() <==> (ok ==> Kept(old(Seeks()), hunkSize, exportSize, a / hunkSize, a % hunkSize,
                                             Position(old(Seeks()), hunkSize, a) + |data|, |data|))
    {
      SmallResidue(a);
      OneAccessKeepsExactly(Seeks(), hunkSize, exportSize, a, |data|);
      var status := RawWrite(a, data);
      ok := status == Ok;
      MoveCache(ok, |data|);
    }
  }
}
