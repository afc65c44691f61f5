/** The copy-on-write overlay of the block server, on values: a set of base files ("hunks"), a page map and an
    append-only file of changed pages, and the flat export that they stand for. */
module Overlay {
  import opened Arithmetic
  import opened Files
  import opened Wrappers

  const PAGE := 4096            // DIFFPAGESIZE
  const BUFSIZE := 1024 * 1024  // the buffer of the main loop
  const NO_PAGE := U32 - 1      // (u32)-1: the page is not in the diff file
  const NO_POINT := U64 - 1     // (fsoffset_t)-1: no cached position

  /** Byte x of the export as the base files have it; None past the end of its file. */
  function BaseAt(base: seq<seq<byte>>, h: nat, x: nat): Option<byte>
    requires h > 0
  {
    if x / h < |base| && x % h < |base[x / h]| then Some(base[x / h][x % h]) else None
  }

  function ByteAt(file: seq<byte>, pos: nat): Option<byte> {
    if pos < |file| then Some(file[pos]) else None
  }

  /** Byte x of the export as a client must see it. */
  function ViewAt(base: seq<seq<byte>>, h: nat, diff: seq<byte>, pages: seq<nat>, x: nat): Option<byte>
    requires h > 0 && x / PAGE < |pages|
  {
    if pages[x / PAGE] == NO_PAGE then BaseAt(base, h, x)
    else ByteAt(diff, pages[x / PAGE] * PAGE + x % PAGE)
  }

  /** The page map and the slots of the diff file are inverse to each other: owner[s] is the page in slot s. */
  ghost predicate Bijection(pages: seq<nat>, owner: seq<nat>) {
    && (forall p :: 0 <= p < |pages| && pages[p] != NO_PAGE ==> pages[p] < |owner| && owner[pages[p]] == p)
    && (forall s :: 0 <= s < |owner| ==> owner[s] < |pages| && pages[owner[s]] == s)
  }

  /** ... and the diff file holds exactly the slots handed out. */
  ghost predicate Allocated(pages: seq<nat>, owner: seq<nat>, diff: seq<byte>) {
    && Bijection(pages, owner)
    && |diff| == PAGE * |owner|
  }

  function Below(n: nat): (r: set<nat>)
    ensures |r| == n
    ensures forall i :: i in r <==> 0 <= i < n
  {
    if n == 0 then {} else Below(n - 1) + {n - 1}
  }

  lemma {:induction false} DistinctBelow(s: seq<nat>, n: nat)
    requires forall i :: 0 <= i < |s| ==> s[i] < n
    requires forall i, j :: 0 <= i < j < |s| ==> s[i] != s[j]
    ensures |s| <= n
    decreases |s|
  {
    var all := set i | 0 <= i < |s| :: s[i];
    DistinctSize(s);
    assert all <= Below(n);
    Subset(all, Below(n));
  }

  lemma {:induction false} DistinctSize(s: seq<nat>)
    requires forall i, j :: 0 <= i < j < |s| ==> s[i] != s[j]
    ensures |set i | 0 <= i < |s| :: s[i]| == |s|
    decreases |s|
  {
    if s != [] {
      var k := |s| - 1;
      DistinctSize(s[..k]);
      var rest := set i | 0 <= i < |s[..k]| :: s[..k][i];
      assert (set i | 0 <= i < |s| :: s[i]) == rest + {s[k]};
    }
  }

  lemma {:induction false} Subset(a: set<nat>, b: set<nat>)
    requires a <= b
    ensures |a| <= |b|
  {
    assert b == a + (b - a);
  }

  /** The pages among lo..p-1 that are not in the diff file get the next slots in order. */
  function FreshPages(pages: seq<nat>, lo: nat, p: nat): (n: nat)
    requires lo <= p <= |pages|
    ensures n <= p - lo
    decreases p
  {
    if p == lo then 0 else FreshPages(pages, lo, p - 1) + if pages[p - 1] == NO_PAGE then 1 else 0
  }

  function Allocate(pages: seq<nat>, lo: nat, p: nat, next: nat): (r: seq<nat>)
    requires lo <= p <= |pages|
    ensures |r| == |pages|
    ensures forall q :: 0 <= q < |pages| && !(lo <= q < p && pages[q] == NO_PAGE) ==> r[q] == pages[q]
    ensures forall q :: lo <= q < p && pages[q] == NO_PAGE ==> next <= r[q] < next + FreshPages(pages, lo, p)
    decreases p
  {
    if p == lo then pages
    else
      var before := Allocate(pages, lo, p - 1, next);
      if pages[p - 1] == NO_PAGE then before[p - 1 := next + FreshPages(pages, lo, p - 1)] else before
  }

  lemma AllocateStep(pages: seq<nat>, lo: nat, p: nat, next: nat)
    requires lo <= p < |pages|
    ensures Allocate(pages, lo, p, next)[p] == pages[p]
    ensures Allocate(pages, lo, p + 1, next) ==
            if pages[p] == NO_PAGE then Allocate(pages, lo, p, next)[p := next + FreshPages(pages, lo, p)]
            else Allocate(pages, lo, p, next)
    ensures FreshPages(pages, lo, p + 1) == FreshPages(pages, lo, p) + if pages[p] == NO_PAGE then 1 else 0
  {
  }

  /** There are never more slots than pages. */
  lemma SlotsFit(pages: seq<nat>, owner: seq<nat>)
    requires Bijection(pages, owner)
    ensures |owner| <= |pages|
  {
    forall i, j | 0 <= i < j < |owner| ensures owner[i] != owner[j] {
      assert pages[owner[i]] == i && pages[owner[j]] == j;
    }
    DistinctBelow(owner, |pages|);
  }

  /** While some page is unmapped there are fewer, so the slot that it will get has a 32-bit offset whenever the
      export has at most 2^32 bytes. */
  lemma SlotFree(pages: seq<nat>, owner: seq<nat>, p: nat)
    requires Bijection(pages, owner) && |pages| < NO_PAGE && p < |pages| && pages[p] == NO_PAGE
    ensures |owner| < |pages|
  {
    SlotsFit(pages, owner);
    var more := owner + [p];
    forall i, j | 0 <= i < j < |more| ensures more[i] != more[j] {
      assert i < |owner| && pages[owner[i]] == i;
      if j < |owner| { assert pages[owner[j]] == j; }
    }
    DistinctBelow(more, |pages|);
  }

  /** Two pages in the diff file have different slots, all of which lie in the file. */
  lemma Slots(pages: seq<nat>, owner: seq<nat>, diff: seq<byte>, p: nat, q: nat)
    requires Allocated(pages, owner, diff) && p < |pages| && q < |pages| && pages[p] != NO_PAGE && pages[q] != NO_PAGE
    ensures pages[q] * PAGE + PAGE <= |diff|
    ensures p != q ==> pages[p] * PAGE + PAGE <= pages[q] * PAGE || pages[q] * PAGE + PAGE <= pages[p] * PAGE
  {
    assert owner[pages[q]] == q && owner[pages[p]] == p;
  }

  /** The write of a piece of page p that is in the diff file changes the view on that piece and nowhere else. */
  lemma MappedWrite(base: seq<seq<byte>>, h: nat, diff: seq<byte>, pages: seq<nat>, owner: seq<nat>,
                    p: nat, off: nat, piece: seq<byte>, x: nat)
    requires h > 0 && Allocated(pages, owner, diff)
    requires p < |pages| && pages[p] != NO_PAGE && off + |piece| <= PAGE
    requires x / PAGE < |pages|
    ensures |Splice(diff, pages[p] * PAGE + off, piece)| == |diff|
    ensures ViewAt(base, h, Splice(diff, pages[p] * PAGE + off, piece), pages, x)
         == if p * PAGE + off <= x < p * PAGE + off + |piece| then Some(piece[x - (p * PAGE + off)])
            else ViewAt(base, h, diff, pages, x)
  {
    var q, i := x / PAGE, x % PAGE;
    Slots(pages, owner, diff, p, p);
    if pages[q] != NO_PAGE {
      Slots(pages, owner, diff, p, q);
      SplicedByte(diff, pages[p] * PAGE + off, piece, pages[q] * PAGE + i);
    }
  }

  lemma SplicedByte(c: seq<byte>, pos: nat, data: seq<byte>, x: nat)
    requires pos + |data| <= |c| && x < |c|
    ensures |Splice(c, pos, data)| == |c|
    ensures Splice(c, pos, data)[x] == if pos <= x < pos + |data| then data[x - pos] else c[x]
  {
  }

  /** A page appended to the diff file takes the next slot. */
  lemma FreshSlot(diff: seq<byte>, pages: seq<nat>, owner: seq<nat>, p: nat, page: seq<byte>)
    requires Allocated(pages, owner, diff) && |owner| < NO_PAGE
    requires p < |pages| && pages[p] == NO_PAGE && |page| == PAGE
    ensures Splice(diff, |owner| * PAGE, page) == diff + page
    ensures Allocated(pages[p := |owner|], owner + [p], diff + page)
  {
    var pos := |owner| * PAGE;
    assert pos == |diff|;
    AppendByWriting(diff, page);
  }

  lemma AppendByWriting(c: seq<byte>, data: seq<byte>)
    ensures Splice(c, |c|, data) == c + data
  {
  }

  /** A page with a piece of it replaced. */
  function Patch(original: seq<byte>, off: nat, piece: seq<byte>): (r: seq<byte>)
    requires off + |piece| <= |original|
    ensures |r| == |original|
    ensures forall i :: 0 <= i < |r| ==> r[i] == if off <= i < off + |piece| then piece[i - off] else original[i]
  {
    original[..off] + piece + original[off + |piece|..]
  }

  /** A page put into a fresh slot: the view has it there, and is the same elsewhere. */
  lemma FreshPage(base: seq<seq<byte>>, h: nat, diff: seq<byte>, pages: seq<nat>, owner: seq<nat>,
                  p: nat, page: seq<byte>, x: nat)
    requires h > 0 && Allocated(pages, owner, diff) && |owner| < NO_PAGE
    requires p < |pages| && pages[p] == NO_PAGE && |page| == PAGE && x / PAGE < |pages|
    ensures ViewAt(base, h, diff + page, pages[p := |owner|], x)
         == if x / PAGE == p then Some(page[x % PAGE]) else ViewAt(base, h, diff, pages, x)
  {
    var q, i := x / PAGE, x % PAGE;
    if q == p {
      assert ByteAt(diff + page, |owner| * PAGE + i) == Some(page[i]);
    } else if pages[q] != NO_PAGE {
      assert pages[q] * PAGE + i < |diff|;
    }
  }

  /** The whole export as a client must see it. */
  function Image(base: seq<seq<byte>>, h: nat, diff: seq<byte>, pages: seq<nat>): (r: seq<Option<byte>>)
    requires h > 0
    ensures |r| == |pages| * PAGE
    ensures forall x :: 0 <= x < |pages| * PAGE ==> r[x] == ViewAt(base, h, diff, pages, x)
  {
    seq(|pages| * PAGE, x requires 0 <= x < |pages| * PAGE => ViewAt(base, h, diff, pages, x))
  }

  /** A flat image with data written at a position. */
  function Overwrite(v: seq<Option<byte>>, at: nat, data: seq<byte>): (r: seq<Option<byte>>)
    requires at + |data| <= |v|
    ensures |r| == |v|
    ensures forall x :: 0 <= x < |v| ==>
              r[x] == if at <= x < at + |data| then Some(data[x - at]) else v[x]
  {
    seq(|v|, x requires 0 <= x < |v| => if at <= x < at + |data| then Some(data[x - at]) else v[x])
  }

  lemma OverwriteJoin(v: seq<Option<byte>>, at: nat, first: seq<byte>, second: seq<byte>)
    requires at + |first| + |second| <= |v|
    ensures Overwrite(Overwrite(v, at, first), at + |first|, second) == Overwrite(v, at, first + second)
  {
  }

  lemma MappedWriteImage(base: seq<seq<byte>>, h: nat, diff: seq<byte>, pages: seq<nat>, owner: seq<nat>,
                         p: nat, off: nat, piece: seq<byte>)
    requires h > 0 && Allocated(pages, owner, diff)
    requires p < |pages| && pages[p] != NO_PAGE && off + |piece| <= PAGE
    ensures var diff' := Splice(diff, pages[p] * PAGE + off, piece);
            && Allocated(pages, owner, diff')
            && Image(base, h, diff', pages) == Overwrite(Image(base, h, diff, pages), p * PAGE + off, piece)
  {
    var diff' := Splice(diff, pages[p] * PAGE + off, piece);
    MappedWrite(base, h, diff, pages, owner, p, off, piece, 0);
    forall x | 0 <= x < |pages| * PAGE
      ensures Image(base, h, diff', pages)[x] == Overwrite(Image(base, h, diff, pages), p * PAGE + off, piece)[x]
    {
      MappedWrite(base, h, diff, pages, owner, p, off, piece, x);
    }
  }

  lemma PatchedOver(v: seq<Option<byte>>, p: nat, off: nat, piece: seq<byte>, original: seq<byte>, x: nat)
    requires p * PAGE + PAGE <= |v| && off + |piece| <= PAGE && |original| == PAGE && x < |v|
    ensures Overwrite(Overwrite(v, p * PAGE, original), p * PAGE + off, piece)[x]
         == if x / PAGE == p then Some(Patch(original, off, piece)[x % PAGE]) else v[x]
  {
    assert x == x / PAGE * PAGE + x % PAGE;
  }

  /** The page buffer of a fresh page: what has been read for the page, with the piece put in. */
  lemma FreshPageImage(base: seq<seq<byte>>, h: nat, diff: seq<byte>, pages: seq<nat>, owner: seq<nat>,
                       p: nat, off: nat, piece: seq<byte>, original: seq<byte>)
    requires h > 0 && Allocated(pages, owner, diff) && |owner| < NO_PAGE
    requires p < |pages| && pages[p] == NO_PAGE && off + |piece| <= PAGE && |original| == PAGE
    ensures var diff' := Splice(diff, |owner| * PAGE, Patch(original, off, piece));
            var pages' := pages[p := |owner|];
            && Allocated(pages', owner + [p], diff')
            && Image(base, h, diff', pages')
               == Overwrite(Overwrite(Image(base, h, diff, pages), p * PAGE, original), p * PAGE + off, piece)
  {
    var page := Patch(original, off, piece);
    var pages' := pages[p := |owner|];
    FreshSlot(diff, pages, owner, p, page);
    var before, after := Image(base, h, diff, pages), Image(base, h, diff + page, pages');
    forall x | 0 <= x < |pages| * PAGE
      ensures after[x] == Overwrite(Overwrite(before, p * PAGE, original), p * PAGE + off, piece)[x]
    {
      FreshPage(base, h, diff, pages, owner, p, page, x);
      PatchedOver(before, p, off, piece, original, x);
    }
  }

  /** The image after page p has been entered in the map but not copied. */
  ghost predicate IsLost(was: seq<Option<byte>>, now: seq<Option<byte>>, p: nat) {
    |now| == |was| && forall x :: 0 <= x < |now| ==> now[x] == if x / PAGE == p then None else was[x]
  }

  /** A page that has a slot beyond the end of the diff file has no bytes, and the others are as before. */
  lemma UnfilledPage(base: seq<seq<byte>>, h: nat, diff: seq<byte>, pages: seq<nat>, owner: seq<nat>, p: nat)
    requires h > 0 && Allocated(pages, owner, diff) && |owner| < NO_PAGE && p < |pages|
    ensures IsLost(Image(base, h, diff, pages), Image(base, h, diff, pages[p := |owner|]), p)
  {
  }

  /** Addresses that do not leave a hunk stay in one file, at consecutive offsets. */
  lemma WithinHunk(h: nat, a: nat, x: nat)
    requires h > 0 && a <= x && a % h + (x - a) < h
    ensures x / h == a / h && x % h == a % h + (x - a)
  {
    assert a == (a / h) * h + a % h;
    QuotientAndResidue(h, x, a / h, a % h + (x - a));
  }

  /** No page crosses a hunk: one hunk holds the whole export, or its size is a multiple of the page size. */
  lemma PageInHunk(h: nat, p: nat)
    requires h > 0 && (h % PAGE == 0 || p * PAGE + PAGE <= h)
    ensures (p * PAGE) % h + PAGE <= h
  {
    var a := p * PAGE;
    if a + PAGE <= h {
      QuotientAndResidue(h, a, 0, a);
    } else {
      var k := h / PAGE;
      var q, r := p / k, p % k;
      assert h == k * PAGE && p == q * k + r;
      assert a == q * (k * PAGE) + r * PAGE;
      assert r * PAGE + PAGE <= k * PAGE by { assert r + 1 <= k; }
      QuotientAndResidue(h, a, q, r * PAGE);
    }
  }

  /** The bytes of a range inside one hunk are those of its file, at consecutive offsets. */
  lemma HunkBytes(base: seq<seq<byte>>, h: nat, a: nat, n: nat)
    requires h > 0 && a % h + n <= h && a / h < |base|
    ensures forall x :: a <= x < a + n ==> BaseAt(base, h, x) == ByteAt(base[a / h], a % h + (x - a))
  {
    forall x | a <= x < a + n ensures BaseAt(base, h, x) == ByteAt(base[a / h], a % h + (x - a)) {
      HunkByte(base, h, a, x, a / h, a % h);
    }
  }

  lemma HunkByte(base: seq<seq<byte>>, h: nat, a: nat, x: nat, i: nat, off: nat)
    requires h > 0 && i == a / h < |base| && off == a % h && a <= x && off + (x - a) < h
    ensures BaseAt(base, h, x) == ByteAt(base[i], off + (x - a))
  {
    WithinHunk(h, a, x);
  }

  lemma ShowsJoin(v: seq<Option<byte>>, a: nat, first: seq<byte>, at: nat, second: seq<byte>)
    requires Shows(v, a, first) && at == a + |first| && Shows(v, at, second)
    ensures Shows(v, a, first + second)
  {
  }

  lemma ShownIsPresent(v: seq<Option<byte>>, a: nat, data: seq<byte>)
    requires Shows(v, a, data)
    ensures Present(v, a, |data|)
  {
    forall x | a <= x < a + |data| ensures v[x].Some? {
      assert v[a + (x - a)] == Some(data[x - a]);
    }
  }

  /** All n bytes from at on can be read. */
  ghost predicate Present(v: seq<Option<byte>>, at: nat, n: nat)
    requires at + n <= |v|
  {
    forall x :: at <= x < at + n ==> v[x].Some?
  }

  /** The image shows data at address at. */
  ghost predicate Shows(v: seq<Option<byte>>, at: nat, data: seq<byte>) {
    at + |data| <= |v| && forall i :: 0 <= i < |data| ==> v[at + i] == Some(data[i])
  }

  /** The image shows, from start on, a page of a file from position at on. */
  ghost predicate ShowsPage(v: seq<Option<byte>>, start: nat, file: seq<byte>, at: nat)
    requires start + PAGE <= |v|
  {
    forall x :: start <= x < start + PAGE ==> v[x] == ByteAt(file, at + (x - start))
  }

  /** All bytes of the pages among lo..hi-1 that are not in the diff file can be read, so that the pages can be copied. */
  ghost predicate Copyable(v: seq<Option<byte>>, pages: seq<nat>, lo: nat, hi: nat)
    requires hi <= |pages| && |pages| * PAGE <= |v|
  {
    forall q :: lo <= q < hi && pages[q] == NO_PAGE ==> Present(v, q * PAGE, PAGE)
  }

  /** Two images that agree on a range show the same there. */
  ghost predicate Agree(v: seq<Option<byte>>, w: seq<Option<byte>>, at: nat, n: nat) {
    |v| == |w| && at + n <= |v| && forall x :: at <= x < at + n ==> v[x] == w[x]
  }

  lemma AgreeShow(v: seq<Option<byte>>, w: seq<Option<byte>>, at: nat, n: nat, data: seq<byte>)
    requires Agree(v, w, at, n)
    ensures Present(v, at, n) <==> Present(w, at, n)
    ensures |data| == n ==> (Shows(v, at, data) <==> Shows(w, at, data))
  {
    if |data| == n && Shows(w, at, data) {
      forall i | 0 <= i < n ensures v[at + i] == Some(data[i]) { assert v[at + i] == w[at + i]; }
    }
    if |data| == n && Shows(v, at, data) {
      forall i | 0 <= i < n ensures w[at + i] == Some(data[i]) { assert v[at + i] == w[at + i]; }
    }
  }

  /** A read within such a page succeeds exactly when the bytes are present. */
  lemma ReadInPage(v: seq<Option<byte>>, start: nat, file: seq<byte>, at: nat, off: nat, n: nat, x: nat)
    requires start + PAGE <= |v| && ShowsPage(v, start, file, at)
    requires n > 0 && off + n <= PAGE && x == start + off
    ensures |ReadAt(file, at + off, n)| == n <==> Present(v, x, n)
    ensures |ReadAt(file, at + off, n)| == n ==> Shows(v, x, ReadAt(file, at + off, n))
  {
    if at + off + n > |file| {
      assert v[x + n - 1].None?;
    }
  }

  /** A page in the diff file shows its slot, all of which is there. */
  lemma MappedPage(base: seq<seq<byte>>, h: nat, diff: seq<byte>, pages: seq<nat>, owner: seq<nat>, p: nat)
    requires h > 0 && Allocated(pages, owner, diff) && p < |pages| && pages[p] != NO_PAGE
    ensures pages[p] * PAGE + PAGE <= |diff|
    ensures ShowsPage(Image(base, h, diff, pages), p * PAGE, diff, pages[p] * PAGE)
  {
    forall x | p * PAGE <= x < p * PAGE + PAGE
      ensures Image(base, h, diff, pages)[x] == ByteAt(diff, pages[p] * PAGE + (x - p * PAGE))
    {
      assert x / PAGE == p;
    }
  }

  /** Any other page shows the base. */
  lemma UnmappedPage(base: seq<seq<byte>>, h: nat, diff: seq<byte>, pages: seq<nat>, p: nat)
    requires h > 0 && p < |pages| && pages[p] == NO_PAGE
    requires (p * PAGE) % h + PAGE <= h && (p * PAGE) / h < |base|
    ensures ShowsPage(Image(base, h, diff, pages), p * PAGE, base[(p * PAGE) / h], (p * PAGE) % h)
  {
    HunkBytes(base, h, p * PAGE, PAGE);
    forall x | p * PAGE <= x < p * PAGE + PAGE ensures Image(base, h, diff, pages)[x] == BaseAt(base, h, x) {
      assert x / PAGE == p;
    }
  }
}
