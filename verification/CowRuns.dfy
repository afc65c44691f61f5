/** Whole runs of the copy-on-write export against a flat image, and the requests after which the cached file
    position is wrong. */
module CowRuns {
  import opened Arithmetic
  import opened Files
  import opened Overlay
  import opened SeekCache
  import opened CowModel
  import opened Misled
  import opened BlockServer
  import opened Wrappers

  datatype Op = Read(at: nat, len: nat) | Write(at: nat, data: seq<byte>)

  predicate InRange(op: Op, size: nat) {
    match op
    case Read(at, len) => 1 <= len <= BUFSIZE && at + len <= size
    case Write(at, data) => 1 <= |data| <= BUFSIZE && at + |data| <= size
  }

  predicate AllInRange(ops: seq<Op>, size: nat) {
    forall i :: 0 <= i < |ops| ==> InRange(ops[i], size)
  }

  /** The image after an operation. */
  function After(v: seq<Option<byte>>, op: Op): (r: seq<Option<byte>>)
    requires InRange(op, |v|)
    ensures |r| == |v|
  {
    match op
    case Read(_, _) => v
    case Write(at, data) => Overwrite(v, at, data)
  }

  /** The image after the first n operations. */
  function AfterAll(v: seq<Option<byte>>, ops: seq<Op>, n: nat): (r: seq<Option<byte>>)
    requires n <= |ops| && AllInRange(ops, |v|)
    ensures |r| == |v|
  {
    if n == 0 then v else After(AfterAll(v, ops, n - 1), ops[n - 1])
  }

  /** The n bytes from at on. */
  ghost function Bytes(v: seq<Option<byte>>, at: nat, n: nat): seq<byte>
    requires at + n <= |v| && Present(v, at, n)
  {
    seq(n, i requires 0 <= i < n => v[at + i].value)
  }

  lemma ShownBytes(v: seq<Option<byte>>, at: nat, data: seq<byte>)
    requires Shows(v, at, data)
    ensures Present(v, at, |data|) && Bytes(v, at, |data|) == data
  {
    ShownIsPresent(v, at, data);
  }

  /** What an operation returns: the bytes of a read that are all present; nothing for one that fails. */
  ghost function Reply(v: seq<Option<byte>>, op: Op): Option<seq<byte>>
    requires InRange(op, |v|)
  {
    match op
    case Write(_, _) => Some([])
    case Read(at, len) => if Present(v, at, len) then Some(Bytes(v, at, len)) else None
  }

  /** A server with these hunk files as a request finds it. */
  ghost predicate Served(h: nat, s: Snapshot) {
    h >= GIGA && |s.pages| * PAGE == |s.image|
  }

  function ReadJobOf(base: seq<seq<byte>>, h: nat, s: Snapshot, at: nat, len: nat): ReadJob
    requires len > 0
  {
    ReadJob(base, h, s, FirstPage(at), LastPage(at, len), at, at + len)
  }

  function WriteJobOf(base: seq<seq<byte>>, h: nat, s: Snapshot, at: nat, data: seq<byte>): WriteJob
    requires data != []
  {
    WriteJob(base, h, s, FirstPage(at), LastPage(at, |data|), at, data)
  }

  lemma JobsFit(base: seq<seq<byte>>, h: nat, s: Snapshot, op: Op)
    requires Served(h, s) && InRange(op, |s.image|)
    ensures match op
            case Read(at, len) => ReadJobOf(base, h, s, at, len).Sized()
            case Write(at, data) => WriteJobOf(base, h, s, at, data).Sized()
  {
  }

  /** The image as an operation sees it. */
  ghost function SeenBy(base: seq<seq<byte>>, h: nat, s: Snapshot, op: Op): (w: seq<Option<byte>>)
    requires Served(h, s) && InRange(op, |s.image|)
    ensures |w| == |s.image|
  {
    JobsFit(base, h, s, op);
    match op
    case Read(at, len) => ReadJobOf(base, h, s, at, len).SeenImage()
    case Write(at, data) => WriteJobOf(base, h, s, at, data).SeenImage()
  }

  /** An operation takes the server from s to t with a reply: all of it as on a flat image, but on the image that it
      sees. */
  ghost predicate Step(base: seq<seq<byte>>, h: nat, s: Snapshot, op: Op, reply: Option<seq<byte>>, t: Snapshot)
    requires Served(h, s) && InRange(op, |s.image|)
  {
    JobsFit(base, h, s, op);
    && t.image == After(if op.Write? then SeenBy(base, h, s, op) else s.image, op)
    && reply == Reply(SeenBy(base, h, s, op), op)
    && match op
       case Read(at, len) =>
         var j := ReadJobOf(base, h, s, at, len);
         && t.pages == s.pages && t.next == s.next
         && (if reply.Some? then t.cache == Moved(j.CacheAfter(j.hi + 1), len) else t.cache.point == NO_POINT)
       case Write(at, data) =>
         var j := WriteJobOf(base, h, s, at, data);
         && j.Succeeds() && t.pages == Allocate(s.pages, j.lo, j.hi + 1, s.next)
         && t.next == s.next + FreshPages(s.pages, j.lo, j.hi + 1)
         && t.cache == Moved(j.CacheAfter(j.hi + 1), |data|)
  }

  /** A write has failed on the server as it was at s: it has stopped at a page that could not be copied; what goes before
      this page is written, and the page is lost. */
  ghost predicate Failed(base: seq<seq<byte>>, h: nat, s: Snapshot, op: Op, v: seq<Option<byte>>, lost: nat,
                         done: seq<byte>)
    requires Served(h, s) && InRange(op, |s.image|)
  {
    JobsFit(base, h, s, op);
    op.Write? && !WriteJobOf(base, h, s, op.at, op.data).Succeeds()
    && WriteJobOf(base, h, s, op.at, op.data).FailedAt(v, lost, done)
  }

  /** All pages that are not in the diff file show their base files. */
  ghost predicate BasesShown(base: seq<seq<byte>>, h: nat, s: Snapshot)
    requires h > 0
  {
    forall q :: 0 <= q < |s.pages| && s.pages[q] == NO_PAGE ==> ShowsBase(s.image, base, h, q * PAGE, PAGE)
  }

  /** A server that may turn up in a run. */
  ghost predicate Sane(base: seq<seq<byte>>, h: nat, size: nat, s: Snapshot) {
    Served(h, s) && |s.image| == size && BasesShown(base, h, s)
  }

  ghost predicate SaneStep(base: seq<seq<byte>>, h: nat, size: nat, s: Snapshot, op: Op, reply: Option<seq<byte>>,
                           t: Snapshot)
  {
    InRange(op, size) && Sane(base, h, size, s) && Sane(base, h, size, t) && Step(base, h, s, op, reply, t)
  }

  /** A run of operations through the servers of a trace. */
  ghost predicate RunOf(base: seq<seq<byte>>, h: nat, size: nat, ops: seq<Op>, replies: seq<Option<seq<byte>>>,
                        trace: seq<Snapshot>)
  {
    && |trace| == |replies| + 1 && |replies| <= |ops| && Sane(base, h, size, trace[|replies|])
    && forall i :: 0 <= i < |replies| ==> StepOf(base, h, size, ops, replies, trace, i)
  }

  ghost predicate StepOf(base: seq<seq<byte>>, h: nat, size: nat, ops: seq<Op>, replies: seq<Option<seq<byte>>>,
                         trace: seq<Snapshot>, i: nat)
  {
    && i < |replies| && i < |ops| && i + 1 < |trace|
    && SaneStep(base, h, size, trace[i], ops[i], replies[i], trace[i + 1])
  }

  lemma RunExtends(base: seq<seq<byte>>, h: nat, size: nat, ops: seq<Op>, replies: seq<Option<seq<byte>>>,
                   trace: seq<Snapshot>, reply: Option<seq<byte>>, t: Snapshot)
    requires RunOf(base, h, size, ops, replies, trace) && |replies| < |ops|
    requires SaneStep(base, h, size, trace[|replies|], ops[|replies|], reply, t)
    ensures RunOf(base, h, size, ops, replies + [reply], trace + [t])
  {
    LastStep(base, h, size, ops, replies, trace, reply, t);
    forall i | 0 <= i < |replies| ensures StepOf(base, h, size, ops, replies + [reply], trace + [t], i) {
      StepKept(base, h, size, ops, replies, trace, reply, t, i);
    }
  }

  lemma StepKept(base: seq<seq<byte>>, h: nat, size: nat, ops: seq<Op>, replies: seq<Option<seq<byte>>>,
                 trace: seq<Snapshot>, reply: Option<seq<byte>>, t: Snapshot, i: nat)
    requires RunOf(base, h, size, ops, replies, trace) && i < |replies|
    ensures StepOf(base, h, size, ops, replies + [reply], trace + [t], i)
  {
    StepAt(base, h, size, ops, replies, trace, i);
    Appended(replies, reply, i);
    Appended(trace, t, i);
    Appended(trace, t, i + 1);
  }

  lemma LastStep(base: seq<seq<byte>>, h: nat, size: nat, ops: seq<Op>, replies: seq<Option<seq<byte>>>,
                 trace: seq<Snapshot>, reply: Option<seq<byte>>, t: Snapshot)
    requires |trace| == |replies| + 1 && |replies| < |ops|
    requires SaneStep(base, h, size, trace[|replies|], ops[|replies|], reply, t)
    ensures StepOf(base, h, size, ops, replies + [reply], trace + [t], |replies|)
    ensures Sane(base, h, size, (trace + [t])[|replies| + 1])
  {
    Appended(trace, t, |replies|);
  }

  lemma Appended<T>(s: seq<T>, x: T, i: nat)
    requires i < |s|
    ensures (s + [x])[i] == s[i]
  {
  }

  /** Serve operations one after the other, from one base file or several, whatever the cache. The run stops early only at
      a write that could not copy a base page. */
  method Run(s: Server, ops: seq<Op>)
    returns (replies: seq<Option<seq<byte>>>, failed: bool, ghost trace: seq<Snapshot>, ghost lost: nat,
             ghost done: seq<byte>)
    requires s.Valid() && AllInRange(ops, s.exportSize)
    modifies s, s.files, s.difmap
    ensures s.files.Valid() && s.CowShape() && s.Base() == old(s.Base())
    ensures RunOf(s.Base(), s.hunkSize, s.exportSize, ops, replies, trace) && trace[0] == old(s.Here())
    ensures !failed ==> s.Valid() && |replies| == |ops| && s.Here() == trace[|replies|]
    ensures failed ==> |replies| < |ops|
    ensures failed ==> Failed(s.Base(), s.hunkSize, trace[|replies|], ops[|replies|], s.View(), lost, done)
  {
    ghost var base := s.Base();
    replies, failed, trace, lost, done := [], false, [s.Here()], 0, [];
    AllBasesShown(s);
    while |replies| < |ops|
      invariant s.Valid() && s.Base() == base && RunOf(base, s.hunkSize, s.exportSize, ops, replies, trace)
      invariant trace[0] == old(s.Here()) && trace[|replies|] == s.Here()
    {
      var reply;
      failed, reply, lost, done := RunOne(s, ops[|replies|]);
      if failed { return; }
      RunExtends(base, s.hunkSize, s.exportSize, ops, replies, trace, reply, s.Here());
      replies, trace := replies + [reply], trace + [s.Here()];
    }
  }

  lemma AllBasesShown(s: Server)
    requires s.Valid()
    ensures Sane(s.Base(), s.hunkSize, s.exportSize, s.Here())
  {
    forall q | 0 <= q < |s.Here().pages| && s.Here().pages[q] == NO_PAGE
      ensures ShowsBase(s.View(), s.Base(), s.hunkSize, q * PAGE, PAGE)
    {
      s.PageShown(q);
    }
  }

  method RunOne(s: Server, op: Op)
    returns (failed: bool, reply: Option<seq<byte>>, ghost lost: nat, ghost done: seq<byte>)
    requires s.Valid() && InRange(op, s.exportSize)
    modifies s, s.files, s.difmap
    ensures s.files.Valid() && s.CowShape() && s.Base() == old(s.Base()) && Served(s.hunkSize, old(s.Here()))
    ensures failed ==> Failed(s.Base(), s.hunkSize, old(s.Here()), op, s.View(), lost, done)
    ensures !failed ==> s.Valid() && SaneStep(s.Base(), s.hunkSize, s.exportSize, old(s.Here()), op, reply, s.Here())
  {
    AllBasesShown(s);
    failed, reply, lost, done := ServeOp(s, op);
    if !failed { AllBasesShown(s); }
  }

  method ServeOp(s: Server, op: Op)
    returns (failed: bool, reply: Option<seq<byte>>, ghost lost: nat, ghost done: seq<byte>)
    requires s.Valid() && InRange(op, s.exportSize)
    modifies s, s.files, s.difmap
    ensures s.files.Valid() && s.CowShape() && s.Base() == old(s.Base()) && Served(s.hunkSize, old(s.Here()))
    ensures failed ==> Failed(s.Base(), s.hunkSize, old(s.Here()), op, s.View(), lost, done)
    ensures !failed ==> s.Valid() && Step(s.Base(), s.hunkSize, old(s.Here()), op, reply, s.Here())
  {
    match op
    case Read(at, len) =>
      reply := ServeRead(s, at, len);
      failed, lost, done := false, 0, [];
    case Write(at, data) =>
      failed, lost, done := ServeWrite(s, at, data);
      reply := Some([]);
  }

  method ServeRead(s: Server, at: nat, len: nat) returns (reply: Option<seq<byte>>)
    requires s.Valid() && InRange(Read(at, len), s.exportSize)
    modifies s`lastPoint, s.files`offset
    ensures s.Valid() && Served(s.hunkSize, old(s.Here()))
    ensures Step(s.Base(), s.hunkSize, old(s.Here()), Read(at, len), reply, s.Here())
  {
    JobsFit(s.Base(), s.hunkSize, s.Here(), Read(at, len));
    ghost var j := s.CowReadFound(at, len);
    var ok, data := s.ServeCowRead(at, len, j);
    if ok { ShownBytes(j.SeenImage(), at, data); }
    reply := if ok then Some(data) else None;
  }

  method ServeWrite(s: Server, at: nat, data: seq<byte>) returns (failed: bool, ghost lost: nat, ghost done: seq<byte>)
    requires s.Valid() && InRange(Write(at, data), s.exportSize)
    modifies s, s.files, s.difmap
    ensures s.files.Valid() && s.CowShape() && s.Base() == old(s.Base()) && Served(s.hunkSize, old(s.Here()))
    ensures failed ==> Failed(s.Base(), s.hunkSize, old(s.Here()), Write(at, data), s.View(), lost, done)
    ensures !failed ==> s.Valid() && Step(s.Base(), s.hunkSize, old(s.Here()), Write(at, data), Some([]), s.Here())
  {
    JobsFit(s.Base(), s.hunkSize, s.Here(), Write(at, data));
    ghost var j := s.CowWriteFound(at, data);
    var ok;
    ok, lost, done := s.ServeCowWrite(at, data, j);
    failed := !ok;
    if ok { Written(j.base, j.h, j.start, at, data, s.Here()); }
  }

  lemma Written(base: seq<seq<byte>>, h: nat, s: Snapshot, at: nat, data: seq<byte>, t: Snapshot)
    requires Served(h, s) && InRange(Write(at, data), |s.image|)
    requires var j := WriteJobOf(base, h, s, at, data);
             j.Sized() && j.Succeeds() && t == j.End().(cache := Moved(j.End().cache, |data|))
    ensures Step(base, h, s, Write(at, data), Some([]), t)
  {
    var op := Write(at, data);
    JobsFit(base, h, s, op);
    assert SeenBy(base, h, s, op) == WriteJobOf(base, h, s, at, data).SeenImage();
    assert After(SeenBy(base, h, s, op), op) == t.image;
    assert Reply(SeenBy(base, h, s, op), op) == Some([]);
  }

  /** The page of the first base read of an operation, and the address of its part. */
  function FirstBase(s: Snapshot, op: Op): Option<nat>
    requires |s.pages| * PAGE == |s.image| && InRange(op, |s.image|)
  {
    match op
    case Read(at, len) => FirstUnmapped(s.pages, FirstPage(at), LastPage(at, len) + 1)
    case Write(at, data) => FirstUnmapped(s.pages, FirstPage(at), LastPage(at, |data|) + 1)
  }

  function BaseAddress(s: Snapshot, op: Op): Option<nat>
    requires |s.pages| * PAGE == |s.image| && InRange(op, |s.image|)
  {
    match FirstBase(s, op)
    case None => None
    case Some(q) => Some(if op.Read? then PartStart(q, op.at) else q * PAGE)
  }

  /** No base read of the operation is misled. */
  predicate NotMisled(lens: seq<nat>, h: nat, s: Snapshot, op: Op)
    requires h > 0 && |s.pages| * PAGE == |s.image| && InRange(op, |s.image|)
  {
    var x := BaseAddress(s, op);
    x.Some? ==> Harmless(s.cache, h, lens, x.value)
  }

  /** Such an operation sees the image as it is. */
  lemma SeesFlat(base: seq<seq<byte>>, h: nat, s: Snapshot, op: Op)
    requires Served(h, s) && InRange(op, |s.image|) && BasesShown(base, h, s) && NotMisled(Lengths(base), h, s, op)
    ensures SeenBy(base, h, s, op) == s.image
  {
    var q := FirstBase(s, op);
    JobsFit(base, h, s, op);
    if q.Some? {
      var (x, n) := BasePart(s.pages, op, q.value);
      SeenByIs(base, h, s, op, q.value);
      PartShown(base, h, s, op, q.value);
      HarmlessSeesRight(s.image, base, h, s.cache, x, n);
    }
  }

  lemma PartShown(base: seq<seq<byte>>, h: nat, s: Snapshot, op: Op, q: nat)
    requires Served(h, s) && InRange(op, |s.image|) && BasesShown(base, h, s) && FirstBase(s, op) == Some(q)
    ensures var (x, n) := BasePart(s.pages, op, q); ShowsBase(s.image, base, h, x, n)
  {
    assert ShowsBase(s.image, base, h, q * PAGE, PAGE);
    if op.Read? {
      var x, n := PartStart(q, op.at), PartLength(q, op.at, op.at + op.len);
      JobsFit(base, h, s, op);
      ReadJobOf(base, h, s, op.at, op.len).PartsFit(q);
      PartShowsBase(s.image, base, h, q * PAGE, PAGE, x, n);
    }
  }

  /** The operation at n of a run is not misled. */
  ghost predicate RightAt(lens: seq<nat>, h: nat, size: nat, trace: seq<Snapshot>, ops: seq<Op>, n: nat) {
    && n < |trace| && n < |ops| && h > 0 && |trace[n].pages| * PAGE == |trace[n].image| == size && InRange(ops[n], size)
    && NotMisled(lens, h, trace[n], ops[n])
  }

  /** So up to the first operation that is misled, a run is one of a flat image: the image before operation n is that
      of the operations before it, and its reply is the one that this image gives. */
  lemma {:induction false} FlatWhileNotMisled(base: seq<seq<byte>>, h: nat, size: nat, ops: seq<Op>,
                                              replies: seq<Option<seq<byte>>>, trace: seq<Snapshot>, v: seq<Option<byte>>,
                                              n: nat)
    requires RunOf(base, h, size, ops, replies, trace) && n < |replies| && trace[0].image == v && |v| == size
    requires AllInRange(ops, size) && forall i :: 0 <= i <= n ==> RightAt(Lengths(base), h, size, trace, ops, i)
    ensures trace[n].image == AfterAll(v, ops, n)
    ensures replies[n] == Reply(AfterAll(v, ops, n), ops[n])
    ensures trace[n + 1].image == AfterAll(v, ops, n + 1)
    ensures var image := AfterAll(v, ops, n);
            match ops[n]
            case Read(at, len) =>
              && (replies[n].Some? <==> forall x :: at <= x < at + len ==> image[x].Some?)
              && (replies[n].Some? ==> |replies[n].value| == len)
              && (replies[n].Some? ==> forall i :: 0 <= i < len ==> image[at + i] == Some(replies[n].value[i]))
            case Write(_, _) => replies[n].Some?
  {
    if n > 0 { FlatWhileNotMisled(base, h, size, ops, replies, trace, v, n - 1); }
    assert RightAt(Lengths(base), h, size, trace, ops, n);
    FlatAt(base, h, size, ops, replies, trace, n);
    if ops[n].Read? { Delivers(AfterAll(v, ops, n), ops[n]); }
  }

  lemma FlatAt(base: seq<seq<byte>>, h: nat, size: nat, ops: seq<Op>, replies: seq<Option<seq<byte>>>,
               trace: seq<Snapshot>, n: nat)
    requires RunOf(base, h, size, ops, replies, trace) && n < |replies| && RightAt(Lengths(base), h, size, trace, ops, n)
    ensures |trace[n].image| == size && InRange(ops[n], size)
    ensures trace[n + 1].image == After(trace[n].image, ops[n]) && replies[n] == Reply(trace[n].image, ops[n])
  {
    StepAt(base, h, size, ops, replies, trace, n);
    FlatStep(base, h, size, trace[n], ops[n], replies[n], trace[n + 1]);
  }

  /** What the operations of a run do, said without the model: a read delivers the bytes that it asked for, on the
      image that it sees, exactly when all of them are there, and changes no byte; a write puts its data on that
      image. */
  lemma RunDelivers(base: seq<seq<byte>>, h: nat, size: nat, ops: seq<Op>, replies: seq<Option<seq<byte>>>,
                    trace: seq<Snapshot>, n: nat)
    requires RunOf(base, h, size, ops, replies, trace) && n < |replies|
    ensures Served(h, trace[n]) && |trace[n].image| == size && InRange(ops[n], size)
    ensures var w, after := SeenBy(base, h, trace[n], ops[n]), trace[n + 1].image;
            match ops[n]
            case Read(at, len) =>
              && (replies[n].Some? <==> forall x :: at <= x < at + len ==> w[x].Some?)
              && (replies[n].Some? ==> |replies[n].value| == len)
              && (replies[n].Some? ==> forall i :: 0 <= i < len ==> w[at + i] == Some(replies[n].value[i]))
              && after == trace[n].image
            case Write(at, data) =>
              && replies[n].Some? && |after| == size
              && forall x :: 0 <= x < size ==> after[x] == if at <= x < at + |data| then Some(data[x - at]) else w[x]
  {
    StepAt(base, h, size, ops, replies, trace, n);
    StepDelivers(base, h, trace[n], ops[n], replies[n], trace[n + 1]);
  }

  lemma StepDelivers(base: seq<seq<byte>>, h: nat, s: Snapshot, op: Op, reply: Option<seq<byte>>, t: Snapshot)
    requires Served(h, s) && InRange(op, |s.image|) && Step(base, h, s, op, reply, t)
    ensures var w := SeenBy(base, h, s, op);
            match op
            case Read(at, len) =>
              && (reply.Some? <==> forall x :: at <= x < at + len ==> w[x].Some?)
              && (reply.Some? ==> |reply.value| == len)
              && (reply.Some? ==> forall i :: 0 <= i < len ==> w[at + i] == Some(reply.value[i]))
              && t.image == s.image
            case Write(at, data) =>
              && reply.Some? && |t.image| == |s.image|
              && forall x :: 0 <= x < |s.image| ==> t.image[x] == if at <= x < at + |data| then Some(data[x - at]) else w[x]
  {
    if op.Read? { Delivers(SeenBy(base, h, s, op), op); }
  }

  /** The reply to a read is what the image has there. */
  lemma Delivers(w: seq<Option<byte>>, op: Op)
    requires op.Read? && InRange(op, |w|)
    ensures Reply(w, op).Some? <==> forall x :: op.at <= x < op.at + op.len ==> w[x].Some?
    ensures Reply(w, op).Some? ==> |Reply(w, op).value| == op.len
    ensures Reply(w, op).Some? ==> forall i :: 0 <= i < op.len ==> w[op.at + i] == Some(Reply(w, op).value[i])
  {
  }

  /** Byte x after the first n operations is that of the last write among them that covers it. */
  lemma {:induction false} LastWriteWins(v: seq<Option<byte>>, ops: seq<Op>, n: nat, x: nat, i: nat)
    requires n <= |ops| && AllInRange(ops, |v|) && x < |v| && i <= n
    requires forall j :: i <= j < n && ops[j].Write? ==> !(ops[j].at <= x < ops[j].at + |ops[j].data|)
    ensures i == 0 ==> AfterAll(v, ops, n)[x] == v[x]
    ensures i > 0 && ops[i - 1].Write? && ops[i - 1].at <= x < ops[i - 1].at + |ops[i - 1].data| ==>
              AfterAll(v, ops, n)[x] == Some(ops[i - 1].data[x - ops[i - 1].at])
    decreases n
  {
    if i < n { LastWriteWins(v, ops, n - 1, x, i); }
  }

  lemma StepAt(base: seq<seq<byte>>, h: nat, size: nat, ops: seq<Op>, replies: seq<Option<seq<byte>>>,
               trace: seq<Snapshot>, n: nat)
    requires RunOf(base, h, size, ops, replies, trace) && n < |replies|
    ensures SaneStep(base, h, size, trace[n], ops[n], replies[n], trace[n + 1])
  {
    assert StepOf(base, h, size, ops, replies, trace, n);
  }

  lemma FlatStep(base: seq<seq<byte>>, h: nat, size: nat, s: Snapshot, op: Op, reply: Option<seq<byte>>, t: Snapshot)
    requires SaneStep(base, h, size, s, op, reply, t) && NotMisled(Lengths(base), h, s, op)
    ensures t.image == After(s.image, op) && reply == Reply(s.image, op)
  {
    SeesFlat(base, h, s, op);
  }

  /** A sound cache misleads no operation; nor does the empty cache at the start. */
  lemma SoundIsNotMisled(lens: seq<nat>, h: nat, s: Snapshot, op: Op)
    requires h > 0 && |s.pages| * PAGE == |s.image| && InRange(op, |s.image|) && |lens| == |s.cache.offset|
    requires forall b :: 0 <= b < |s.image| ==> SeekSafe(s.cache.point, s.cache.offset, h, b)
    ensures NotMisled(lens, h, s, op)
  {
    var x := BaseAddress(s, op);
    if x.Some? {
      BaseAddressInside(s, op);
      assert SeekSafe(s.cache.point, s.cache.offset, h, x.value);
    }
  }

  lemma BaseAddressInside(s: Snapshot, op: Op)
    requires |s.pages| * PAGE == |s.image| && InRange(op, |s.image|) && BaseAddress(s, op).Some?
    ensures BaseAddress(s, op).value < |s.image|
  {
  }

  /** An operation sees the overlay on given base files as it is. */
  ghost predicate SeesItAsItIs(base: seq<seq<byte>>, h: nat, diff: seq<byte>, pages: seq<nat>, next: nat, c: Cache, op: Op)
    requires h >= GIGA && InRange(op, |pages| * PAGE)
  {
    SeenBy(base, h, Snapshot(Image(base, h, diff, pages), pages, next, c), op) == Image(base, h, diff, pages)
  }

  /** The part that the first base read of an operation is for. */
  function BasePart(pages: seq<nat>, op: Op, q: nat): (nat, nat) {
    match op
    case Read(at, len) => (PartStart(q, at), PartLength(q, at, at + len))
    case Write(_, _) => (q * PAGE, PAGE)
  }

  lemma SeesItIs(base: seq<seq<byte>>, h: nat, diff: seq<byte>, s: Snapshot, op: Op, q: nat)
    requires h >= GIGA && |s.image| == |s.pages| * PAGE && InRange(op, |s.image|) && FirstBase(s, op) == Some(q)
    ensures var (x, n) := BasePart(s.pages, op, q);
            SeesItAsItIs(base, h, diff, s.pages, s.next, s.cache, op) == SeesRight(base, h, s.cache, diff, s.pages, x, n)
  {
    var there := Snapshot(Image(base, h, diff, s.pages), s.pages, s.next, s.cache);
    JobsFit(base, h, there, op);
    SeenByIs(base, h, there, op, q);
  }

  lemma SeenByIs(base: seq<seq<byte>>, h: nat, s: Snapshot, op: Op, q: nat)
    requires Served(h, s) && InRange(op, |s.image|) && FirstBase(s, op) == Some(q)
    ensures var (x, n) := BasePart(s.pages, op, q);
            SeenBy(base, h, s, op) == Seen(s.image, base, h, s.cache, x, n)
  {
    JobsFit(base, h, s, op);
    match op
    case Read(at, len) =>
    case Write(at, data) => StepPart(FirstPage(at), q, LastPage(at, |data|));
  }

  /** What an operation sees, in the terms of the source: with q the first page of those that it touches that is not
      in the diff file, the part of q that it reads, or all of q for a write, is as the file of its address has it
      where the file stands, if the cached position is the offset of that address, else at that offset; everything
      else is as it is. */
  lemma WhatIsSeen(base: seq<seq<byte>>, h: nat, s: Snapshot, op: Op, q: nat, x: nat, y: nat)
    requires Served(h, s) && InRange(op, |s.image|) && |base| == |s.cache.offset| && y < |s.image|
    requires op.at / 4096 <= q <= (op.at + (if op.Read? then op.len else |op.data|) - 1) / 4096
    requires s.pages[q] == 0xFFFF_FFFF && forall r :: op.at / 4096 <= r < q ==> s.pages[r] != 0xFFFF_FFFF
    requires x == (if op.Read? && q * 4096 <= op.at then op.at else q * 4096) && x / h < |base|
    ensures var file, pos := base[x / h], if s.cache.point == x % h then s.cache.offset[x / h] else x % h;
            SeenBy(base, h, s, op)[y] == (if x <= y < q * 4096 + 4096 && (op.Read? ==> y < op.at + op.len)
                                          then (if pos + (y - x) < |file| then Some(file[pos + (y - x)]) else None)
                                          else s.image[y])
  {
    FirstIs(s.pages, op.at / 4096, q, LastPage(op.at, if op.Read? then op.len else |op.data|) + 1);
    SeenByIs(base, h, s, op, q);
  }

  lemma {:induction false} FirstIs(pages: seq<nat>, lo: nat, q: nat, end: nat)
    requires lo <= q < end <= |pages| && pages[q] == NO_PAGE && forall r :: lo <= r < q ==> pages[r] != NO_PAGE
    ensures FirstUnmapped(pages, lo, end) == Some(q)
    decreases q - lo
  {
    if lo < q { FirstIs(pages, lo + 1, q, end); }
  }

  /** With all of these pages in the diff file it sees the image as it is. */
  lemma NothingFromBase(base: seq<seq<byte>>, h: nat, s: Snapshot, op: Op)
    requires Served(h, s) && InRange(op, |s.image|)
    requires forall r :: op.at / 4096 <= r <= (op.at + (if op.Read? then op.len else |op.data|) - 1) / 4096 ==>
               r < |s.pages| && s.pages[r] != 0xFFFF_FFFF
    ensures SeenBy(base, h, s, op) == s.image
  {
    JobsFit(base, h, s, op);
    assert FirstBase(s, op).None?;
  }

  ghost predicate AlwaysSeesIt(lens: seq<nat>, h: nat, diff: seq<byte>, s: Snapshot, op: Op)
    requires h >= GIGA && |s.image| == |s.pages| * PAGE && InRange(op, |s.image|)
  {
    forall base :: Lengths(base) == lens ==> SeesItAsItIs(base, h, diff, s.pages, s.next, s.cache, op)
  }

  /** An operation sees the image as it is, whatever base files of these lengths hold, exactly when it is not misled. */
  lemma MisledExactly(lens: seq<nat>, h: nat, diff: seq<byte>, s: Snapshot, op: Op)
    requires h >= GIGA && |s.image| == |s.pages| * PAGE && InRange(op, |s.image|)
    requires forall q :: 0 <= q < |s.pages| ==> (q * PAGE) % h + PAGE <= h && (q * PAGE) / h < |lens|
    ensures AlwaysSeesIt(lens, h, diff, s, op) <==> NotMisled(lens, h, s, op)
  {
    var q := FirstBase(s, op);
    if q.Some? {
      var (x, n) := BasePart(s.pages, op, q.value);
      PartIsFresh(h, s, op, q.value);
      SeesExactly(lens, h, s.cache, diff, s.pages, q.value, x, n);
      SameForAll(lens, h, diff, s, op, q.value);
    } else {
      forall base | Lengths(base) == lens ensures SeesItAsItIs(base, h, diff, s.pages, s.next, s.cache, op) {
        SeesAll(base, h, diff, s, op);
      }
    }
  }

  lemma SameForAll(lens: seq<nat>, h: nat, diff: seq<byte>, s: Snapshot, op: Op, q: nat)
    requires h >= GIGA && |s.image| == |s.pages| * PAGE && InRange(op, |s.image|) && FirstBase(s, op) == Some(q)
    ensures var (x, n) := BasePart(s.pages, op, q);
            AlwaysSeesIt(lens, h, diff, s, op) == AlwaysSeesRight(lens, h, s.cache, diff, s.pages, x, n)
  {
    var (x, n) := BasePart(s.pages, op, q);
    forall base: seq<seq<byte>>
      ensures SeesItAsItIs(base, h, diff, s.pages, s.next, s.cache, op) == SeesRight(base, h, s.cache, diff, s.pages, x, n)
    {
      SeesItIs(base, h, diff, s, op, q);
    }
  }

  lemma PartIsFresh(h: nat, s: Snapshot, op: Op, q: nat)
    requires h >= GIGA && |s.image| == |s.pages| * PAGE && InRange(op, |s.image|) && FirstBase(s, op) == Some(q)
    requires (q * PAGE) % h + PAGE <= h
    ensures var (x, n) := BasePart(s.pages, op, q); InFreshPage(h, s.pages, q, x, n)
    ensures BaseAddress(s, op) == Some(BasePart(s.pages, op, q).0)
  {
  }

  lemma SeesAll(base: seq<seq<byte>>, h: nat, diff: seq<byte>, s: Snapshot, op: Op)
    requires h >= GIGA && |s.image| == |s.pages| * PAGE && InRange(op, |s.image|) && FirstBase(s, op).None?
    ensures SeesItAsItIs(base, h, diff, s.pages, s.next, s.cache, op)
  {
    JobsFit(base, h, Snapshot(Image(base, h, diff, s.pages), s.pages, s.next, s.cache), op);
  }

  /** An unmapped page shows the file. */
  lemma FreshPageShowsFile(s: Server, p: nat)
    requires s.Valid() && s.hunkSize == NO_POINT && p < s.difmap.Length && s.difmap[p] == NO_PAGE
    requires |s.files.contents[0]| >= p * PAGE + PAGE
    ensures p * PAGE + PAGE <= s.exportSize
    ensures Shows(s.View(), p * PAGE, s.files.contents[0][p * PAGE..p * PAGE + PAGE])
  {
    s.SingleFileCache();
    s.PageFacts(p);
    assert (p * PAGE) / s.hunkSize == 0 && (p * PAGE) % s.hunkSize == p * PAGE;
    UnmappedPage(s.Base(), s.hunkSize, s.Diff(), s.difmap[..], p);
    ReadInPage(s.View(), p * PAGE, s.files.contents[0], p * PAGE, 0, PAGE, p * PAGE);
  }

  lemma TwoReads(c: Cache, pages: seq<nat>)
    requires |pages| >= 2 && |c.offset| == 1 && pages[0] == NO_PAGE && pages[1] == NO_PAGE
    requires Position(c, NO_POINT, 0) == 0
    ensures AfterReads(c, NO_POINT, pages, 0, 2, 0, 2 * PAGE) == Cache(PAGE, [2 * PAGE])
  {
    AfterPart(c, NO_POINT, pages, 0, 0, 0, 2 * PAGE, 0, PAGE);
    AfterPart(c, NO_POINT, pages, 0, 1, 0, 2 * PAGE, PAGE, PAGE);
  }

  /** A read of two fresh pages leaves the file after them but the cached position one page further. */
  method ReadTwoFreshPages(s: Server)
    requires s.Valid() && s.CacheSound() && s.hunkSize == NO_POINT && s.exportSize >= 2 * PAGE
    requires s.difmap[0] == NO_PAGE && s.difmap[1] == NO_PAGE && |s.files.contents[0]| >= 2 * PAGE
    modifies s`lastPoint, s.files`offset
    ensures s.Valid() && s.Seeks() == Cache(3 * PAGE, [2 * PAGE])
  {
    ghost var file, j := s.files.contents[0], s.CowReadFound(0, 2 * PAGE);
    OneHunk(s);
    FreshPageShowsFile(s, 0);
    FreshPageShowsFile(s, 1);
    ShowsJoin(s.View(), 0, file[..PAGE], PAGE, file[PAGE..2 * PAGE]);
    ShownIsPresent(s.View(), 0, file[..PAGE] + file[PAGE..2 * PAGE]);
    s.ReadFits(0, 2 * PAGE);
    SeesAllRight(s, 0, 2 * PAGE);
    SoundForAll(s);
    assert SeekSafe(s.Seeks().point, s.Seeks().offset, s.hunkSize, 0);
    TwoReads(s.Seeks(), s.difmap[..]);
    var ok, data := s.ServeCowRead(0, 2 * PAGE, j);
  }

  lemma OneHunk(s: Server)
    requires s.files.Valid() && s.Shape() && s.hunkSize == NO_POINT
    ensures s.hunks == 1
  {
    s.SingleFileCache();
  }

  /** With a sound cache a read sees the image as it is. */
  lemma SeesAllRight(s: Server, a: nat, len: nat)
    requires s.Valid() && s.CacheSound() && s.hunkSize == NO_POINT && 1 <= len <= BUFSIZE && a + len <= s.exportSize
    requires s.CowReadFound(a, len).Sized()
    ensures s.CowReadFound(a, len).SeenImage() == s.View()
  {
    AllBasesShown(s);
    SoundForAll(s);
    SoundSees(s.Base(), s.hunkSize, s.Here(), a, len);
  }

  lemma SoundSees(base: seq<seq<byte>>, h: nat, s: Snapshot, a: nat, len: nat)
    requires Served(h, s) && InRange(Read(a, len), |s.image|) && BasesShown(base, h, s) && |base| == |s.cache.offset|
    requires forall b :: 0 <= b < |s.image| ==> SeekSafe(s.cache.point, s.cache.offset, h, b)
    ensures ReadJobOf(base, h, s, a, len).Sized() && ReadJobOf(base, h, s, a, len).SeenImage() == s.image
  {
    JobsFit(base, h, s, Read(a, len));
    SoundIsNotMisled(Lengths(base), h, s, Read(a, len));
    SeesFlat(base, h, s, Read(a, len));
  }

  lemma SoundForAll(s: Server)
    requires s.Valid() && s.CacheSound()
    ensures forall b :: 0 <= b < s.exportSize ==> SeekSafe(s.Seeks().point, s.Seeks().offset, s.hunkSize, b)
  {
    forall b | 0 <= b < s.exportSize ensures SeekSafe(s.Seeks().point, s.Seeks().offset, s.hunkSize, b) {
      s.HunkOf(b);
      assert SeekSafe(s.lastPoint, s.files.offset, s.hunkSize, b);
      assert s.files.offset[b / s.hunkSize] == s.Seeks().offset[b / s.hunkSize];
    }
  }

  /** So the next read, of page 3, gets the bytes of page 2. */
  method StaleCopyOnWriteRead(s: Server) returns (ok: bool, asked: seq<byte>)
    requires s.Valid() && s.CacheSound() && s.hunkSize == NO_POINT && s.exportSize >= 5 * PAGE
    requires forall p :: 0 <= p < 5 ==> s.difmap[p] == NO_PAGE
    requires |s.files.contents[0]| >= 5 * PAGE
    modifies s`lastPoint, s.files`offset
    ensures s.Valid() && ok && asked == s.files.contents[0][2 * PAGE..3 * PAGE]
    ensures Shows(s.View(), 3 * PAGE, s.files.contents[0][3 * PAGE..4 * PAGE])
  {
    ReadTwoFreshPages(s);
    OneHunk(s);
    FreshPageShowsFile(s, 3);
    ok, asked := ReadFourthPage(s);
  }

  method ReadFourthPage(s: Server) returns (ok: bool, asked: seq<byte>)
    requires s.Valid() && s.hunkSize == NO_POINT && s.exportSize >= 5 * PAGE && s.difmap[3] == NO_PAGE && s.hunks == 1
    requires |s.files.contents[0]| >= 5 * PAGE && s.Seeks() == Cache(3 * PAGE, [2 * PAGE])
    modifies s`lastPoint, s.files`offset
    ensures s.Valid() && ok && asked == s.files.contents[0][2 * PAGE..3 * PAGE]
  {
    ghost var j, file := s.CowReadFound(3 * PAGE, PAGE), s.files.contents[0];
    s.ReadFits(3 * PAGE, PAGE);
    ThirdPageSeen(j, file);
    ok, asked := s.ServeCowRead(3 * PAGE, PAGE, j);
    if ok { SameShown(j.SeenImage(), 3 * PAGE, asked, file[2 * PAGE..3 * PAGE]); }
  }

  lemma ThirdPageSeen(j: ReadJob, file: seq<byte>)
    requires j.Sized() && j.lo == j.hi == 3 && j.a == 3 * PAGE && j.stop == 4 * PAGE && j.h == NO_POINT && j.base == [file]
    requires j.start.pages[3] == NO_PAGE && j.start.cache == Cache(3 * PAGE, [2 * PAGE]) && |file| >= 5 * PAGE
    ensures 4 * PAGE <= |j.SeenImage()|
    ensures Present(j.SeenImage(), 3 * PAGE, PAGE) && Shows(j.SeenImage(), 3 * PAGE, file[2 * PAGE..3 * PAGE])
  {
    var v := j.start.image;
    assert FirstUnmapped(j.start.pages, 3, 4) == Some(3);
    assert j.SeenImage() == Seen(v, [file], NO_POINT, j.start.cache, 3 * PAGE, PAGE);
    InSingleFile(file, j.start.cache, 3 * PAGE);
    SeenIs(v, [file], NO_POINT, j.start.cache, 3 * PAGE, PAGE, file, 2 * PAGE);
    PartOfFile(FromFile(v, file, 2 * PAGE, 3 * PAGE, PAGE), file, 2 * PAGE, 3 * PAGE, PAGE);
    assert ReadAt(file, 2 * PAGE, PAGE) == file[2 * PAGE..3 * PAGE];
  }

  lemma InSingleFile(file: seq<byte>, c: Cache, x: nat)
    requires x < NO_POINT && |c.offset| == 1
    ensures FileAt([file], NO_POINT, x) == file
    ensures Position(c, NO_POINT, x) == if c.point == x then c.offset[0] else x
  {
  }

  lemma SameShown(v: seq<Option<byte>>, a: nat, d: seq<byte>, e: seq<byte>)
    requires Shows(v, a, d) && Shows(v, a, e) && |d| == |e|
    ensures d == e
  {
    forall i | 0 <= i < |d| ensures d[i] == e[i] { assert v[a + i] == Some(d[i]) == Some(e[i]); }
  }

  /** With more than one file, reading the first sector of the first file makes a read of the second sector of the second
      file deliver its first sector. */
  method StaleSecondFileRead(s: Server) returns (ok: bool, asked: seq<byte>)
    requires s.files.Valid() && s.Shape() && !s.cow && s.hunkSize == GIGA && s.exportSize >= GIGA + 1024
    requires s.lastPoint == NO_POINT && s.files.offset[1] == 0
    requires |s.files.contents[0]| >= 512 && |s.files.contents[1]| >= 1024
    modifies s`lastPoint, s.files`offset
    ensures ok && asked == s.files.contents[1][..512]
  {
    ghost var c := s.Seeks();
    var first, data := s.ServeHunkRead(0, 512);
    assert (GIGA + 512) / GIGA == 1 && (GIGA + 512) % GIGA == 512;
    ok, asked := s.ServeHunkRead(GIGA + 512, 512);
  }
}
