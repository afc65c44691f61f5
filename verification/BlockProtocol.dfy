/** The request stream of the network block protocol, and what a server of one flat file must answer to it. */
module BlockProtocol {
  import opened Arithmetic
  import opened Files
  import opened Overlay

  const REQUEST_MAGIC := 0x25609513
  const REPLY_MAGIC := 0x67446698
  const HEADER := 28
  const REPLY := 16

  /** Big-endian number of n bytes. */
  function ToBE(x: nat, n: nat): (r: seq<byte>)
    ensures |r| == n
  {
    if n == 0 then [] else ToBE(x / 256, n - 1) + [(x % 256) as byte]
  }

  function FromBE(s: seq<byte>): nat {
    if s == [] then 0 else 256 * FromBE(s[..|s| - 1]) + s[|s| - 1] as nat
  }

  function Pow256(n: nat): nat { if n == 0 then 1 else 256 * Pow256(n - 1) }

  lemma {:induction false} BERoundTrip(x: nat, n: nat)
    requires x < Pow256(n)
    ensures FromBE(ToBE(x, n)) == x
  {
    if n > 0 {
      BERoundTrip(x / 256, n - 1);
      assert ToBE(x, n)[..n - 1] == ToBE(x / 256, n - 1);
    }
  }

  lemma {:induction false} Below(s: seq<byte>)
    ensures FromBE(s) < Pow256(|s|)
  {
    if s != [] { Below(s[..|s| - 1]); }
  }

  lemma Below32(s: seq<byte>)
    requires |s| == 4
    ensures FromBE(s) < U32
  {
    Below(s);
    PowersOf256();
  }

  lemma PowersOf256()
    ensures Pow256(4) == 0x1_0000_0000 && Pow256(8) == 0x1_0000_0000_0000_0000
  {
    assert Pow256(2) == 0x1_0000;
    assert Pow256(4) == 256 * (256 * Pow256(2));
    assert Pow256(6) == 256 * (256 * Pow256(4));
    assert Pow256(8) == 256 * (256 * Pow256(6));
  }

  datatype Header = Header(magic: nat, kind: nat, handle: seq<byte>, from: nat, len: nat)

  /** struct nbd_request, packed, in network order. */
  function Parse(s: seq<byte>): (h: Header)
    requires |s| == HEADER
    ensures h.len < U32 && |h.handle| == 8
  {
    Below32(s[24..28]);
    Header(FromBE(s[..4]), FromBE(s[4..8]), s[8..16], FromBE(s[16..24]), FromBE(s[24..28]))
  }

  function Print(h: Header): (s: seq<byte>)
    requires |h.handle| == 8
    ensures |s| == HEADER
  {
    ToBE(h.magic, 4) + ToBE(h.kind, 4) + h.handle + ToBE(h.from, 8) + ToBE(h.len, 4)
  }

  lemma ParsePrint(h: Header)
    requires |h.handle| == 8 && h.magic < U32 && h.kind < U32 && h.from < U64 && h.len < U32
    ensures Parse(Print(h)) == h
  {
    PowersOf256();
    BERoundTrip(h.magic, 4);
    BERoundTrip(h.kind, 4);
    BERoundTrip(h.from, 8);
    BERoundTrip(h.len, 4);
    var s := Print(h);
    assert s[..4] == ToBE(h.magic, 4) && s[4..8] == ToBE(h.kind, 4) && s[8..16] == h.handle;
    assert s[16..24] == ToBE(h.from, 8) && s[24..28] == ToBE(h.len, 4);
  }

  /** struct nbd_reply. */
  function Reply(error: nat, handle: seq<byte>): (s: seq<byte>)
    requires |handle| == 8
    ensures |s| == REPLY && s[8..] == handle
  {
    ToBE(REPLY_MAGIC, 4) + ToBE(error, 4) + handle
  }

  function Success(handle: seq<byte>): seq<byte>
    requires |handle| == 8
  {
    Reply(0, handle)
  }

  function Failure(handle: seq<byte>): seq<byte>
    requires |handle| == 8
  {
    Reply(U32 - 1, handle)
  }

  /** What the server exports: its size, whether it may be written, and how large the file may grow. */
  datatype Export = Export(size: nat, readOnly: bool, limit: nat)

  datatype Stop =
    | InputEnded      // readit: "Read failed"
    | Disconnected
    | NotEnoughMagic
    | TooBig
    | OutsideExport   // maybeseek: "Can not happen"
    | Undefined       // the C program has no defined behaviour from here on
    | Running

  /** The file, what has been sent and how the session stands. */
  datatype Session = Session(content: seq<byte>, output: seq<byte>, stop: Stop)

  /** A length as the int of 32 bits in which the program keeps it. */
  function AsInt(len: nat): int { if len >= U32 / 2 then len - U32 else len }

  /** The answer to one request whose header has been read; rest is the input after the header. */
  function Answer(e: Export, content: seq<byte>, h: Header, rest: seq<byte>): (r: (Session, nat))
    requires |h.handle| == 8
    ensures r.1 <= |rest|
  {
    if h.kind == 2 then (Session(content, [], Disconnected), 0)
    else if h.magic != REQUEST_MAGIC then (Session(content, [], NotEnoughMagic), 0)
    else if AsInt(h.len) > BUFSIZE then (Session(content, [], TooBig), 0)
    else if (h.from + AsInt(h.len)) % U64 > e.size || (e.readOnly && h.kind != 0) then
      (Session(content, Failure(h.handle), Running), 0)
    else if AsInt(h.len) < 0 then (Session(content, [], Undefined), 0)
    else if h.kind == 1 then
      if |rest| < h.len then (Session(content, [], InputEnded), 0)
      else if h.from >= NO_POINT then (Session(content, [], Undefined), h.len)
      else if h.from > e.size then (Session(content, [], OutsideExport), h.len)
      else
        var n := Fitting(e.limit, h.from, h.len);
        (Session(Splice(content, h.from, rest[..n]),
                 if n == h.len then Success(h.handle) else Failure(h.handle), Running), h.len)
    else if h.len > BUFSIZE - REPLY || h.from >= NO_POINT then (Session(content, [], Undefined), 0)
    else if h.from > e.size then (Session(content, [], OutsideExport), 0)
    else
      var data := ReadAt(content, h.from, h.len);
      (Session(content, if |data| == h.len then Success(h.handle) + data else Failure(h.handle), Running), 0)
  }

  /** The whole session over an input stream, for a server that keeps one flat file and nothing else. */
  function Serve(e: Export, content: seq<byte>, input: seq<byte>): Session
    decreases |input|
  {
    if |input| < HEADER then Session(content, [], InputEnded)
    else
      var (s, used) := Answer(e, content, Parse(input[..HEADER]), input[HEADER..]);
      if s.stop != Running then s
      else
        Prefixed(s.output, Serve(e, s.content, input[HEADER + used..]))
  }

  /** A session whose output comes after some other. */
  function Prefixed(sent: seq<byte>, s: Session): Session {
    s.(output := sent + s.output)
  }

  lemma PrefixedTwice(first: seq<byte>, second: seq<byte>, s: Session)
    ensures Prefixed(first, Prefixed(second, s)) == Prefixed(first + second, s)
  {
    assert first + (second + s.output) == first + second + s.output;
  }

  /** A request header as it comes over the wire: magic number, kind, handle, address and length, each number with the
      most significant byte first. */
  lemma OnTheWire(s: seq<byte>)
    requires |s| == 28
    ensures var h := Parse(s);
            && (h.magic == REQUEST_MAGIC <==> s[..4] == [0x25, 0x60, 0x95, 0x13])
            && h.kind == s[4] as nat * 0x100_0000 + s[5] as nat * 0x1_0000 + s[6] as nat * 256 + s[7] as nat
            && h.handle == s[8..16]
            && h.from == (s[16] as nat * 0x100_0000 + s[17] as nat * 0x1_0000 + s[18] as nat * 256 + s[19] as nat)
                         * 0x1_0000_0000
                         + s[20] as nat * 0x100_0000 + s[21] as nat * 0x1_0000 + s[22] as nat * 256 + s[23] as nat
            && h.len == s[24] as nat * 0x100_0000 + s[25] as nat * 0x1_0000 + s[26] as nat * 256 + s[27] as nat
  {
    FromFour(s[..4]);
    FromFour(s[4..8]);
    FromFour(s[24..28]);
    AddressBytes(s[16..24]);
    MagicBytes(s[..4]);
  }

  lemma AddressBytes(s: seq<byte>)
    requires |s| == 8
    ensures FromBE(s) == (s[0] as nat * 0x100_0000 + s[1] as nat * 0x1_0000 + s[2] as nat * 256 + s[3] as nat)
                         * 0x1_0000_0000
                         + s[4] as nat * 0x100_0000 + s[5] as nat * 0x1_0000 + s[6] as nat * 256 + s[7] as nat
  {
    FromEight(s);
    FromFour(s[..4]);
    FromFour(s[4..]);
  }

  lemma MagicBytes(s: seq<byte>)
    requires |s| == 4
    ensures FromBE(s) == REQUEST_MAGIC <==> s == [0x25, 0x60, 0x95, 0x13]
  {
    FromFour(s);
  }

  /** What ends a session, and which requests are turned down, in the order of the checks. A disconnect request needs no
      magic number. The length is a signed number of 32 bits for the program, and its sum with the address is taken in 64
      bits. A request of any other kind than 1 and 2 is a read. */
  lemma TurnedDown(e: Export, content: seq<byte>, h: Header, input: seq<byte>)
    requires |input| >= 28 && h == Parse(input[..28])
    ensures var s := Serve(e, content, input);
            var len := if h.len >= 0x8000_0000 then h.len - 0x1_0000_0000 else h.len;
            if h.kind == 2 then s == Session(content, [], Disconnected)
            else if input[..4] != [0x25, 0x60, 0x95, 0x13] then s == Session(content, [], NotEnoughMagic)
            else if len > 1048576 then s == Session(content, [], TooBig)
            else if (h.from + len) % 0x1_0000_0000_0000_0000 > e.size || (e.readOnly && h.kind != 0) then
              s == Prefixed([0x67, 0x44, 0x66, 0x98] + [255, 255, 255, 255] + h.handle, Serve(e, content, input[28..]))
            else if len < 0 then s == Session(content, [], Undefined)
            else if h.kind == 1 && |input| < 28 + h.len then s == Session(content, [], InputEnded)
            else if h.from >= 0xFFFF_FFFF_FFFF_FFFF then s == Session(content, [], Undefined)
            else if h.kind != 1 && h.len > 1048560 then s == Session(content, [], Undefined)
            else if h.from > e.size then s == Session(content, [], OutsideExport)
            else h.kind != 1 ==> Answer(e, content, h, input[28..]) == Answer(e, content, h.(kind := 0), input[28..])
  {
    OnTheWire(input[..28]);
    assert input[..28][..4] == input[..4];
    HeaderBytes(h.handle);
    Verdict(e, content, h, input[28..]);
    var (s, used) := Answer(e, content, h, input[28..]);
    if s.stop == Running { ServeNext(e, content, input, s, used); }
  }

  /** The same for the answer to the header alone. */
  lemma Verdict(e: Export, content: seq<byte>, h: Header, rest: seq<byte>)
    requires |h.handle| == 8 && h.len < U32
    ensures var (s, used) := Answer(e, content, h, rest);
            var len := if h.len >= 0x8000_0000 then h.len - 0x1_0000_0000 else h.len;
            if h.kind == 2 then s == Session(content, [], Disconnected)
            else if h.magic != REQUEST_MAGIC then s == Session(content, [], NotEnoughMagic)
            else if len > 1048576 then s == Session(content, [], TooBig)
            else if (h.from + len) % 0x1_0000_0000_0000_0000 > e.size || (e.readOnly && h.kind != 0) then
              s == Session(content, Failure(h.handle), Running) && used == 0
            else if len < 0 then s == Session(content, [], Undefined)
            else if h.kind == 1 && |rest| < h.len then s == Session(content, [], InputEnded)
            else if h.from >= 0xFFFF_FFFF_FFFF_FFFF then s == Session(content, [], Undefined)
            else if h.kind != 1 && h.len > 1048560 then s == Session(content, [], Undefined)
            else if h.from > e.size then s == Session(content, [], OutsideExport)
            else h.kind != 1 ==> Answer(e, content, h, rest) == Answer(e, content, h.(kind := 0), rest)
  {
  }

  /** A request as a client makes it. */
  datatype Request = Request(write: bool, handle: seq<byte>, from: nat, len: nat, payload: seq<byte>)

  function HeaderOf(q: Request): Header {
    Header(REQUEST_MAGIC, if q.write then 1 else 0, q.handle, q.from, q.len)
  }

  function Encode(q: Request): seq<byte>
    requires |q.handle| == 8
  {
    Print(HeaderOf(q)) + q.payload
  }

  /** A request that a client may send: a write carries its payload. */
  predicate WellFormed(q: Request) {
    && |q.handle| == 8 && q.from + q.len < U64 - 1
    && q.len <= (if q.write then BUFSIZE else BUFSIZE - REPLY)
    && |q.payload| == (if q.write then q.len else 0)
  }

  predicate Accepted(e: Export, q: Request) {
    q.from + q.len <= e.size && !(e.readOnly && q.write)
  }

  /** All but rejected writes with a payload. */
  predicate KeepsFraming(e: Export, q: Request) {
    q.write && !Accepted(e, q) ==> q.len == 0
  }

  function EncodeAll(qs: seq<Request>): seq<byte>
    requires forall q :: q in qs ==> |q.handle| == 8
  {
    if qs == [] then [] else Encode(qs[0]) + EncodeAll(qs[1..])
  }

  /** The effect of one request on the file. */
  function FileAfter(e: Export, content: seq<byte>, q: Request): seq<byte> {
    if q.write && Accepted(e, q) && |q.payload| == q.len
    then Splice(content, q.from, q.payload[..Fitting(e.limit, q.from, q.len)]) else content
  }

  /** The one reply that a request gets. */
  function ReplyTo(e: Export, content: seq<byte>, q: Request): seq<byte>
    requires |q.handle| == 8
  {
    if !Accepted(e, q) then Failure(q.handle)
    else if q.write then
      if Fitting(e.limit, q.from, q.len) == q.len then Success(q.handle) else Failure(q.handle)
    else
      var data := ReadAt(content, q.from, q.len);
      if |data| == q.len then Success(q.handle) + data else Failure(q.handle)
  }

  function FileAfterAll(e: Export, content: seq<byte>, qs: seq<Request>): seq<byte>
    decreases |qs|
  {
    if qs == [] then content else FileAfterAll(e, FileAfter(e, content, qs[0]), qs[1..])
  }

  function RepliesTo(e: Export, content: seq<byte>, qs: seq<Request>): (rs: seq<seq<byte>>)
    requires forall q :: q in qs ==> |q.handle| == 8
    ensures |rs| == |qs|
    decreases |qs|
  {
    if qs == [] then [] else [ReplyTo(e, content, qs[0])] + RepliesTo(e, FileAfter(e, content, qs[0]), qs[1..])
  }

  function Concat(parts: seq<seq<byte>>): seq<byte> {
    if parts == [] then [] else parts[0] + Concat(parts[1..])
  }

  lemma AnswerOne(e: Export, content: seq<byte>, q: Request, rest: seq<byte>)
    requires WellFormed(q) && e.size < U64 / 2 && KeepsFraming(e, q)
    ensures Answer(e, content, HeaderOf(q), q.payload + rest)
         == (Session(FileAfter(e, content, q), ReplyTo(e, content, q), Running), |q.payload|)
  {
    var n := Fitting(e.limit, q.from, q.len);
    if q.write { assert (q.payload + rest)[..n] == q.payload[..n]; }
  }

  lemma EncodedSplits(q: Request, rest: seq<byte>)
    requires WellFormed(q)
    ensures var input := Encode(q) + rest;
            && |input| >= HEADER + |q.payload| && |Encode(q)| == HEADER + |q.payload|
            && Parse(input[..HEADER]) == HeaderOf(q)
            && input[HEADER..] == q.payload + rest
            && input[HEADER + |q.payload|..] == rest
  {
    var input := Encode(q) + rest;
    ParsePrint(HeaderOf(q));
    assert input[..HEADER] == Print(HeaderOf(q));
  }

  /** One request at the head of the stream is answered by its one reply and consumes exactly its own bytes. */
  lemma ServeOne(e: Export, content: seq<byte>, q: Request, rest: seq<byte>)
    requires WellFormed(q) && e.size < U64 / 2 && KeepsFraming(e, q)
    ensures |Encode(q)| == HEADER + |q.payload|
    ensures Serve(e, content, Encode(q) + rest)
         == Prefixed(ReplyTo(e, content, q), Serve(e, FileAfter(e, content, q), rest))
  {
    EncodedSplits(q, rest);
    AnswerOne(e, content, q, rest);
    ServeNext(e, content, Encode(q) + rest, Session(FileAfter(e, content, q), ReplyTo(e, content, q), Running), |q.payload|);
  }

  /** One unfolding of the server. */
  lemma ServeNext(e: Export, content: seq<byte>, input: seq<byte>, s: Session, used: nat)
    requires |input| >= HEADER && s.stop == Running
    requires Answer(e, content, Parse(input[..HEADER]), input[HEADER..]) == (s, used)
    ensures Serve(e, content, input) == Prefixed(s.output, Serve(e, s.content, input[HEADER + used..]))
  {
  }

  /** Framing: a stream of well-formed requests without rejected payloads gets exactly one reply for each request, in
      order, and the file ends as the writes leave it. Replies to failed requests do not affect later ones. */
  lemma {:induction false} Framing(e: Export, content: seq<byte>, qs: seq<Request>)
    requires e.size < U64 / 2
    requires forall q :: q in qs ==> |q.handle| == 8
    requires forall q :: q in qs ==> WellFormed(q) && KeepsFraming(e, q)
    ensures Serve(e, content, EncodeAll(qs))
         == Session(FileAfterAll(e, content, qs), Concat(RepliesTo(e, content, qs)), InputEnded)
    decreases |qs|
  {
    if qs != [] {
      var content' := FileAfter(e, content, qs[0]);
      ServeOne(e, content, qs[0], EncodeAll(qs[1..]));
      Framing(e, content', qs[1..]);
      var rs := RepliesTo(e, content, qs);
      assert rs[1..] == RepliesTo(e, content', qs[1..]);
    }
  }

  /** The first half of a reply, byte by byte. */
  lemma HeaderBytes(handle: seq<byte>)
    requires |handle| == 8
    ensures Success(handle) == [0x67, 0x44, 0x66, 0x98] + [0, 0, 0, 0] + handle
    ensures Failure(handle) == [0x67, 0x44, 0x66, 0x98] + [255, 255, 255, 255] + handle
  {
    FourBytes(REPLY_MAGIC);
    FourBytes(0);
    FourBytes(U32 - 1);
  }

  /** Numbers go over the wire with the most significant byte first. */
  lemma FourBytes(x: nat)
    ensures ToBE(x, 4) == [(x / 0x100_0000 % 256) as byte, (x / 0x1_0000 % 256) as byte, (x / 256 % 256) as byte,
                           (x % 256) as byte]
  {
    assert ToBE(x, 4) == ToBE(x / 256, 3) + [(x % 256) as byte];
    assert ToBE(x / 256, 3) == ToBE(x / 256 / 256, 2) + [(x / 256 % 256) as byte];
    assert ToBE(x / 256 / 256, 2) == ToBE(x / 256 / 256 / 256, 1) + [(x / 256 / 256 % 256) as byte];
    assert ToBE(x / 256 / 256 / 256, 1) == [(x / 256 / 256 / 256 % 256) as byte];
    assert x / 256 / 256 == x / 0x1_0000 && x / 256 / 256 / 256 == x / 0x100_0000;
  }

  lemma EightBytes(x: nat)
    ensures ToBE(x, 8) == ToBE(x / 0x1_0000_0000, 4) + ToBE(x, 4)
  {
    FourBytes(x);
    var y := x / 256 / 256 / 256 / 256;
    assert ToBE(x, 8) == ToBE(x / 256, 7) + [(x % 256) as byte];
    assert ToBE(x / 256, 7) == ToBE(x / 256 / 256, 6) + [(x / 256 % 256) as byte];
    assert ToBE(x / 256 / 256, 6) == ToBE(x / 256 / 256 / 256, 5) + [(x / 256 / 256 % 256) as byte];
    assert ToBE(x / 256 / 256 / 256, 5) == ToBE(y, 4) + [(x / 256 / 256 / 256 % 256) as byte];
    assert x / 256 / 256 == x / 0x1_0000 && x / 256 / 256 / 256 == x / 0x100_0000 && y == x / 0x1_0000_0000;
  }

  lemma FromFour(s: seq<byte>)
    requires |s| == 4
    ensures FromBE(s) == s[0] as nat * 0x100_0000 + s[1] as nat * 0x1_0000 + s[2] as nat * 256 + s[3] as nat
  {
    assert s[..3][..2] == s[..2] && s[..2][..1] == s[..1] && s[..1][..0] == [];
    assert FromBE(s[..1]) == s[0] as nat;
    assert FromBE(s[..2]) == 256 * FromBE(s[..1]) + s[1] as nat;
    assert FromBE(s[..3]) == 256 * FromBE(s[..2]) + s[2] as nat;
  }

  lemma FromEight(s: seq<byte>)
    requires |s| == 8
    ensures FromBE(s) == FromBE(s[..4]) * 0x1_0000_0000 + FromBE(s[4..])
  {
    FromFour(s[4..]);
    assert s[..7][..6] == s[..6] && s[..6][..5] == s[..5] && s[..5][..4] == s[..4];
    assert FromBE(s[..5]) == 256 * FromBE(s[..4]) + s[4] as nat;
    assert FromBE(s[..6]) == 256 * FromBE(s[..5]) + s[5] as nat;
    assert FromBE(s[..7]) == 256 * FromBE(s[..6]) + s[6] as nat;
  }

  /** Byte x of the file after a run of requests is that of the last write among them that was carried out there and
      covers it: such a write is inside an export that may be written, and x below the limit of the file. */
  lemma {:induction false} LastWriteWins(e: Export, content: seq<byte>, qs: seq<Request>, x: nat, i: nat)
    requires i <= |qs| && forall j :: 0 <= j < |qs| ==> |qs[j].payload| == (if qs[j].write then qs[j].len else 0)
    requires !e.readOnly && x < e.limit
    requires forall j :: i <= j < |qs| ==>
               !(qs[j].write && qs[j].from + qs[j].len <= e.size && qs[j].from <= x < qs[j].from + qs[j].len)
    ensures var after := FileAfterAll(e, content, qs);
            && (i == 0 && x < |content| ==> x < |after| && after[x] == content[x])
            && (i > 0 && qs[i - 1].write && qs[i - 1].from + qs[i - 1].len <= e.size
                && qs[i - 1].from <= x < qs[i - 1].from + qs[i - 1].len ==>
                  x < |after| && after[x] == qs[i - 1].payload[x - qs[i - 1].from])
    decreases |qs|
  {
    if qs != [] {
      LastWriteWins(e, FileAfter(e, content, qs[0]), qs[1..], x, if i > 0 then i - 1 else 0);
    }
  }

  /** A single request: what of a write inside an export that may be written lies below the limit goes into the file, and
      nothing else changes. */
  lemma FileAfterByte(e: Export, content: seq<byte>, q: Request, x: nat)
    requires |q.payload| == (if q.write then q.len else 0)
    ensures var after := FileAfter(e, content, q);
            var fits := if e.limit <= q.from then 0 else if q.from + q.len <= e.limit then q.len else e.limit - q.from;
            var n := if q.write && !e.readOnly && q.from + q.len <= e.size then fits else 0;
            && |after| == (if n > 0 && q.from + n > |content| then q.from + n else |content|)
            && (x < |after| ==> after[x] == if q.from <= x < q.from + n then q.payload[x - q.from]
                                            else if x < |content| then content[x] else 0)
  {
  }

  /** The one reply to a request: the magic number, whether it has worked (error 0) or not (error -1), the handle, and,
      after a read that has worked, the bytes. */
  lemma ReplyBytes(e: Export, content: seq<byte>, q: Request)
    requires |q.handle| == 8
    ensures var r := ReplyTo(e, content, q);
            var works := q.from + q.len <= e.size && !(e.readOnly && q.write)
                         && (q.len == 0 || q.from + q.len <= (if q.write then e.limit else |content|));
            && |r| == (if works && !q.write then 16 + q.len else 16)
            && r[..4] == [0x67, 0x44, 0x66, 0x98]
            && r[4..8] == (if works then [0, 0, 0, 0] else [255, 255, 255, 255])
            && r[8..16] == q.handle
            && (works && !q.write ==>
                  forall x :: q.from <= x < q.from + q.len ==> x < |content| && r[16 + (x - q.from)] == content[x])
  {
    HeaderBytes(q.handle);
    var data := ReadAt(content, q.from, q.len);
    BytesAfter([0x67, 0x44, 0x66, 0x98], [0, 0, 0, 0], q.handle, data);
    BytesAfter([0x67, 0x44, 0x66, 0x98], [0, 0, 0, 0], q.handle, []);
    BytesAfter([0x67, 0x44, 0x66, 0x98], [255, 255, 255, 255], q.handle, []);
  }

  lemma BytesAfter(magic: seq<byte>, error: seq<byte>, handle: seq<byte>, data: seq<byte>)
    requires |magic| == |error| == 4 && |handle| == 8
    ensures var r := magic + error + handle + data;
            && r[..4] == magic && r[4..8] == error && r[8..16] == handle
            && (forall k :: 16 <= k < |r| ==> r[k] == data[k - 16])
            && (data == [] ==> r == magic + error + handle)
  {
  }

  /** Reply number i is the reply to request i on the file as it was when that came up. */
  lemma {:induction false} ReplyInTurn(e: Export, content: seq<byte>, qs: seq<Request>, i: nat)
    requires i < |qs| && forall q :: q in qs ==> |q.handle| == 8
    ensures RepliesTo(e, content, qs)[i] == ReplyTo(e, FileAfterAll(e, content, qs[..i]), qs[i])
    decreases i
  {
    if i > 0 {
      ReplyInTurn(e, FileAfter(e, content, qs[0]), qs[1..], i - 1);
      assert qs[..i][1..] == qs[1..][..i - 1];
      assert RepliesTo(e, content, qs)[i] == RepliesTo(e, FileAfter(e, content, qs[0]), qs[1..])[i - 1];
    } else {
      assert FileAfterAll(e, content, qs[..0]) == content;
    }
  }

  /** So reply number i answers request i, by what the file then had; failures affect no later reply. */
  lemma ReplyShape(e: Export, content: seq<byte>, qs: seq<Request>, i: nat)
    requires i < |qs| && forall q :: q in qs ==> |q.handle| == 8
    ensures var r, q := RepliesTo(e, content, qs)[i], qs[i];
            var before := FileAfterAll(e, content, qs[..i]);
            var works := q.from + q.len <= e.size && !(e.readOnly && q.write)
                         && (q.len == 0 || q.from + q.len <= (if q.write then e.limit else |before|));
            && |r| == (if works && !q.write then 16 + q.len else 16)
            && r[..4] == [0x67, 0x44, 0x66, 0x98]
            && r[4..8] == (if works then [0, 0, 0, 0] else [255, 255, 255, 255])
            && r[8..16] == q.handle
            && (works && !q.write ==>
                  forall x :: q.from <= x < q.from + q.len ==> x < |before| && r[16 + (x - q.from)] == before[x])
  {
    ReplyInTurn(e, content, qs, i);
    ReplyBytes(e, FileAfterAll(e, content, qs[..i]), qs[i]);
  }

  lemma StatusesDiffer(handle: seq<byte>)
    requires |handle| == 8
    ensures Success(handle) != Failure(handle)
  {
    assert Success(handle)[7] == 0 && Failure(handle)[7] == 255 by {
      assert ToBE(0, 4)[3] == 0 && ToBE(U32 - 1, 4)[3] == 255;
    }
  }

  /** A rejected write: its payload is not read, so it is taken for the next requests. */
  lemma RejectedWrite(e: Export, content: seq<byte>, q: Request, rest: seq<byte>)
    requires WellFormed(q) && e.size < U64 / 2 && q.write && !Accepted(e, q)
    ensures Serve(e, content, Encode(q) + rest) == Prefixed(Failure(q.handle), Serve(e, content, q.payload + rest))
  {
    EncodedSplits(q, rest);
    RejectedAnswer(e, content, q, q.payload + rest);
    ServeNext(e, content, Encode(q) + rest, Session(content, Failure(q.handle), Running), 0);
  }

  lemma RejectedAnswer(e: Export, content: seq<byte>, q: Request, rest: seq<byte>)
    requires WellFormed(q) && e.size < U64 / 2 && q.write && !Accepted(e, q)
    ensures Answer(e, content, HeaderOf(q), rest) == (Session(content, Failure(q.handle), Running), 0)
  {
  }

  /** A request keeps the framing on a file: whatever comes after it is served as if it stood alone. */
  ghost predicate Framed(e: Export, content: seq<byte>, q: Request)
    requires |q.handle| == 8
  {
    forall rest :: FramedBefore(e, content, q, rest)
  }

  predicate FramedBefore(e: Export, content: seq<byte>, q: Request, rest: seq<byte>)
    requires |q.handle| == 8
  {
    Serve(e, content, Encode(q) + rest)
    == Prefixed(ReplyTo(e, content, q), Serve(e, FileAfter(e, content, q), rest))
  }

  /** A request keeps the framing exactly when it is not a rejected write with a payload. */
  lemma FramedExactly(e: Export, content: seq<byte>, q: Request)
    requires WellFormed(q) && e.size < U64 / 2
    ensures Framed(e, content, q) <==> KeepsFraming(e, q)
  {
    if KeepsFraming(e, q) {
      forall rest ensures FramedBefore(e, content, q, rest) {
        ServeOne(e, content, q, rest);
      }
    } else if Framed(e, content, q) {
      forall rest ensures SilentBefore(e, content, q.payload, rest) {
        assert FramedBefore(e, content, q, rest);
        RejectedWrite(e, content, q, rest);
        SamePrefix(Failure(q.handle), Serve(e, content, q.payload + rest), Serve(e, content, rest));
      }
      RepeatedIsSilent(e, content, q.payload, HEADER + BUFSIZE);
      LongInputAnswered(e, content, Repeated(q.payload, HEADER + BUFSIZE));
    }
  }

  lemma SamePrefix(sent: seq<byte>, a: Session, b: Session)
    requires Prefixed(sent, a) == Prefixed(sent, b)
    ensures a == b
  {
    assert (sent + a.output)[|sent|..] == a.output && (sent + b.output)[|sent|..] == b.output;
  }

  function Repeated(s: seq<byte>, n: nat): (r: seq<byte>)
    ensures s != [] ==> |r| >= n
  {
    if n == 0 then [] else s + Repeated(s, n - 1)
  }

  predicate SilentBefore(e: Export, content: seq<byte>, payload: seq<byte>, rest: seq<byte>) {
    Serve(e, content, payload + rest) == Serve(e, content, rest)
  }

  ghost predicate Silent(e: Export, content: seq<byte>, payload: seq<byte>) {
    forall rest :: SilentBefore(e, content, payload, rest)
  }

  /** If a payload had no effect before any input, any number of copies of it would have none. */
  lemma {:induction false} RepeatedIsSilent(e: Export, content: seq<byte>, payload: seq<byte>, n: nat)
    requires Silent(e, content, payload)
    ensures Serve(e, content, Repeated(payload, n)) == Session(content, [], InputEnded)
  {
    if n > 0 {
      RepeatedIsSilent(e, content, payload, n - 1);
      assert SilentBefore(e, content, payload, Repeated(payload, n - 1));
    } else {
      assert Serve(e, content, []) == Session(content, [], InputEnded);
    }
  }

  /** But an input that holds any request with its payload gets an answer or ends the session otherwise. */
  lemma LongInputAnswered(e: Export, content: seq<byte>, input: seq<byte>)
    requires |input| >= HEADER + BUFSIZE
    ensures Serve(e, content, input) != Session(content, [], InputEnded)
  {
    var (s, used) := Answer(e, content, Parse(input[..HEADER]), input[HEADER..]);
    assert s.stop == Running ==> s.output != [];
  }

  /** For instance, a payload that reads as a disconnect request ends the session, whatever follows it. */
  lemma RejectedPayloadDisconnects(e: Export, content: seq<byte>, q: Request, d: Header, rest: seq<byte>)
    requires WellFormed(q) && e.size < U64 / 2 && q.write && !Accepted(e, q)
    requires d.kind == 2 && |d.handle| == 8 && d.magic < U32 && d.from < U64 && d.len < U32
    requires q.payload == Print(d)
    ensures Serve(e, content, Encode(q) + rest) == Session(content, Failure(q.handle), Disconnected)
  {
    RejectedWrite(e, content, q, rest);
    ParsePrint(d);
    assert (q.payload + rest)[..HEADER] == Print(d);
  }
}
