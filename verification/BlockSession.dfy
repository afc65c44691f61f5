/** The main loop of the block server: a connection read and written in pieces of any size, and a server that skips
    seeks, together answer every input stream as the flat-file server of BlockProtocol does. */
module BlockSession {
  import opened Arithmetic
  import opened Files
  import opened Overlay
  import P = BlockProtocol
  import S = BlockServer

  /** A connected socket: what is still to come, and what has been sent. */
  class Connection {
    var input: seq<byte>
    var output: seq<byte>

    constructor (input: seq<byte>)
      ensures this.input == input && output == []
    {
      this.input, output := input, [];
    }

    /** read(2): some bytes, at most len of them, and none only at the end of the stream. */
    method ReadSome(len: nat) returns (data: seq<byte>)
      requires len > 0
      modifies this`input
      ensures |data| <= len && data + input == old(input)
      ensures data == [] <==> old(input) == []
    {
      if input == [] { return []; }
      var n: nat :| 1 <= n <= len && n <= |input|;
      data, input := input[..n], input[n..];
    }

    /** write(2): some of the bytes are taken. */
    method WriteSome(data: seq<byte>) returns (n: nat)
      requires data != []
      modifies this`output
      ensures 1 <= n <= |data| && output == old(output) + data[..n]
    {
      n :| 1 <= n <= |data|;
      output := output + data[..n];
    }

    /** readit: exactly len bytes, however the stream is chopped; fails only when it ends first. */
    method ReadIt(len: nat) returns (ok: bool, data: seq<byte>)
      modifies this`input
      ensures ok <==> len <= |old(input)|
      ensures ok ==> data == old(input)[..len] && input == old(input)[len..]
    {
      var rest := len;
      data := [];
      while rest > 0
        invariant |data| + rest == len && rest >= 0 && data + input == old(input)
      {
        var some := ReadSome(rest);
        if some == [] { return false, data; }
        data := data + some;
        rest := rest - |some|;
      }
      assert (data + input)[..len] == data && (data + input)[len..] == input;
      ok := true;
    }

    /** writeit: all of the bytes, however few are taken at a time. */
    method WriteIt(data: seq<byte>)
      modifies this`output
      ensures output == old(output) + data
    {
      var rest := data;
      while rest != []
        invariant output + rest == old(output) + data
        decreases |rest|
      {
        var n := WriteSome(rest);
        rest := rest[n..];
      }
    }
  }

  /** The greeting: a password, a magic number, the size of the export and 128 zeros. */
  function Greeting(size: nat): seq<byte> {
    [78, 66, 68, 77, 65, 71, 73, 67] + P.ToBE(0x00420281861253, 8) + P.ToBE(size, 8) + Zeros(128)
  }

  /** The greeting, byte by byte: NBDMAGIC, the magic number, the size of the export and 128 zeros. */
  lemma GreetingBytes(size: nat)
    requires size < U64
    ensures var g := Greeting(size);
            && |g| == 152
            && g[..8] == [78, 66, 68, 77, 65, 71, 73, 67]
            && g[8..16] == [0, 0, 0x42, 2, 0x81, 0x86, 0x12, 0x53]
            && size == (g[16] as nat * 0x100_0000 + g[17] as nat * 0x1_0000 + g[18] as nat * 256 + g[19] as nat)
                       * 0x1_0000_0000
                       + g[20] as nat * 0x100_0000 + g[21] as nat * 0x1_0000 + g[22] as nat * 256 + g[23] as nat
            && (forall i :: 24 <= i < 152 ==> g[i] == 0)
  {
    var g := Greeting(size);
    MagicNumber();
    SizeOnTheWire(size);
    assert g[8..16] == P.ToBE(0x00420281861253, 8) && g[16..24] == P.ToBE(size, 8);
  }

  lemma MagicNumber()
    ensures P.ToBE(0x00420281861253, 8) == [0, 0, 0x42, 2, 0x81, 0x86, 0x12, 0x53]
  {
    P.EightBytes(0x00420281861253);
    MagicHigh();
    MagicLow();
  }

  lemma MagicHigh()
    ensures P.ToBE(0x00420281861253 / 0x1_0000_0000, 4) == [0, 0, 0x42, 2]
  {
    P.FourBytes(0x4202);
  }

  lemma MagicLow()
    ensures P.ToBE(0x00420281861253, 4) == [0x81, 0x86, 0x12, 0x53]
  {
    P.FourBytes(0x00420281861253);
  }

  lemma SizeOnTheWire(size: nat)
    requires size < U64
    ensures var s := P.ToBE(size, 8);
            size == (s[0] as nat * 0x100_0000 + s[1] as nat * 0x1_0000 + s[2] as nat * 256 + s[3] as nat)
                    * 0x1_0000_0000
                    + s[4] as nat * 0x100_0000 + s[5] as nat * 0x1_0000 + s[6] as nat * 256 + s[7] as nat
  {
    P.PowersOf256();
    P.BERoundTrip(size, 8);
    P.AddressBytes(P.ToBE(size, 8));
  }

  class Session {
    const server: S.Server
    const net: Connection
    const readOnly: bool

    constructor (server: S.Server, net: Connection, readOnly: bool)
      ensures this.server == server && this.net == net && this.readOnly == readOnly
    {
      this.server, this.net, this.readOnly := server, net, readOnly;
    }

    ghost predicate Ready()
      reads this, server, server.files
    {
      server.Plain() && server.CacheTrue()
    }

    ghost function Export(): P.Export {
      P.Export(server.exportSize, readOnly, server.files.limit)
    }

    ghost function Content(): seq<byte>
      requires server.Plain()
      reads server.files
    {
      server.files.contents[0]
    }

    /** Serve one request whose header has been read. */
    method Handle(h: P.Header) returns (stop: P.Stop)
      requires Ready() && |h.handle| == 8 && h.len < U32
      modifies server`lastPoint, server.files, net
      ensures Ready()
      ensures var (s, used) := P.Answer(Export(), old(Content()), h, old(net.input));
              && stop == s.stop && Content() == s.content && net.output == old(net.output) + s.output
              && (stop == P.Running ==> net.input == old(net.input)[used..])
    {
      if h.kind == 2 { return P.Disconnected; }
      if h.magic != P.REQUEST_MAGIC { return P.NotEnoughMagic; }
      var len := P.AsInt(h.len);
      if len > BUFSIZE { return P.TooBig; }
      if (h.from + len) % U64 > server.exportSize || (readOnly && h.kind != 0) {
        server.lastPoint := NO_POINT;
        net.WriteIt(P.Failure(h.handle));
        return P.Running;
      }
      if len < 0 { return P.Undefined; }
      if h.kind == 1 {
        stop := HandleWrite(h);
      } else {
        stop := HandleRead(h);
      }
    }

    method HandleWrite(h: P.Header) returns (stop: P.Stop)
      requires Ready() && |h.handle| == 8 && h.kind == 1 && h.magic == P.REQUEST_MAGIC && h.len <= BUFSIZE
      requires (h.from + h.len) % U64 <= server.exportSize && !readOnly
      modifies server`lastPoint, server.files, net
      ensures Ready()
      ensures var (s, used) := P.Answer(Export(), old(Content()), h, old(net.input));
              && stop == s.stop && Content() == s.content && net.output == old(net.output) + s.output
              && (stop == P.Running ==> net.input == old(net.input)[used..])
    {
      ghost var rest := net.input;
      var ok, payload := net.ReadIt(h.len);
      if !ok { return P.InputEnded; }
      if h.from >= NO_POINT { return P.Undefined; }
      var status := server.PlainWrite(h.from, payload);
      if status == S.Fatal {
        assert payload[..0] == [];
        return P.OutsideExport;
      }
      ghost var n := Fitting(server.files.limit, h.from, h.len);
      assert payload[..n] == rest[..n];
      if status == S.Ok {
        net.WriteIt(P.Success(h.handle));
      } else {
        server.lastPoint := NO_POINT;
        net.WriteIt(P.Failure(h.handle));
      }
      stop := P.Running;
    }

    method HandleRead(h: P.Header) returns (stop: P.Stop)
      requires Ready() && |h.handle| == 8 && h.kind != 1 && h.kind != 2 && h.magic == P.REQUEST_MAGIC && h.len <= BUFSIZE
      requires (h.from + h.len) % U64 <= server.exportSize && !(readOnly && h.kind != 0)
      modifies server`lastPoint, server.files, net
      ensures Ready()
      ensures var (s, used) := P.Answer(Export(), old(Content()), h, old(net.input));
              && stop == s.stop && Content() == s.content && net.output == old(net.output) + s.output
              && (stop == P.Running ==> net.input == old(net.input)[used..])
    {
      if h.len > BUFSIZE - P.REPLY || h.from >= NO_POINT { return P.Undefined; }
      var status, data := server.PlainRead(h.from, h.len);
      if status == S.Fatal { return P.OutsideExport; }
      if status == S.Ok {
        net.WriteIt(P.Success(h.handle) + data);
      } else {
        server.lastPoint := NO_POINT;
        net.WriteIt(P.Failure(h.handle));
      }
      stop := P.Running;
    }

    /** One pass of the loop, against one unfolding of the flat-file server. */
    method Step() returns (stop: P.Stop, ghost sent: seq<byte>)
      requires Ready()
      modifies server`lastPoint, server.files, net
      ensures Ready() && net.output == old(net.output) + sent
      ensures stop == P.Running ==> |net.input| < |old(net.input)|
      ensures P.Serve(Export(), old(Content()), old(net.input))
           == P.Prefixed(sent, if stop != P.Running then P.Session(Content(), [], stop)
                               else P.Serve(Export(), Content(), net.input))
    {
      sent := [];
      ghost var input, content := net.input, Content();
      var ok, bytes := net.ReadIt(P.HEADER);
      if !ok { return P.InputEnded, sent; }
      var h := P.Parse(bytes);
      stop := Handle(h);
      ghost var (s, used) := P.Answer(Export(), content, h, input[P.HEADER..]);
      sent := s.output;
      if stop == P.Running { assert net.input == input[P.HEADER + used..]; }
    }

    /** The loop from a point where the bytes sent are out: what the flat-file server still has to do is done. */
    method Loop() returns (stop: P.Stop)
      requires Ready()
      modifies server`lastPoint, server.files, net
      ensures Ready()
      ensures P.Session(Content(), net.output, stop)
           == P.Prefixed(old(net.output), P.Serve(Export(), old(Content()), old(net.input)))
    {
      ghost var whole := P.Prefixed(net.output, P.Serve(Export(), Content(), net.input));
      stop := P.Running;
      while stop == P.Running
        invariant Ready()
        invariant whole == if stop != P.Running then P.Session(Content(), net.output, stop)
                           else P.Prefixed(net.output, P.Serve(Export(), Content(), net.input))
        decreases stop == P.Running, |net.input|
      {
        ghost var before := net.output;
        ghost var sent;
        stop, sent := Step();
        P.PrefixedTwice(before, sent, if stop != P.Running then P.Session(Content(), [], stop)
                                      else P.Serve(Export(), Content(), net.input));
      }
    }

    /** mainloop: for every input stream, and however the connection chops it, the export and the bytes sent end up
        as the flat-file server would leave them. */
    method MainLoop() returns (stop: P.Stop)
      requires Ready()
      modifies server`lastPoint, server.files, net
      ensures Ready()
      ensures var e := P.Export(server.exportSize, readOnly, server.files.limit);
              var s := P.Serve(e, old(server.files.contents[0]), old(net.input));
              && stop == s.stop && server.files.contents == [s.content]
              && net.output == old(net.output) + Greeting(server.exportSize) + s.output
      ensures var g := net.output[|old(net.output)|..];
              && |g| >= 152 && g[..8] == [78, 66, 68, 77, 65, 71, 73, 67]
              && g[8..16] == [0, 0, 0x42, 2, 0x81, 0x86, 0x12, 0x53]
              && server.exportSize
                 == (g[16] as nat * 0x100_0000 + g[17] as nat * 0x1_0000 + g[18] as nat * 256 + g[19] as nat)
                    * 0x1_0000_0000
                    + g[20] as nat * 0x100_0000 + g[21] as nat * 0x1_0000 + g[22] as nat * 256 + g[23] as nat
              && (forall i :: 24 <= i < 152 ==> g[i] == 0)
    {
      GreetingBytes(server.exportSize);
      net.WriteIt(Greeting(server.exportSize));
      stop := Loop();
    }
  }
}
