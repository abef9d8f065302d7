/** A TFTP download: the client's receive loop, and its runs against a server that follows
    section 6 of RFC 1350 over a channel that loses, repeats and reorders nothing. */
module TftpTransfer {
  import opened Core
  import opened TftpWire
  import opened Wire

  /** The client's receive buffer; a longer datagram is cut. */
  const RECV: nat := 2048

  datatype Datagram = Datagram(src: nat, payload: bytes)

  datatype Client = Client(blksize: nat, total: nat, sink: bytes, done: bool)

  function Received(d: Datagram): bytes {
    if |d.payload| <= RECV then d.payload else d.payload[..RECV]
  }

  function OackOf(p: bytes): Option<nat> {
    if |p| >= 2 && p[..2] == Be16(OP_OACK) then Some(NegotiateAll(OptionsFrom(p, 2), DEFAULT_BLKSIZE, 0).0) else None
  }

  /** One datagram received: the new state and the packets sent. */
  function Receive(c: Client, server: nat, d: Datagram): (Client, seq<bytes>) {
    var p := Received(d);
    if d.src != server then (c, [])
    else if OackOf(p).Some? then (c.(blksize := OackOf(p).value), [AckPacket(0)])
    else if |p| >= 4 && p[..2] == Be16(OP_DATA) then
      var data := p[4..];
      (Client(c.blksize, c.total + |data|, c.sink + data, |data| < c.blksize), [AckPacket(FromBe16(p[2], p[3]))])
    else (c, [])
  }

  /** Datagrams received until the transfer is done. */
  function ReceiveAll(c: Client, server: nat, ds: seq<Datagram>): (Client, seq<bytes>)
    decreases |ds|
  {
    if c.done || ds == [] then (c, [])
    else
      var (c', out) := Receive(c, server, ds[0]);
      var (c'', out') := ReceiveAll(c', server, ds[1..]);
      (c'', out + out')
  }

  function Start(sink: bytes): Client {
    Client(DEFAULT_BLKSIZE, 0, sink, false)
  }

  class VecSink {
    var data: bytes

    constructor ()
      ensures data == []
    {
      data := [];
    }

    method WriteBlock(block: bytes)
      modifies this
      ensures data == old(data) + block
    {
      data := data + block;
    }
  }

  /** The download over the datagrams that will arrive; running out of them is the receive
      timeout. */
  method TftpDownload(server: nat, filename: bytes, incoming: seq<Datagram>, sink: VecSink)
    returns (r: Option<nat>, sent: seq<bytes>)
    modifies sink
    ensures var (c, out) := ReceiveAll(Start(old(sink.data)), server, incoming);
            sink.data == c.sink && sent == [RrqPacket(RrqName(filename))] + out &&
            r == if c.done then Some(c.total) else None
  {
    var rrq := new byte[256];
    var n := BuildRrq(filename, rrq);
    sent := [rrq[..n]];
    var out;
    r, out := Transfer(server, incoming, sink);
    sent := sent + out;
  }

  /** The receive loop of a build without overflow checks: anything that is not from the server, or neither an option
      acknowledgement nor data, is skipped. */
  method Transfer(server: nat, incoming: seq<Datagram>, sink: VecSink) returns (r: Option<nat>, out: seq<bytes>)
    modifies sink
    ensures var (c, all) := ReceiveAll(Start(old(sink.data)), server, incoming);
            sink.data == c.sink && out == all && r == if c.done then Some(c.total) else None
  {
    hide OptionsFrom, NegotiateAll, ReceiveAll, FromBe16, Be16, Goes, DataPacket;
    var blksize: nat, total: nat := DEFAULT_BLKSIZE, 0;
    ghost var start := Start(sink.data);
    out := [];
    assert incoming[0..] == incoming;
    GoesFrom(start, server, incoming);
    for i := 0 to |incoming|
      invariant Goes(start, server, incoming, Client(blksize, total, sink.data, false), incoming[i..], out)
    {
      var d := incoming[i];
      ghost var c := Client(blksize, total, sink.data, false);
      GoesOn(start, server, incoming, c, incoming[i..], out);
      assert incoming[i..][1..] == incoming[i + 1..] && out + [] == out;
      if d.src != server {
        continue;
      }
      var p := if |d.payload| <= RECV then d.payload else d.payload[..RECV];
      var ack := new byte[4];
      var oack := ParseOack(p, false);
      if oack.value.Some? {
        blksize := oack.value.value.0;
        var alen := BuildAck(0, ack);
        out := out + [ack[..alen]];
        continue;
      }
      var x := ParseData(p);
      if x.None? {
        continue;
      }
      DataFields(p, x.value);
      sink.WriteBlock(x.value.data);
      total := total + |x.value.data|;
      var alen := BuildAck(x.value.block, ack);
      out := out + [ack[..alen]];
      if |x.value.data| < blksize {
        GoesDone(start, server, incoming, Receive(c, server, d).0, incoming[i + 1..], out);
        return Some(total), out;
      }
    }
    GoesDone(start, server, incoming, Client(blksize, total, sink.data, false), incoming[|incoming|..], out);
    return None, out;
  }

  lemma DataFields(p: bytes, x: Data)
    requires x.block < 65536 && p == DataPacket(x.block, x.data)
    ensures |p| >= 4 && p[..2] == Be16(OP_DATA) && FromBe16(p[2], p[3]) == x.block && p[4..] == x.data
  {
  }

  /** A run of the client that has come to state `c` with `rest` to come and `out` sent. */
  ghost predicate Goes(start: Client, server: nat, ds: seq<Datagram>, c: Client, rest: seq<Datagram>, out: seq<bytes>) {
    var (c', out') := ReceiveAll(c, server, rest);
    ReceiveAll(start, server, ds) == (c', out + out')
  }

  lemma GoesFrom(start: Client, server: nat, ds: seq<Datagram>)
    ensures Goes(start, server, ds, start, ds, [])
  {
    assert [] + ReceiveAll(start, server, ds).1 == ReceiveAll(start, server, ds).1;
  }

  lemma GoesOn(start: Client, server: nat, ds: seq<Datagram>, c: Client, rest: seq<Datagram>, out: seq<bytes>)
    requires Goes(start, server, ds, c, rest, out) && !c.done && rest != []
    ensures var (c', o) := Receive(c, server, rest[0]); Goes(start, server, ds, c', rest[1..], out + o)
  {
    hide Receive;
    var (c', o) := Receive(c, server, rest[0]);
    var (c'', o') := ReceiveAll(c', server, rest[1..]);
    assert out + (o + o') == out + o + o';
  }

  lemma GoesDone(start: Client, server: nat, ds: seq<Datagram>, c: Client, rest: seq<Datagram>, out: seq<bytes>)
    requires Goes(start, server, ds, c, rest, out) && (c.done || rest == [])
    ensures ReceiveAll(start, server, ds) == (c, out)
  {
    assert out + [] == out;
  }

  // ----- a server, and a channel -----

  /** What the server serves: a file, the block size, and whether it sends an option
      acknowledgement with that (RFC 2348: 8 to 65464 bytes; otherwise 512). The client's request
      carries no options, so a server that keeps to RFC 2347 sends none; one that sends an
      acknowledgement unasked is covered too. */
  datatype Config = Config(addr: nat, filename: bytes, file: bytes, blksize: nat, oack: bool)

  ghost predicate ValidConfig(g: Config) {
    8 <= g.blksize <= 65464 && (!g.oack ==> g.blksize == DEFAULT_BLKSIZE) && 0 !in g.filename
  }

  /** A full block fits the client's buffer, or the file is sent whole in a block that does. */
  predicate Fits(g: Config) {
    g.blksize <= RECV - 4 || |g.file| <= RECV - 4
  }

  function Blocks(g: Config): (n: nat)
    requires g.blksize > 0
    ensures n >= 1
  {
    |g.file| / g.blksize + 1
  }

  function Min(a: nat, b: nat): nat {
    if a <= b then a else b
  }

  /** The part of the file up to block `i`. */
  function UpTo(g: Config, i: nat): bytes {
    g.file[..Min(i * g.blksize, |g.file|)]
  }

  function BlockAt(g: Config, i: nat): bytes
    requires g.blksize > 0 && 1 <= i <= Blocks(g)
  {
    BlockBounds(g, i);
    g.file[(i - 1) * g.blksize..Min(i * g.blksize, |g.file|)]
  }

  /** Every block but the last is full; the last is not, and may be empty. */
  lemma BlockBounds(g: Config, i: nat)
    requires g.blksize > 0 && 1 <= i <= Blocks(g)
    ensures (i - 1) * g.blksize <= Min(i * g.blksize, |g.file|)
    ensures i < Blocks(g) ==> i * g.blksize <= |g.file|
    ensures i == Blocks(g) ==> |g.file| < i * g.blksize && |g.file| - (i - 1) * g.blksize < g.blksize
    ensures i * g.blksize == (i - 1) * g.blksize + g.blksize
  {
    DivMod(|g.file|, g.blksize);
    var q := |g.file| / g.blksize;
    assert i * g.blksize == (i - 1) * g.blksize + g.blksize;
    MulLe(i - 1, q, g.blksize);
    if i < Blocks(g) {
      MulLe(i, q, g.blksize);
    }
  }

  lemma DivMod(n: nat, d: nat)
    requires d > 0
    ensures n == (n / d) * d + n % d
  {
  }

  lemma MulLe(a: nat, b: nat, m: nat)
    requires a <= b
    ensures a * m <= b * m
  {
  }

  /** What the server has sent last: nothing, the option acknowledgement, or block `i`. */
  datatype Server = Idle | SentOack | SentBlock(i: nat) | Finished

  function OackBytes(g: Config): bytes {
    OackPacket([Opt(BLKSIZE, Decimal(g.blksize))])
  }

  function BlockPacket(g: Config, i: nat): bytes
    requires g.blksize > 0 && 1 <= i <= Blocks(g)
  {
    DataPacket(i % 65536, BlockAt(g, i))
  }

  /** The next block goes out when the last packet is acknowledged, by its number modulo 65536. */
  function Serve(g: Config, s: Server, p: bytes): (Server, seq<bytes>)
    requires g.blksize > 0
  {
    match s
    case Idle =>
      if RequestedName(p) != Some(RrqName(g.filename)) then (s, [])
      else if g.oack then (SentOack, [OackBytes(g)])
      else (SentBlock(1), [BlockPacket(g, 1)])
    case SentOack => if p == AckPacket(0) then (SentBlock(1), [BlockPacket(g, 1)]) else (s, [])
    case SentBlock(i) =>
      if p != AckPacket(i % 65536) then (s, [])
      else if 0 < i < Blocks(g) then (SentBlock(i + 1), [BlockPacket(g, i + 1)])
      else (Finished, [])
    case Finished => (s, [])
  }

  datatype System = System(client: Client, server: Server, toClient: seq<Datagram>, toServer: seq<bytes>)

  /** A packet from elsewhere slips in anywhere; or a side takes its next packet. */
  datatype Event = Foreign(at: nat, d: Datagram) | ToClient | ToServer

  predicate Enabled(g: Config, y: System, e: Event) {
    match e
    case Foreign(at, d) => at <= |y.toClient| && d.src != g.addr
    case ToClient => !y.client.done && y.toClient != []
    case ToServer => y.toServer != []
  }

  function From(g: Config, ps: seq<bytes>): seq<Datagram> {
    seq(|ps|, i requires 0 <= i < |ps| => Datagram(g.addr, ps[i]))
  }

  function Step(g: Config, y: System, e: Event): System
    requires g.blksize > 0 && Enabled(g, y, e)
  {
    match e
    case Foreign(at, d) => y.(toClient := y.toClient[..at] + [d] + y.toClient[at..])
    case ToClient =>
      var (c, out) := Receive(y.client, g.addr, y.toClient[0]);
      y.(client := c, toClient := y.toClient[1..], toServer := y.toServer + out)
    case ToServer =>
      var (s, out) := Serve(g, y.server, y.toServer[0]);
      y.(server := s, toServer := y.toServer[1..], toClient := y.toClient + From(g, out))
  }

  function Begin(g: Config): System {
    System(Start([]), Idle, [], [RrqPacket(RrqName(g.filename))])
  }

  // ----- what every reachable state satisfies -----

  /** The packets under way from the server. */
  function FromServer(g: Config, ds: seq<Datagram>): seq<bytes> {
    if ds == [] then []
    else (if ds[0].src == g.addr then [ds[0].payload] else []) + FromServer(g, ds[1..])
  }

  datatype Phase = Asking | OackOut | OackBack | BlockOut(i: nat) | BlockBack(i: nat) | Over

  ghost predicate Inv(g: Config, y: System, ph: Phase)
    requires g.blksize > 0
  {
    var c := y.client;
    var coming := FromServer(g, y.toClient);
    c.total == |c.sink| &&
    match ph
    case Asking =>
      c == Start([]) && y.server == Idle && coming == [] && y.toServer == [RrqPacket(RrqName(g.filename))]
    case OackOut => g.oack && c == Start([]) && y.server == SentOack && coming == [OackBytes(g)] && y.toServer == []
    case OackBack =>
      c == Start([]).(blksize := g.blksize) && y.server == SentOack && coming == [] && y.toServer == [AckPacket(0)]
    case BlockOut(i) =>
      1 <= i <= Blocks(g) && (Fits(g) || i == 1) && !c.done && c.blksize == g.blksize &&
      c.sink == UpTo(g, i - 1) && y.server == SentBlock(i) && coming == [BlockPacket(g, i)] && y.toServer == []
    case BlockBack(i) =>
      1 <= i < Blocks(g) && Fits(g) && !c.done && c.blksize == g.blksize &&
      c.sink == UpTo(g, i) && y.server == SentBlock(i) && coming == [] && y.toServer == [AckPacket(i % 65536)]
    case Over => c.done && if Fits(g) then c.sink == g.file else |g.file| > RECV - 4 && c.sink == g.file[..RECV - 4]
  }

  lemma {:induction false} DecimalShort(n: nat)
    requires n < 100000
    ensures |Decimal(n)| <= 5
  {
    DecimalDigits(n, 5);
  }

  lemma {:induction false} DecimalDigits(n: nat, k: nat)
    requires k >= 1 && n < Pow10(k)
    ensures |Decimal(n)| <= k
  {
    if n >= 10 {
      DecimalDigits(n / 10, k - 1);
    }
  }

  function Pow10(k: nat): nat {
    if k == 0 then 1 else 10 * Pow10(k - 1)
  }

  /** The client takes the negotiated block size. */
  lemma ReceiveOack(g: Config, c: Client)
    requires ValidConfig(g)
    ensures Receive(c, g.addr, Datagram(g.addr, OackBytes(g))) == (c.(blksize := g.blksize), [AckPacket(0)])
  {
    hide OptionsFrom, NegotiateAll, Decimal;
    DecimalShort(g.blksize);
    OackRoundTrip(g.blksize);
    var p := OackBytes(g);
    assert p[..2] == Be16(OP_OACK);
    assert |p| <= RECV by { OackLength(Opt(BLKSIZE, Decimal(g.blksize))); }
  }

  lemma OackLength(o: Opt)
    ensures |OackPacket([o])| == |o.key| + |o.value| + 4
  {
    assert [o][1..] == [];
    assert OptionBytes([o]) == o.key + [0] + o.value + [0] + OptionBytes([]);
  }

  lemma ReceiveData(c: Client, addr: nat, block: nat, data: bytes)
    requires block < 65536
    ensures var got := if |data| <= RECV - 4 then data else data[..RECV - 4];
            Receive(c, addr, Datagram(addr, DataPacket(block, data))) ==
            (Client(c.blksize, c.total + |got|, c.sink + got, |got| < c.blksize), [AckPacket(block)])
  {
    var p := DataPacket(block, data);
    var q := Received(Datagram(addr, p));
    assert q[..2] == Be16(OP_DATA) && q[..2][1] == q[1];
    assert q[2] == block / 256 && q[3] == block % 256;
    assert q[4..] == if |data| <= RECV - 4 then data else data[..RECV - 4];
  }

  /** A block continues the file; it is full unless it is the last. */
  lemma {:induction false} BlockExtends(g: Config, i: nat)
    requires g.blksize > 0 && 1 <= i <= Blocks(g)
    ensures UpTo(g, i - 1) + BlockAt(g, i) == UpTo(g, i)
    ensures |BlockAt(g, i)| < g.blksize <==> i == Blocks(g)
    ensures |BlockAt(g, i)| <= g.blksize && |BlockAt(g, i)| <= |g.file|
    ensures i == 1 && !Fits(g) ==>
              |BlockAt(g, i)| > RECV - 4 && UpTo(g, 0) + BlockAt(g, i)[..RECV - 4] == g.file[..RECV - 4]
  {
    BlockBounds(g, i);
    hide Blocks;
    if i > 1 {
      BlockBounds(g, i - 1);
    }
    var from, to := (i - 1) * g.blksize, Min(i * g.blksize, |g.file|);
    assert UpTo(g, i - 1) == g.file[..from];
    assert BlockAt(g, i) == g.file[from..to];
    if i == 1 && !Fits(g) {
      assert from == 0 && UpTo(g, 0) == [];
      assert g.file[0..to][..RECV - 4] == g.file[..RECV - 4];
    }
  }

  /** The client takes block `i`: the whole of it if it fits the buffer. */
  lemma ReceiveBlock(g: Config, c: Client, i: nat)
    requires ValidConfig(g) && 1 <= i <= Blocks(g) && (Fits(g) || i == 1)
    requires c.total == |c.sink| && c.sink == UpTo(g, i - 1) && c.blksize == g.blksize
    ensures var (c', out) := Receive(c, g.addr, Datagram(g.addr, BlockPacket(g, i)));
            out == [AckPacket(i % 65536)] && c'.blksize == c.blksize && c'.total == |c'.sink| &&
            if Fits(g) then c'.sink == UpTo(g, i) && (c'.done <==> i == Blocks(g))
            else c'.done && |g.file| > RECV - 4 && c'.sink == g.file[..RECV - 4]
  {
    BlockExtends(g, i);
    hide BlockAt, UpTo, Blocks, Min, DataPacket, Receive;
    ReceiveData(c, g.addr, i % 65536, BlockAt(g, i));
  }

  lemma {:induction false} FromServerConcat(g: Config, a: seq<Datagram>, b: seq<Datagram>)
    ensures FromServer(g, a + b) == FromServer(g, a) + FromServer(g, b)
  {
    if a == [] {
      assert a + b == b;
    } else {
      assert (a + b)[1..] == a[1..] + b;
      FromServerConcat(g, a[1..], b);
    }
  }

  lemma {:induction false} FromServerInsert(g: Config, ds: seq<Datagram>, at: nat, d: Datagram)
    requires at <= |ds| && d.src != g.addr
    ensures FromServer(g, ds[..at] + [d] + ds[at..]) == FromServer(g, ds)
    ensures Strangers(g, ds[..at] + [d] + ds[at..]) == Strangers(g, ds) + 1
  {
    var a, b := ds[..at], ds[at..];
    FromServerConcat(g, a + [d], b);
    FromServerConcat(g, a, [d]);
    FromServerConcat(g, a, b);
    assert [d][1..] == [] && a + b == ds;
    assert FromServer(g, a) + [] == FromServer(g, a);
  }

  function Strangers(g: Config, ds: seq<Datagram>): int {
    |ds| - |FromServer(g, ds)|
  }

  lemma {:induction false} FromServerSent(g: Config, ds: seq<Datagram>, p: bytes)
    ensures FromServer(g, ds + From(g, [p])) == FromServer(g, ds) + [p]
    ensures Strangers(g, ds + From(g, [p])) == Strangers(g, ds)
    ensures ds + From(g, []) == ds
  {
    FromServerConcat(g, ds, From(g, [p]));
    assert From(g, [p])[1..] == [];
  }

  lemma FromServerNone(g: Config, ds: seq<Datagram>)
    ensures |FromServer(g, ds)| <= |ds|
  {
  }

  /** How many deliveries are left before the client is done. */
  function Remaining(g: Config, ph: Phase): nat
    requires g.blksize > 0
  {
    var n := Blocks(g);
    match ph
    case Asking => 2 * n + 2
    case OackOut => 2 * n + 1
    case OackBack => 2 * n
    case BlockOut(i) => if i <= n then 2 * (n - i) + 1 else 0
    case BlockBack(i) => if i <= n then 2 * (n - i) else 0
    case Over => 0
  }

  /** What a step leaves of the deliveries to come. */
  ghost predicate Advances(g: Config, y: System, y': System, e: Event, ph: Phase, ph': Phase)
    requires g.blksize > 0
  {
    if ph == Over then ph' == Over
    else if e.Foreign? then ph' == ph && Strangers(g, y'.toClient) == Strangers(g, y.toClient) + 1
    else Remaining(g, ph') + Strangers(g, y'.toClient) < Remaining(g, ph) + Strangers(g, y.toClient)
  }

  lemma ForeignKeeps(g: Config, y: System, e: Event, ph: Phase)
    requires ValidConfig(g) && Inv(g, y, ph) && Enabled(g, y, e) && e.Foreign?
    ensures Inv(g, Step(g, y, e), ph) && Advances(g, y, Step(g, y, e), e, ph, ph)
  {
    hide BlockPacket, OackBytes, UpTo, FromServer;
    FromServerInsert(g, y.toClient, e.at, e.d);
  }

  lemma UpToEnds(g: Config)
    requires g.blksize > 0
    ensures UpTo(g, 0) == [] && UpTo(g, Blocks(g)) == g.file
  {
    BlockBounds(g, Blocks(g));
  }

  lemma {:induction false} ToServerKeeps(g: Config, y: System, ph: Phase) returns (ph': Phase)
    requires ValidConfig(g) && Inv(g, y, ph) && Enabled(g, y, ToServer)
    ensures Inv(g, Step(g, y, ToServer), ph') && Advances(g, y, Step(g, y, ToServer), ToServer, ph, ph')
  {
    hide BlockPacket, OackBytes, UpTo, FromServer, Receive, RequestedName, RrqPacket, Strangers;
    UpToEnds(g);
    var (s, out) := Serve(g, y.server, y.toServer[0]);
    match ph
    case Asking =>
      RrqRoundTrip(g.filename);
      FromServerSent(g, y.toClient, out[0]);
      ph' := if g.oack then OackOut else BlockOut(1);
    case OackBack =>
      FromServerSent(g, y.toClient, out[0]);
      ph' := BlockOut(1);
    case BlockBack(i) =>
      FromServerSent(g, y.toClient, out[0]);
      ph' := BlockOut(i + 1);
    case Over => ph' := Over;
  }

  /** The next datagram is a stranger's, or the one packet under way from the server. */
  lemma {:induction false} NextDatagram(g: Config, ds: seq<Datagram>)
    requires ds != []
    ensures if ds[0].src == g.addr
            then FromServer(g, ds) == [ds[0].payload] + FromServer(g, ds[1..]) && Strangers(g, ds[1..]) == Strangers(g, ds)
            else FromServer(g, ds) == FromServer(g, ds[1..]) && Strangers(g, ds[1..]) == Strangers(g, ds) - 1
  {
  }

  lemma {:induction false} ToClientKeeps(g: Config, y: System, ph: Phase) returns (ph': Phase)
    requires ValidConfig(g) && Inv(g, y, ph) && Enabled(g, y, ToClient)
    ensures Inv(g, Step(g, y, ToClient), ph') && Advances(g, y, Step(g, y, ToClient), ToClient, ph, ph')
  {
    hide BlockPacket, OackBytes, UpTo, Serve, FromServer, Receive, RequestedName, RrqPacket, Strangers;
    var d := y.toClient[0];
    NextDatagram(g, y.toClient);
    ph' := ph;
    if d.src == g.addr {
      assert d == Datagram(g.addr, FromServer(g, y.toClient)[0]);
      UpToEnds(g);
      match ph
      case OackOut =>
        ReceiveOack(g, y.client);
        assert FromServer(g, y.toClient[1..]) == [];
        ph' := OackBack;
      case BlockOut(i) =>
        ReceiveBlock(g, y.client, i);
        assert FromServer(g, y.toClient[1..]) == [];
        ph' := if Receive(y.client, g.addr, d).0.done then Over else BlockBack(i);
      case _ =>
    } else {
      ReceiveStranger(y.client, g.addr, d);
      assert y.toServer + [] == y.toServer;
    }
  }

  lemma ReceiveStranger(c: Client, addr: nat, d: Datagram)
    requires d.src != addr
    ensures Receive(c, addr, d) == (c, [])
  {
  }

  // ----- whole runs -----

  predicate CanRun(g: Config, y: System, es: seq<Event>)
    requires g.blksize > 0
    decreases |es|
  {
    es == [] || (Enabled(g, y, es[0]) && CanRun(g, Step(g, y, es[0]), es[1..]))
  }

  function Run(g: Config, y: System, es: seq<Event>): System
    requires g.blksize > 0 && CanRun(g, y, es)
    decreases |es|
  {
    if es == [] then y else Run(g, Step(g, y, es[0]), es[1..])
  }

  /** The datagrams the client took in a run. */
  function Taken(g: Config, y: System, es: seq<Event>): seq<Datagram>
    requires g.blksize > 0 && CanRun(g, y, es)
    decreases |es|
  {
    if es == [] then []
    else (if es[0].ToClient? then [y.toClient[0]] else []) + Taken(g, Step(g, y, es[0]), es[1..])
  }

  function Foreigns(es: seq<Event>): nat {
    if es == [] then 0 else (if es[0].Foreign? then 1 else 0) + Foreigns(es[1..])
  }

  function Deliveries(es: seq<Event>): nat {
    if es == [] then 0 else (if es[0].Foreign? then 0 else 1) + Deliveries(es[1..])
  }

  lemma {:induction false} StepKeeps(g: Config, y: System, e: Event, ph: Phase) returns (ph': Phase)
    requires ValidConfig(g) && Inv(g, y, ph) && Enabled(g, y, e)
    ensures Inv(g, Step(g, y, e), ph') && Advances(g, y, Step(g, y, e), e, ph, ph')
  {
    hide Inv, Advances, Step;
    match e
    case Foreign(at, d) =>
      ForeignKeeps(g, y, e, ph);
      ph' := ph;
    case ToClient => ph' := ToClientKeeps(g, y, ph);
    case ToServer => ph' := ToServerKeeps(g, y, ph);
  }

  /** Every run stays within the invariant, and comes one delivery closer to the end with each
      delivery; strangers' packets only cost the deliveries that discard them. */
  lemma {:induction false} RunKeeps(g: Config, y: System, es: seq<Event>, ph: Phase) returns (ph': Phase)
    requires ValidConfig(g) && Inv(g, y, ph) && CanRun(g, y, es)
    ensures Inv(g, Run(g, y, es), ph')
    ensures ph' == Over || Deliveries(es) + Remaining(g, ph') + Strangers(g, Run(g, y, es).toClient) <=
                           Remaining(g, ph) + Strangers(g, y.toClient) + Foreigns(es)
    decreases |es|
  {
    hide Inv, Step, Strangers, Enabled;
    ph' := ph;
    if es != [] {
      var next := StepKeeps(g, y, es[0], ph);
      ph' := RunKeeps(g, Step(g, y, es[0]), es[1..], next);
      if ph == Over {
        OverStays(g, Step(g, y, es[0]), es[1..]);
        assert ph' == Over by { OverOnly(g, Run(g, y, es), ph'); }
      }
    }
  }

  lemma {:induction false} OverStays(g: Config, y: System, es: seq<Event>)
    requires ValidConfig(g) && Inv(g, y, Over) && CanRun(g, y, es)
    ensures Inv(g, Run(g, y, es), Over)
    decreases |es|
  {
    hide Inv, Step, Strangers, Enabled;
    if es != [] {
      var next := StepKeeps(g, y, es[0], Over);
      OverStays(g, Step(g, y, es[0]), es[1..]);
    }
  }

  lemma OverOnly(g: Config, y: System, ph: Phase)
    requires g.blksize > 0 && Inv(g, y, Over) && Inv(g, y, ph)
    ensures ph == Over
  {
    hide BlockPacket, UpTo, FromServer;
  }

  /** The client in a run is the receive loop on the datagrams it took. */
  lemma {:induction false} RunIsReceiveAll(g: Config, y: System, es: seq<Event>)
    requires g.blksize > 0 && CanRun(g, y, es)
    ensures ReceiveAll(y.client, g.addr, Taken(g, y, es)).0 == Run(g, y, es).client
    decreases |es|
  {
    hide Receive, Serve;
    if es != [] {
      var y' := Step(g, y, es[0]);
      RunIsReceiveAll(g, y', es[1..]);
      if es[0].ToClient? {
        var rest := Taken(g, y', es[1..]);
        assert Taken(g, y, es) == [y.toClient[0]] + rest;
        assert ([y.toClient[0]] + rest)[1..] == rest;
      } else {
        assert [] + Taken(g, y', es[1..]) == Taken(g, y', es[1..]);
      }
    }
  }

  lemma BeginInv(g: Config)
    requires g.blksize > 0
    ensures Inv(g, Begin(g), Asking) && Strangers(g, Begin(g).toClient) == 0
  {
  }

  /** In every run: when the client is done, what it received makes `TftpDownload` return the
      number of bytes written, and those bytes are the file exactly when the blocks fit the
      receive buffer (else its first 2044 bytes). Until then some delivery is possible, and
      there have been fewer deliveries than two for each block, two more for negotiation, and
      one for each stranger's packet. */
  lemma DownloadCorrect(g: Config, es: seq<Event>)
    requires ValidConfig(g) && CanRun(g, Begin(g), es)
    ensures var y := Run(g, Begin(g), es);
            var c := ReceiveAll(Start([]), g.addr, Taken(g, Begin(g), es)).0;
            c == y.client && c.total == |c.sink| &&
            if c.done then (c.sink == g.file <==> Fits(g)) && (!Fits(g) ==> c.sink == g.file[..Min(RECV - 4, |g.file|)])
            else (Enabled(g, y, ToClient) || Enabled(g, y, ToServer)) && Deliveries(es) < 2 * Blocks(g) + 2 + Foreigns(es)
  {
    hide Strangers, Step, CanRun, Run, Taken, ReceiveAll, Inv, Blocks, Deliveries, Foreigns, Fits, Remaining;
    BeginInv(g);
    RunIsReceiveAll(g, Begin(g), es);
    var ph := RunKeeps(g, Begin(g), es, Asking);
    var y := Run(g, Begin(g), es);
    StrangersCount(g, y.toClient);
    RemainingStart(g);
    InvOutcome(g, y, ph);
  }

  lemma RemainingStart(g: Config)
    requires g.blksize > 0
    ensures Remaining(g, Asking) == 2 * Blocks(g) + 2
  {
  }

  lemma {:induction false} InvOutcome(g: Config, y: System, ph: Phase)
    requires g.blksize > 0 && Inv(g, y, ph)
    ensures y.client.total == |y.client.sink|
    ensures if y.client.done
            then (y.client.sink == g.file <==> Fits(g)) && (!Fits(g) ==> y.client.sink == g.file[..Min(RECV - 4, |g.file|)])
            else ph != Over && Remaining(g, ph) > 0 && (Enabled(g, y, ToClient) || Enabled(g, y, ToServer))
  {
    hide BlockPacket, UpTo, Blocks, OackBytes, RrqPacket;
    if y.toClient == [] {
      assert |FromServer(g, y.toClient)| == 0;
    }
  }

  lemma StrangersCount(g: Config, ds: seq<Datagram>)
    ensures Strangers(g, ds) >= 0
  {
    FromServerNone(g, ds);
  }
}
