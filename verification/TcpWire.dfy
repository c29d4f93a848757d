/** The TCP receiver in terms of the bytes on the wire alone: segments as any peer may send them,
    with options and padding, and acknowledgements as any peer reads them. */
module TcpWire {
  import opened Bytes
  import opened Checksum
  import opened Arp
  import opened Frames
  import opened Tcp
  import Ping
  import Wire

  /** A segment: every field of its three headers, and what follows them. */
  datatype Segment = Segment(
    front: seq<uint8>,     // the Ethernet header, the IP version and the service: 16 bytes
    middle: seq<uint8>,    // identification, fragment, time to live, protocol, checksum: 8 bytes
    src: uint32, dst: uint32, srcPort: uint16, dstPort: uint16, seqNum: uint32, ackNum: uint32,
    low: nat,              // the reserved bits next to the header length
    fin: bool, syn: bool, rst: bool, psh: bool, ack: bool,
    high: nat,             // the three flags above ACK
    window: uint16,
    tail: seq<uint8>,      // checksum and urgent pointer: 4 bytes
    options: seq<uint8>, data: seq<uint8>, padding: seq<uint8>)
  {
    predicate Valid() {
      && |front| == 16 && |middle| == 8 && low < 16 && high < 8 && |tail| == 4
      && |options| % 4 == 0 && |options| <= 40 && 40 + |options| + |data| < 0x1_0000
    }
  }

  function Bit(b: bool, weight: nat): nat {
    if b then weight else 0
  }

  function Flags(s: Segment): uint8
    requires s.Valid()
  {
    Bit(s.fin, 1) + Bit(s.syn, 2) + Bit(s.rst, 4) + Bit(s.psh, 8) + Bit(s.ack, 16) + 32 * s.high
  }

  /** The bytes before the options. */
  function Headers(s: Segment): (h: seq<uint8>)
    requires s.Valid()
    ensures |h| == 54
  {
    s.front + Be16(40 + |s.options| + |s.data|) + s.middle + Be32(s.src) + Be32(s.dst)
    + Be16(s.srcPort) + Be16(s.dstPort) + Be32(s.seqNum) + Be32(s.ackNum)
    + [16 * (5 + |s.options| / 4) + s.low, Flags(s)] + Be16(s.window) + s.tail
  }

  /** The segment as it arrives. */
  function OnWire(s: Segment): Frame
    requires s.Valid()
  {
    Headers(s) + s.options + s.data + s.padding
  }

  // ---------------------------------------------------------------- what the receiver reads

  /** Where the fields lie. */
  lemma HeaderSlices(s: Segment)
    requires s.Valid()
    ensures var h := Headers(s);
            && h[16..18] == Be16(40 + |s.options| + |s.data|) && h[26..30] == Be32(s.src)
            && h[34..36] == Be16(s.srcPort) && h[38..42] == Be32(s.seqNum) && h[42..46] == Be32(s.ackNum)
            && h[46..48] == [16 * (5 + |s.options| / 4) + s.low, Flags(s)] && h[48..50] == Be16(s.window)
  {
    hide Flags, Be16, Be32;
  }

  lemma FieldsRead(s: Segment)
    requires s.Valid()
    ensures var p := OnWire(s);
            && NetField16(p, 16) == 40 + |s.options| + |s.data| && NetField32(p, 26) == s.src
            && NetField16(p, 34) == s.srcPort && NetField32(p, 38) == s.seqNum && NetField32(p, 42) == s.ackNum
            && p[46] == 16 * (5 + |s.options| / 4) + s.low && p[47] == Flags(s) && NetField16(p, 48) == s.window
            && p[54 + |s.options|..54 + |s.options| + |s.data|] == s.data
  {
    var h, p := Headers(s), OnWire(s);
    HeaderSlices(s);
    hide Flags, Be16, Be32, Headers, NetField16, NetField32;
    assert p[..54] == h;
    SliceSlice(p, 0, 54);
    assert p[0..54] == h && h[46..48][0] == h[46] && h[46..48][1] == h[47];
    Ping.Field16(p, 16, 40 + |s.options| + |s.data|);
    Ping.Field32(p, 26, s.src);
    Ping.Field16(p, 34, s.srcPort);
    Ping.Field32(p, 38, s.seqNum);
    Ping.Field32(p, 42, s.ackNum);
    Ping.Field16(p, 48, s.window);
  }

  lemma LowBit(b: bool, rest: nat)
    ensures (Bit(b, 1) + 2 * rest) % 2 == 1 <==> b
    ensures (Bit(b, 1) + 2 * rest) / 2 == rest
  {
  }

  lemma FlagBits(s: Segment)
    requires s.Valid()
    ensures var x: nat := Flags(s);
            && (x % 2 == 1 <==> s.fin) && (x / 2 % 2 == 1 <==> s.syn) && (x / 4 % 2 == 1 <==> s.rst)
            && (x / 8 % 2 == 1 <==> s.psh) && (x / 16 % 2 == 1 <==> s.ack)
  {
    hide Bit, Flags;
    FlagsNested(s);
    var x4 := Bit(s.ack, 1) + 2 * s.high;
    var x3 := Bit(s.psh, 1) + 2 * x4;
    var x2 := Bit(s.rst, 1) + 2 * x3;
    var x1 := Bit(s.syn, 1) + 2 * x2;
    FiveBits(Flags(s), x1, x2, x3, x4, s.high, s.fin, s.syn, s.rst, s.psh, s.ack);
  }

  lemma FiveBits(x: nat, x1: nat, x2: nat, x3: nat, x4: nat, x5: nat, b0: bool, b1: bool, b2: bool, b3: bool, b4: bool)
    requires x == Bit(b0, 1) + 2 * x1 && x1 == Bit(b1, 1) + 2 * x2 && x2 == Bit(b2, 1) + 2 * x3
    requires x3 == Bit(b3, 1) + 2 * x4 && x4 == Bit(b4, 1) + 2 * x5
    ensures (x % 2 == 1 <==> b0) && (x / 2 % 2 == 1 <==> b1) && (x / 4 % 2 == 1 <==> b2)
    ensures (x / 8 % 2 == 1 <==> b3) && (x / 16 % 2 == 1 <==> b4)
  {
    hide Bit;
    LowBit(b0, x1);
    LowBit(b1, x2);
    LowBit(b2, x3);
    LowBit(b3, x4);
    LowBit(b4, x5);
    Halves(x, x1, x2, x3, x4);
  }

  lemma Halves(x: nat, x1: nat, x2: nat, x3: nat, x4: nat)
    requires x / 2 == x1 && x1 / 2 == x2 && x2 / 2 == x3 && x3 / 2 == x4
    ensures x / 4 == x2 && x / 8 == x3 && x / 16 == x4
  {
  }

  lemma FlagsNested(s: Segment)
    requires s.Valid()
    ensures Flags(s) == Bit(s.fin, 1) + 2 * (Bit(s.syn, 1) + 2 * (Bit(s.rst, 1)
                        + 2 * (Bit(s.psh, 1) + 2 * (Bit(s.ack, 1) + 2 * s.high))))
  {
  }

  /** Everything the receiver reads from the frame `p` is what the segment says. */
  ghost predicate Reads(p: Frame, s: Segment) {
    && WellFormed(p)
    && NetField32(p, 26) == s.src && NetField16(p, 34) == s.srcPort && NetField32(p, 38) == s.seqNum
    && NetField32(p, 42) == s.ackNum && NetField16(p, 48) == s.window
    && (Flag(p, FIN) <==> s.fin) && (Flag(p, SYN) <==> s.syn) && (Flag(p, RST) <==> s.rst)
    && (Flag(p, PSH) <==> s.psh) && (Flag(p, ACK) <==> s.ack)
    && (Flag(p, PSH) ==> Payload(p) == s.data)
  }

  lemma OnWireReads(s: Segment)
    requires s.Valid()
    ensures Reads(OnWire(s), s)
  {
    FieldsRead(s);
    FlagBits(s);
    LengthNibble(s);
    hide OnWire, NetField16, NetField32, Flags;
  }

  lemma LengthNibble(s: Segment)
    requires s.Valid()
    ensures (16 * (5 + |s.options| / 4) + s.low) / 16 * 4 == 20 + |s.options|
  {
    var k := |s.options| / 4;
    assert (16 * (5 + k) + s.low) / 16 == 5 + k;
  }

  /** The segment comes from the peer of the connection. */
  predicate FromPeer(c: Conn, s: Segment) {
    c.state != 0 && c.remoteIp == s.src && c.remotePort == s.srcPort
  }

  // ---------------------------------------------------------------- one segment

  /** Segments of other peers, and any segment for a closed connection, have no effect; a reset
      clears the whole connection. */
  lemma IgnoredOrReset(c: Conn, s: Segment)
    requires s.Valid() && (!FromPeer(c, s) || s.rst)
    ensures WellFormed(OnWire(s))
    ensures Step(c, OnWire(s))
         == Outcome(if FromPeer(c, s) then Conn(0, 0, 0, 0, 0, 0, 0, 0, false) else c, [], [])
  {
    hide OnWire, OnData, OnFin, OnSynSent, Flag, NetField16, NetField32, Payload;
    OnWireReads(s);
  }

  /** In SYN_SENT a SYN+ACK sets both numbers from the peer's, is acknowledged with them and
      establishes the connection; anything else only updates the window. */
  lemma HandshakeOnWire(c: Conn, s: Segment)
    requires s.Valid() && c.state == 2 && FromPeer(c, s) && !s.rst
    ensures WellFormed(OnWire(s))
    ensures var c' := c.(ackNum := (s.seqNum + 1) % 0x1_0000_0000, seqNum := s.ackNum);
            Step(c, OnWire(s))
            == if s.syn && s.ack then
                 Outcome(c'.(state := 4, window := s.window), [], [Ack(c', [0, 0, 0, 0, 0, 0])])
               else Outcome(c.(window := s.window), [], [])
  {
    hide OnWire, OnData, OnFin, Flag, NetField16, NetField32, Payload, Wrap;
    OnWireReads(s);
    WrapIs(s.seqNum + 1);
  }

  /** In ESTABLISHED nonempty pushed data is given to the callback, if there is one, and acknowledged
      by its own number and length, options not counted; a FIN is acknowledged by its number alone
      and moves to CLOSE_WAIT; the window follows the peer's. */
  lemma EstablishedOnWire(c: Conn, s: Segment)
    requires s.Valid() && c.state == 4 && FromPeer(c, s) && !s.rst
    ensures WellFormed(OnWire(s))
    ensures var data := if s.psh then s.data else [];
            var d := if data != [] then c.(ackNum := (s.seqNum + |data|) % 0x1_0000_0000) else c;
            var f := if s.fin then d.(ackNum := (s.seqNum + 1) % 0x1_0000_0000, state := 9) else d;
            Step(c, OnWire(s))
            == Outcome(f.(window := s.window), if c.hasCallback then data else [],
                       (if data != [] then [Ack(d, [0xFF, 0xFF, 0xFF, 0xFF, 0xFF, 0xFF])] else [])
                       + if s.fin then [Ack(f, [0xFF, 0xFF, 0xFF, 0xFF, 0xFF, 0xFF])] else [])
  {
    hide OnWire, OnSynSent, Flag, NetField16, NetField32, Payload, Wrap;
    OnWireReads(s);
    WrapIs(s.seqNum + |s.data|);
    WrapIs(s.seqNum + 1);
  }

  /** In every other state only the window changes. */
  lemma WindowOnly(c: Conn, s: Segment)
    requires s.Valid() && c.state != 2 && c.state != 4 && FromPeer(c, s) && !s.rst
    ensures WellFormed(OnWire(s)) && Step(c, OnWire(s)) == Outcome(c.(window := s.window), [], [])
  {
    hide OnWire, OnSynSent, OnData, OnFin, Flag, NetField16, NetField32, Payload;
    OnWireReads(s);
  }

  // ---------------------------------------------------------------- acknowledgements

  /** An acknowledgement, byte by byte but for its two checksums, which verify as a receiver checks
      them: over the IP header, and over addresses, protocol, length, TCP header and data. */
  ghost predicate AckIs(r: Frame, c: Conn, mac: Mac, dst: Mac) {
    && |r| == 54
    && r == dst + mac + [8, 0] + [0x45, 0, 0, 40, 0, 0, 0, 0, 64, 6] + r[24..26] + Be32(c.localIp) + Be32(c.remoteIp)
            + Be16(c.localPort) + Be16(c.remotePort) + Be32(c.seqNum) + Be32(c.ackNum) + [0x50, 0x10, 0x20, 0]
            + r[50..52] + [0, 0]
    && InternetChecksum(r[14..34]) == 0
    && InternetChecksum(r[26..34] + [0, 6, 0, 20] + r[34..54]) == 0
  }

  lemma AckBytes(c: Conn, mac: Mac, dst: Mac)
    ensures AckIs(AckFrame(c, mac, dst), c, mac, dst)
  {
    hide TcpHeader, IpHeader, Sealed, SealedTcp, PseudoHeader, InternetChecksum, Be16, Be32;
    var r, h := AckFrame(c, mac, dst), TcpHeader(c.localPort, c.remotePort, c.seqNum, c.ackNum, ACK, 8192);
    TcpHeaderFields(c.localPort, c.remotePort, c.seqNum, c.ackNum, ACK, 8192);
    SegmentVerifies(mac, dst, c.localIp, c.remoteIp, h);
    SegmentParts(mac, dst, c.localIp, c.remoteIp, h);
    PseudoIs(c.localIp, c.remoteIp);
    assert r[26..34] == r[26..30] + r[30..34];
    assert r[26..34] + [0, 6, 0, 20] == PseudoHeader(Be32(c.localIp), Be32(c.remoteIp), 0);
    AckLayout(c, mac, dst);
  }

  lemma AckLayout(c: Conn, mac: Mac, dst: Mac)
    ensures var r := AckFrame(c, mac, dst);
            r == dst + mac + [8, 0] + [0x45, 0, 0, 40, 0, 0, 0, 0, 64, 6] + r[24..26]
                 + Be32(c.localIp) + Be32(c.remoteIp) + Be16(c.localPort) + Be16(c.remotePort)
                 + Be32(c.seqNum) + Be32(c.ackNum) + [0x50, 0x10, 0x20, 0]
                 + r[50..52] + [0, 0]
  {
    hide IpHeader, Sealed, TcpHeader, SealedTcp, Be16, Be32, InternetChecksum, Le16, PseudoHeader;
    var h := TcpHeader(c.localPort, c.remotePort, c.seqNum, c.ackNum, ACK, 8192);
    var x := Le16(InternetChecksum(IpHeader(IP_PROTO_TCP, c.localIp, c.remoteIp)));
    var y := Le16(InternetChecksum(PseudoHeader(Be32(c.localIp), Be32(c.remoteIp), 0) + h));
    Wire.IpHeaderSealed(IP_PROTO_TCP, c.localIp, c.remoteIp);
    AckTcpSealed(c);
    EthIs(dst, mac);
    LaidOut(dst + mac + [8, 0], [0x45, 0, 0, 40, 0, 0, 0, 0, 64, 6], x, Be32(c.localIp), Be32(c.remoteIp),
            Be16(c.localPort), Be16(c.remotePort), Be32(c.seqNum), Be32(c.ackNum), [0x50, 0x10, 0x20, 0], y, [0, 0]);
  }

  lemma EthIs(dst: Mac, mac: Mac)
    ensures EthHeader(dst, mac, ETH_TYPE_IP) == dst + mac + [8, 0]
  {
    assert Be16(ETH_TYPE_IP) == [8, 0];
  }

  lemma AckTcpSealed(c: Conn)
    ensures var h := TcpHeader(c.localPort, c.remotePort, c.seqNum, c.ackNum, ACK, 8192);
            SealedTcp(c.localIp, c.remoteIp, h)
            == (Be16(c.localPort) + Be16(c.remotePort) + Be32(c.seqNum) + Be32(c.ackNum) + [0x50, 0x10, 0x20, 0])
               + Le16(InternetChecksum(PseudoHeader(Be32(c.localIp), Be32(c.remoteIp), 0) + h)) + [0, 0]
  {
    assert Be16(8192) == [0x20, 0];
    hide InternetChecksum, Le16, PseudoHeader, Be16, Be32;
    var h := TcpHeader(c.localPort, c.remotePort, c.seqNum, c.ackNum, ACK, 8192);
    var g := Be16(c.localPort) + Be16(c.remotePort) + Be32(c.seqNum) + Be32(c.ackNum) + [0x50, 0x10, 0x20, 0];
    assert h == g + [0, 0] + [0, 0];
    SpliceMiddle(g, [0, 0], [0, 0], Le16(InternetChecksum(PseudoHeader(Be32(c.localIp), Be32(c.remoteIp), 0) + h)));
  }

  lemma LaidOut(e: seq<uint8>, a: seq<uint8>, x: seq<uint8>, s: seq<uint8>, t: seq<uint8>, p: seq<uint8>, q: seq<uint8>,
                m: seq<uint8>, n: seq<uint8>, f: seq<uint8>, y: seq<uint8>, z: seq<uint8>)
    requires |e| == 14 && |a| == 10 && |x| == 2 && |s + t| == 8 && |p + q + m + n + f| == 16 && |y| == 2
    ensures var r := e + (a + x + (s + t)) + ((p + q + m + n + f) + y + z);
            r[24..26] == x && r[50..52] == y && r == e + a + x + s + t + p + q + m + n + f + y + z
  {
    var st, g := s + t, p + q + m + n + f;
    var r := e + (a + x + st) + (g + y + z);
    assert r == (e + a) + x + (st + g + y + z) && r == (e + a + x + st + g) + y + z;
    assert e + a + x + st == e + a + x + s + t;
    assert e + a + x + s + t + g == e + a + x + s + t + p + q + m + n + f;
  }

  // ---------------------------------------------------------------- the stream

  predicate AllValid(ss: seq<Segment>) {
    forall k :: 0 <= k < |ss| ==> ss[k].Valid()
  }

  /** The segments as they arrive, one after the other. */
  function Arriving(ss: seq<Segment>): (ps: seq<Frame>)
    requires AllValid(ss)
    ensures |ps| == |ss| && forall k :: 0 <= k < |ss| ==> ps[k] == OnWire(ss[k])
  {
    seq(|ss|, k requires 0 <= k < |ss| => OnWire(ss[k]))
  }

  /** The data of the segments the peer pushes, in order of arrival. */
  function Pushed(c: Conn, ss: seq<Segment>): seq<seq<uint8>> {
    if ss == [] then []
    else (if FromPeer(c, ss[0]) && ss[0].psh && ss[0].data != [] then [ss[0].data] else []) + Pushed(c, ss[1..])
  }

  /** From the `n`-th byte on, the peer pushes the stream in order and without loss, in pieces of any
      size; other segments, of the peer or of anyone else, may come in between. */
  predicate InSequence(c: Conn, isn: uint32, stream: seq<uint8>, n: nat, ss: seq<Segment>)
    requires n <= |stream|
    decreases ss
  {
    if ss == [] then true
    else if !FromPeer(c, ss[0]) then InSequence(c, isn, stream, n, ss[1..])
    else
      var s := ss[0];
      && !s.rst && !s.fin
      && if s.psh && s.data != [] then
           && s.seqNum == (isn + 1 + n) % 0x1_0000_0000
           && n + |s.data| <= |stream| && s.data == stream[n..n + |s.data|]
           && InSequence(c, isn, stream, n + |s.data|, ss[1..])
         else InSequence(c, isn, stream, n, ss[1..])
  }

  lemma ArrivingRest(ss: seq<Segment>)
    requires AllValid(ss) && ss != []
    ensures AllValid(ss[1..]) && Arriving(ss)[1..] == Arriving(ss[1..]) && Arriving(ss)[0] == OnWire(ss[0])
  {
  }

  lemma {:induction false} ArrivingWellFormed(ss: seq<Segment>)
    requires AllValid(ss)
    ensures AllWellFormed(Arriving(ss))
  {
    hide OnWire, WellFormed, Reads;
    forall k | 0 <= k < |ss| ensures WellFormed(Arriving(ss)[k]) {
      ReadsWellFormed(ss[k]);
    }
  }

  lemma ReadsWellFormed(s: Segment)
    requires s.Valid()
    ensures WellFormed(OnWire(s))
  {
    hide OnWire, WellFormed, NetField16, NetField32, Flag, Payload;
    OnWireReads(s);
  }

  /** What one segment is to the connection. */
  lemma OneOnWire(c: Conn, s: Segment, isn: uint32, n: nat, stream: seq<uint8>)
    requires s.Valid()
    ensures WellFormed(OnWire(s))
    ensures Piece(c, OnWire(s)) == if FromPeer(c, s) && s.psh && s.data != [] then [s.data] else []
    ensures !FromPeer(c, s) || (!s.rst && !s.fin && !(s.psh && s.data != [])) ==> IsIdle(c, OnWire(s))
    ensures FromPeer(c, s) && s.psh && !s.rst && !s.fin ==>
              Flag(OnWire(s), PSH) && Payload(OnWire(s)) == s.data && IsData(c, OnWire(s), s.seqNum, s.data)
  {
    hide OnWire, WellFormed, NetField16, NetField32, Flag, Payload;
    OnWireReads(s);
  }

  lemma {:induction false} SequenceRead(c: Conn, isn: uint32, stream: seq<uint8>, n: nat, ss: seq<Segment>)
    requires AllValid(ss) && n <= |stream| && InSequence(c, isn, stream, n, ss) && AllWellFormed(Arriving(ss))
    ensures InOrder(c, isn, stream, n, Arriving(ss)) && Pieces(c, Arriving(ss)) == Pushed(c, ss)
    decreases ss
  {
    hide OnWire, WellFormed, Flag, Payload, IsIdle, IsData, FromPeer, Piece, Arriving, Wrap;
    if ss != [] {
      var s, rest := ss[0], ss[1..];
      ArrivingRest(ss);
      ArrivingWellFormed(rest);
      OneOnWire(c, s, isn, n, stream);
      WrapIs(isn + 1 + n);
      SequenceRead(c, isn, stream, if FromPeer(c, s) && s.psh && s.data != [] then n + |s.data| else n, rest);
    }
  }

  /** The receive stream on the wire.  Whatever options, padding and foreign segments there are, and
      however the peer cuts its stream: the callback has been given exactly what the peer pushed, the
      next bytes of the stream; ack_num is the number of the byte after them; and there is one
      acknowledgement for each pushed segment, carrying the number after its last byte. */
  lemma StreamOnWire(c: Conn, mac: Mac, isn: uint32, stream: seq<uint8>, n: nat, ss: seq<Segment>)
    requires AllValid(ss) && n <= |stream| && InSequence(c, isn, stream, n, ss)
    requires c.state == 4 && c.hasCallback && c.ackNum == (isn + 1 + n) % 0x1_0000_0000
    ensures AllWellFormed(Arriving(ss))
    ensures var o := Run(c, Arriving(ss));
            var end := n + |o.delivered|;
            && end <= |stream| && o.delivered == Concat(Pushed(c, ss)) == stream[n..end]
            && o.conn.state == 4 && o.conn.ackNum == (isn + 1 + end) % 0x1_0000_0000
    ensures var sent := AckFrames(mac, Run(c, Arriving(ss)).acks);
            && |sent| == |Pushed(c, ss)|
            && forall k :: 0 <= k < |sent| ==>
                 |sent[k]| == 54
                 && sent[k][42..46] == Be32((isn + 1 + n + |Concat(Pushed(c, ss)[..k + 1])|) % 0x1_0000_0000)
  {
    hide InSequence, InOrder, Run, Pushed, Pieces, Concat, Be32, Arriving, AckFrame, AckFrames, Wrap;
    ArrivingWellFormed(ss);
    WrapIs(isn + 1 + n);
    WrapIs(isn + 1 + n + |Run(c, Arriving(ss)).delivered|);
    SequenceRead(c, isn, stream, n, ss);
    StreamReceived(c, isn, stream, n, Arriving(ss));
    var acks := Run(c, Arriving(ss)).acks;
    forall k | 0 <= k < |acks|
      ensures |AckFrames(mac, acks)[k]| == 54
      ensures AckFrames(mac, acks)[k][42..46] == Be32((isn + 1 + n + |Concat(Pushed(c, ss)[..k + 1])|) % 0x1_0000_0000)
    {
      WrapIs(isn + 1 + n + |Concat(Pushed(c, ss)[..k + 1])|);
      assert Acknowledges(acks[k], isn, n + |Concat(Pushed(c, ss)[..k + 1])|);
      AckNumberBytes(acks[k].conn, mac, acks[k].dst);
    }
  }

  lemma AckNumberBytes(c: Conn, mac: Mac, dst: Mac)
    ensures AckFrame(c, mac, dst)[42..46] == Be32(c.ackNum)
  {
    hide AckFrame, Be32, NetField32;
    AckFrameFacts(c, mac, dst);
    Wire.Raw32(AckFrame(c, mac, dst), 42, c.ackNum);
  }
}
