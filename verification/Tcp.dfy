/** One connection of the earlier TCP (tcp.c.bak:208-216, 246-290, 347-577): what a received
    segment does to it, and the acknowledgements it sends. */
module Tcp {
  import opened Bytes
  import opened Checksum
  import opened Arp
  import opened Frames
  import opened Network
  import Ping

  // the flag bits, as masks
  const FIN := 0x01
  const SYN := 0x02
  const RST := 0x04
  const PSH := 0x08
  const ACK := 0x10

  const IP_PROTO_TCP: uint8 := 6
  const CLOSED := 0
  const SYN_SENT := 2
  const ESTABLISHED := 4
  const CLOSE_WAIT := 9
  const WORD32 := 0x1_0000_0000

  /** What a 32-bit number becomes of `x`: whole turns of 2^32 are lost. */
  function Wrap(x: nat): uint32 {
    Mod(x, WORD32)
  }

  lemma WrapIs(x: nat)
    ensures Wrap(x) == x % 0x1_0000_0000
  {
    hide Mod;
    ModIsRemainder(x, WORD32);
  }

  /** The flags byte has the bit of the mask. */
  predicate Flag(p: Frame, mask: nat)
    requires |p| >= 54 && mask in {FIN, SYN, RST, PSH, ACK}
  {
    if mask == FIN then p[47] % 2 == 1
    else if mask == SYN then p[47] / 2 % 2 == 1
    else if mask == RST then p[47] / 4 % 2 == 1
    else if mask == PSH then p[47] / 8 % 2 == 1
    else p[47] / 16 % 2 == 1
  }

  /** struct tcp_connection, with the data callback's presence. */
  datatype Conn = Conn(state: nat, localIp: uint32, localPort: uint16, remoteIp: uint32, remotePort: uint16,
                       seqNum: uint32, ackNum: uint32, window: uint16, hasCallback: bool)

  const FREED := Conn(CLOSED, 0, 0, 0, 0, 0, 0, 0, false)

  // ---------------------------------------------------------------- reading a segment

  predicate Matches(c: Conn, p: Frame)
    requires |p| >= 54
  {
    c.state != CLOSED && NetField32(p, 26) == c.remoteIp && NetField16(p, 34) == c.remotePort
  }

  function HeaderLength(p: Frame): nat
    requires |p| >= 54
  {
    p[46] / 16 * 4
  }

  /** The packets the code may be handed: all three headers are read without a length check, and
      of a packet that pushes data the IP total length is believed. */
  predicate WellFormed(p: Frame) {
    |p| >= 54 && (Flag(p, PSH) ==> 20 + HeaderLength(p) <= NetField16(p, 16) && 14 + NetField16(p, 16) <= |p|)
  }

  /** The bytes after the TCP header. */
  function Payload(p: Frame): (d: seq<uint8>)
    requires WellFormed(p) && Flag(p, PSH)
    ensures |d| < 0x1_0000
  {
    p[34 + HeaderLength(p)..14 + NetField16(p, 16)]
  }

  // ---------------------------------------------------------------- segments built

  /** The TCP header of a segment without options, checksum zero. */
  function TcpHeader(srcPort: uint16, dstPort: uint16, seqNum: uint32, ackNum: uint32,
                     flags: uint8, window: uint16): (r: seq<uint8>)
    ensures |r| == 20
  {
    Be16(srcPort) + Be16(dstPort) + Be32(seqNum) + Be32(ackNum) + [0x50, flags] + Be16(window) + [0, 0, 0, 0]
  }

  /** The header with the checksum over pseudo-header and header filled in. */
  function SealedTcp(ip: uint32, target: uint32, header: seq<uint8>): (r: seq<uint8>)
    requires |header| == 20
    ensures |r| == 20
  {
    Splice(header, 16, Le16(InternetChecksum(PseudoHeader(Be32(ip), Be32(target), 0) + header)))
  }

  /** A segment without data, as all senders of tcp.c.bak build it. */
  function SegmentFrame(mac: Mac, dst: Mac, ip: uint32, target: uint32, header: seq<uint8>): (r: Frame)
    requires |header| == 20
    ensures |r| == 54
  {
    EthHeader(dst, mac, ETH_TYPE_IP) + Sealed(IpHeader(IP_PROTO_TCP, ip, target), 10) + SealedTcp(ip, target, header)
  }

  function AckFrame(c: Conn, mac: Mac, dst: Mac): (r: Frame)
    ensures |r| == 54
  {
    SegmentFrame(mac, dst, c.localIp, c.remoteIp, TcpHeader(c.localPort, c.remotePort, c.seqNum, c.ackNum, ACK, 8192))
  }

  /** In every segment built, whatever its header, both checksums verify: network_checksum over
      the IP header, and the TCP checksum over pseudo-header and header. */
  lemma SegmentVerifies(mac: Mac, dst: Mac, ip: uint32, target: uint32, header: seq<uint8>)
    requires |header| == 20 && header[16] == header[17] == 0
    ensures var r := SegmentFrame(mac, dst, ip, target, header);
            && InternetChecksum(r[14..34]) == 0
            && InternetChecksum(PseudoHeader(Be32(ip), Be32(target), 0) + r[34..54]) == 0
            && InternetChecksum(Be32(ip) + Be32(target) + [0, 6, 0, 20] + r[34..54]) == 0
            && r[34..50] == header[..16]
  {
    PseudoIs(ip, target);
    var r, h := SegmentFrame(mac, dst, ip, target, header), IpHeader(IP_PROTO_TCP, ip, target);
    var s := SealedTcp(ip, target, header);
    Ping.HeaderFields(IP_PROTO_TCP, ip, target);
    Ping.SealedVerifies(h, 10);
    assert r[14..34] == Sealed(h, 10);
    assert r[34..54] == s && r[34..50] == s[..16];
    var pseudo := PseudoHeader(Be32(ip), Be32(target), 0);
    assert |pseudo| == 12 && (pseudo + header)[28] == header[16] && (pseudo + header)[29] == header[17];
    StoredChecksumVerifies(pseudo + header, 28);
    assert Splice(pseudo + header, 28, Le16(InternetChecksum(pseudo + header))) == pseudo + s;
  }

  lemma PseudoIs(ip: uint32, target: uint32)
    ensures PseudoHeader(Be32(ip), Be32(target), 0) == Be32(ip) + Be32(target) + [0, 6, 0, 20]
  {
    hide Be32;
    assert Be16(20) == [0, 20];
  }

  /** And as the receiver checks it, from the fields of the frame alone. */
  lemma SegmentChecked(mac: Mac, dst: Mac, ip: uint32, target: uint32, header: seq<uint8>)
    requires |header| == 20 && header[16] == header[17] == 0
    ensures var r := SegmentFrame(mac, dst, ip, target, header);
            && r[16..18] == [0, 40] && r[23] == 6 && r[26..30] == Be32(ip) && r[30..34] == Be32(target)
            && InternetChecksum(r[26..34] + [0, r[23]] + Be16(NetField16(r, 16) - 20) + r[34..54]) == 0
  {
    hide InternetChecksum, PseudoHeader, Be32, SealedTcp;
    var r := SegmentFrame(mac, dst, ip, target, header);
    SegmentVerifies(mac, dst, ip, target, header);
    SegmentParts(mac, dst, ip, target, header);
    SegmentLength(mac, dst, ip, target, header);
    assert r[26..34] == Be32(ip) + Be32(target) by {
      assert r[26..34] == r[26..30] + r[30..34];
    }
    assert Be16(20) == [0, 20] && NetField16(r, 16) == 40;
    assert r[26..34] + [0, 6] + [0, 20] == Be32(ip) + Be32(target) + [0, 6, 0, 20];
  }

  lemma SegmentLength(mac: Mac, dst: Mac, ip: uint32, target: uint32, header: seq<uint8>)
    requires |header| == 20
    ensures var r := SegmentFrame(mac, dst, ip, target, header);
            r[16..18] == [0, 40] && r[23] == 6 && NetField16(r, 16) == 40
  {
    hide SealedTcp, Be32, InternetChecksum;
    var r, h := SegmentFrame(mac, dst, ip, target, header), IpHeader(IP_PROTO_TCP, ip, target);
    assert Be16(40) == [0, 40];
    Ping.HeaderFields(IP_PROTO_TCP, ip, target);
    assert r[14..34] == Sealed(h, 10);
    assert Sealed(h, 10)[..10] == h[..10];
    assert r[14..24] == h[..10];
    Ping.HeaderFront(r, h);
    Ping.Field16(r, 16, 40);
  }

  lemma TcpHeaderFields(srcPort: uint16, dstPort: uint16, seqNum: uint32, ackNum: uint32, flags: uint8, window: uint16)
    ensures var h := TcpHeader(srcPort, dstPort, seqNum, ackNum, flags, window);
            && h[0..2] == Be16(srcPort) && h[2..4] == Be16(dstPort)
            && h[4..8] == Be32(seqNum) && h[8..12] == Be32(ackNum)
            && h[12..14] == [0x50, flags] && h[14..16] == Be16(window) && h[16] == h[17] == 0
  {
    var h := TcpHeader(srcPort, dstPort, seqNum, ackNum, flags, window);
    assert h[16..20] == [0, 0, 0, 0];
    assert h[16] == h[16..20][0] && h[17] == h[16..20][1];
  }

  /** The addresses and the TCP header of a segment, where the receiver reads them. */
  lemma SegmentParts(mac: Mac, dst: Mac, ip: uint32, target: uint32, header: seq<uint8>)
    requires |header| == 20
    ensures var r := SegmentFrame(mac, dst, ip, target, header);
            r[26..30] == Be32(ip) && r[30..34] == Be32(target) && r[34..50] == header[..16]
  {
    var r, s := SegmentFrame(mac, dst, ip, target, header), SealedTcp(ip, target, header);
    var h := IpHeader(IP_PROTO_TCP, ip, target);
    Ping.HeaderFields(IP_PROTO_TCP, ip, target);
    assert r[14..34] == Sealed(h, 10) && r[34..54] == s;
    SliceSlice(r, 14, 34);
    assert Sealed(h, 10)[12..16] == h[12..16] && Sealed(h, 10)[16..20] == h[16..20];
    assert r[34..50] == r[34..54][0..16] == s[..16] == header[..16];
  }

  /** What an acknowledgement says: from this end to the other, the two numbers, the ACK flag and
      nothing else, the window; and both its checksums verify. */
  lemma AckFrameFacts(c: Conn, mac: Mac, dst: Mac)
    ensures var r := AckFrame(c, mac, dst);
            && NetField32(r, 26) == c.localIp && NetField32(r, 30) == c.remoteIp
            && NetField16(r, 34) == c.localPort && NetField16(r, 36) == c.remotePort
            && NetField32(r, 38) == c.seqNum && NetField32(r, 42) == c.ackNum
            && r[47] == ACK && NetField16(r, 48) == 8192
            && InternetChecksum(r[14..34]) == 0
            && InternetChecksum(PseudoHeader(Be32(c.localIp), Be32(c.remoteIp), 0) + r[34..54]) == 0
  {
    var r, h := AckFrame(c, mac, dst), TcpHeader(c.localPort, c.remotePort, c.seqNum, c.ackNum, ACK, 8192);
    TcpHeaderFields(c.localPort, c.remotePort, c.seqNum, c.ackNum, ACK, 8192);
    SegmentVerifies(mac, dst, c.localIp, c.remoteIp, h);
    SegmentParts(mac, dst, c.localIp, c.remoteIp, h);
    hide AckFrame, TcpHeader, InternetChecksum, PseudoHeader, Be16, Be32;
    SliceSlice(r, 34, 50);
    assert h[..16] == r[34..50];
    SliceSlice(h, 0, 16);
    assert h[..16] == h[0..16];
    AckNumbers(c, r, h);
  }

  lemma AckNumbers(c: Conn, r: Frame, h: seq<uint8>)
    requires |r| == 54 && |h| == 20 && r[26..30] == Be32(c.localIp) && r[30..34] == Be32(c.remoteIp)
    requires forall a, b {:trigger r[a..b]} :: 34 <= a <= b <= 50 ==> r[a..b] == h[a - 34..b - 34]
    requires h[0..2] == Be16(c.localPort) && h[2..4] == Be16(c.remotePort)
    requires h[4..8] == Be32(c.seqNum) && h[8..12] == Be32(c.ackNum)
    requires h[12..14] == [0x50, ACK] && h[14..16] == Be16(8192)
    ensures NetField32(r, 26) == c.localIp && NetField32(r, 30) == c.remoteIp
    ensures NetField16(r, 34) == c.localPort && NetField16(r, 36) == c.remotePort
    ensures NetField32(r, 38) == c.seqNum && NetField32(r, 42) == c.ackNum
    ensures r[47] == ACK && NetField16(r, 48) == 8192
  {
    hide Be16, Be32;
    Ping.Field32(r, 26, c.localIp);
    Ping.Field32(r, 30, c.remoteIp);
    Ping.Field16(r, 34, c.localPort);
    Ping.Field16(r, 36, c.remotePort);
    Ping.Field32(r, 38, c.seqNum);
    Ping.Field32(r, 42, c.ackNum);
    Ping.Field16(r, 48, 8192);
    assert r[46..48] == [0x50, ACK] && r[47] == r[46..48][1];
  }

  // ---------------------------------------------------------------- one received segment

  const NO_MAC: Mac := [0, 0, 0, 0, 0, 0]

  /** An acknowledgement of the connection as it is in `conn`, to the MAC `dst`. */
  datatype Ack = Ack(conn: Conn, dst: Mac)

  /** The connection afterwards, the bytes given to the callback and the acknowledgements sent. */
  datatype Outcome = Outcome(conn: Conn, delivered: seq<uint8>, acks: seq<Ack>)

  /** The frames of the acknowledgements, sent by a node with the MAC `mac`. */
  function AckFrames(mac: Mac, acks: seq<Ack>): (fs: seq<Frame>)
    ensures |fs| == |acks| && forall k :: 0 <= k < |acks| ==> fs[k] == AckFrame(acks[k].conn, mac, acks[k].dst)
  {
    seq(|acks|, k requires 0 <= k < |acks| => AckFrame(acks[k].conn, mac, acks[k].dst))
  }

  lemma NoAcks(mac: Mac)
    ensures AckFrames(mac, []) == []
  {
  }

  lemma AckFramesAppend(mac: Mac, a: seq<Ack>, b: seq<Ack>)
    ensures AckFrames(mac, a + b) == AckFrames(mac, a) + AckFrames(mac, b)
  {
    hide AckFrame;
  }

  /** The SYN_SENT case: a SYN+ACK establishes the connection and is acknowledged. */
  function OnSynSent(c: Conn, p: Frame): Outcome
    requires |p| >= 54
  {
    if Flag(p, SYN) && Flag(p, ACK) then
      var c' := c.(ackNum := Wrap(NetField32(p, 38) + 1), seqNum := NetField32(p, 42));
      Outcome(c'.(state := ESTABLISHED), [], [Ack(c', NO_MAC)])
    else Outcome(c, [], [])
  }

  /** The data part of the ESTABLISHED case: nonempty pushed data goes to the callback, if there
      is one, and is acknowledged by its own sequence number. */
  function OnData(c: Conn, p: Frame): Outcome
    requires WellFormed(p)
  {
    if Flag(p, PSH) && |Payload(p)| > 0 then
      var c' := c.(ackNum := Wrap(NetField32(p, 38) + |Payload(p)|));
      Outcome(c', if c.hasCallback then Payload(p) else [], [Ack(c', BROADCAST)])
    else Outcome(c, [], [])
  }

  /** The FIN part: acknowledged by the sequence number alone. */
  function OnFin(c: Conn, p: Frame): Outcome
    requires |p| >= 54
  {
    if Flag(p, FIN) then
      var c' := c.(ackNum := Wrap(NetField32(p, 38) + 1), state := CLOSE_WAIT);
      Outcome(c', [], [Ack(c', BROADCAST)])
    else Outcome(c, [], [])
  }

  function Step(c: Conn, p: Frame): Outcome
    requires WellFormed(p)
  {
    if !Matches(c, p) then Outcome(c, [], [])
    else if Flag(p, RST) then Outcome(FREED, [], [])
    else
      var o :=
        if c.state == SYN_SENT then OnSynSent(c, p)
        else if c.state == ESTABLISHED then
          var d := OnData(c, p);
          var f := OnFin(d.conn, p);
          Outcome(f.conn, d.delivered, d.acks + f.acks)
        else Outcome(c, [], []);
      o.(conn := o.conn.(window := NetField16(p, 48)))
  }

  // ---------------------------------------------------------------- the code

  class Connection {
    const macAddr: Mac
    var state: nat
    var localIp: uint32
    var localPort: uint16
    var remoteIp: uint32
    var remotePort: uint16
    var seqNum: uint32
    var ackNum: uint32
    var window: uint16
    var hasCallback: bool
    var delivered: seq<uint8>   // what the callback was given
    var sent: seq<Frame>

    function State(): Conn
      reads this
    {
      Conn(state, localIp, localPort, remoteIp, remotePort, seqNum, ackNum, window, hasCallback)
    }

    constructor (mac: Mac, ip: uint32, port: uint16, peerIp: uint32, peerPort: uint16, callback: bool)
      ensures State() == Conn(SYN_SENT, ip, port, peerIp, peerPort, 0, 0, 0, callback)
      ensures macAddr == mac && delivered == [] && sent == []
    {
      macAddr, state, localIp, localPort, remoteIp, remotePort := mac, SYN_SENT, ip, port, peerIp, peerPort;
      seqNum, ackNum, window, hasCallback, delivered, sent := 0, 0, 0, callback, [], [];
    }

    /** tcp_handle_packet, with this as the only connection in the pool. */
    method HandlePacket(p: Frame)
      requires WellFormed(p)
      modifies this
      ensures var o := Step(old(State()), p);
              State() == o.conn && delivered == old(delivered) + o.delivered
              && sent == old(sent) + AckFrames(macAddr, o.acks)
    {
      hide AckFrame, AckFrames, Payload, Flag, NetField16, NetField32, OnData, Wrap;
      NoAcks(macAddr);
      if state == CLOSED || remoteIp != NetField32(p, 26) || remotePort != NetField16(p, 34) {
        return;
      }
      if Flag(p, RST) {
        state, localIp, localPort, remoteIp, remotePort := CLOSED, 0, 0, 0, 0;
        seqNum, ackNum, window, hasCallback := 0, 0, 0, false;
        return;
      }
      if state == SYN_SENT {
        if Flag(p, SYN) && Flag(p, ACK) {
          WrapIs(NetField32(p, 38) + 1);
          ackNum := (NetField32(p, 38) + 1) % WORD32;
          seqNum := NetField32(p, 42);
          SendAck(NO_MAC);
          state := ESTABLISHED;
        }
      } else if state == ESTABLISHED {
        HandleData(p);
        ghost var d := OnData(old(State()), p);
        if Flag(p, FIN) {
          WrapIs(NetField32(p, 38) + 1);
          ackNum := (NetField32(p, 38) + 1) % WORD32;
          state := CLOSE_WAIT;
          SendAck(BROADCAST);
          AckFramesAppend(macAddr, d.acks, [Ack(State(), BROADCAST)]);
        } else {
          assert d.acks + [] == d.acks;
        }
      }
      window := NetField16(p, 48);
    }

    /** The data part of the ESTABLISHED case and tcp_handle_data; without a callback the receive
        queue allocation always fails and the data is dropped. */
    method HandleData(p: Frame)
      requires WellFormed(p)
      modifies this
      ensures var o := OnData(old(State()), p);
              State() == o.conn && delivered == old(delivered) + o.delivered
              && sent == old(sent) + AckFrames(macAddr, o.acks)
    {
      hide AckFrame, AckFrames, Payload, Flag, NetField16, NetField32, Wrap;
      NoAcks(macAddr);
      if Flag(p, PSH) {
        var data := FindData(p);
        if |data| > 0 {
          if hasCallback {
            delivered := delivered + data;
          }
          WrapIs(NetField32(p, 38) + |data|);
          ackNum := (NetField32(p, 38) + |data|) % WORD32;
          SendAck(BROADCAST);
        }
      }
    }

    /** The data behind the two headers, from the lengths the packet claims (tcp.c.bak:460-463). */
    static method FindData(p: Frame) returns (data: seq<uint8>)
      requires WellFormed(p) && Flag(p, PSH)
      ensures data == Payload(p)
    {
      hide NetField16, Flag;
      var dataOffset := p[46] / 16 * 4;
      var dataLength := (NetField16(p, 16) - 20 - dataOffset) % 0x1_0000;
      data := p[34 + dataOffset..34 + dataOffset + dataLength];
    }

    /** Build and send an acknowledgement from the connection's fields (tcp.c.bak:403-446, 469-511,
        521-564). */
    method SendAck(dst: Mac)
      modifies this`sent
      ensures sent == old(sent) + [AckFrame(State(), macAddr, dst)]
      ensures sent == old(sent) + AckFrames(macAddr, [Ack(State(), dst)])
    {
      var buffer := new uint8[54];
      PutEthHeader(buffer, dst, macAddr, ETH_TYPE_IP);
      PutIpHeader(buffer, IP_PROTO_TCP, localIp, remoteIp);
      PutTcpHeader(buffer, localPort, remotePort, seqNum, ackNum, ACK, 8192);
      SealIpAndTcp(buffer, localIp, remoteIp, EthHeader(dst, macAddr, ETH_TYPE_IP),
                   TcpHeader(localPort, remotePort, seqNum, ackNum, ACK, 8192));
      sent := sent + [buffer[..]];
    }
  }

  method PutTcpHeader(buffer: array<uint8>, srcPort: uint16, dstPort: uint16, seqNum: uint32, ackNum: uint32,
                      flags: uint8, window: uint16)
    requires buffer.Length >= 54
    modifies buffer
    ensures buffer[..54] == old(buffer[..34]) + TcpHeader(srcPort, dstPort, seqNum, ackNum, flags, window)
  {
    HtonsStored(srcPort);
    HtonsStored(dstPort);
    HtonsStored(window);
    HtonlStored(seqNum);
    HtonlStored(ackNum);
    ghost var start := buffer[..34];
    Store(buffer, 34, Le16(Htons(srcPort)));
    Store(buffer, 36, Le16(Htons(dstPort)));
    Store(buffer, 38, Le32(Htonl(seqNum)));
    Store(buffer, 42, Le32(Htonl(ackNum)));
    Store(buffer, 46, [0x50, flags]);
    Store(buffer, 48, Le16(Htons(window)));
    Store(buffer, 50, [0, 0, 0, 0]);
    Regroup7(start, Be16(srcPort), Be16(dstPort), Be32(seqNum), Be32(ackNum),
             [0x50, flags], Be16(window), [0, 0, 0, 0]);
  }

  lemma Regroup7<T>(s: seq<T>, a: seq<T>, b: seq<T>, c: seq<T>, d: seq<T>, e: seq<T>, f: seq<T>, g: seq<T>)
    ensures s + a + b + c + d + e + f + g == s + (a + b + c + d + e + f + g)
  {
  }

  /** Fill in both checksums of the segment in `buffer`: network_checksum over the IP header and
      htons of tcp_checksum over the segment. */
  method SealIpAndTcp(buffer: array<uint8>, ip: uint32, target: uint32, ghost eth: seq<uint8>, ghost header: seq<uint8>)
    requires buffer.Length == 54 && |eth| == 14 && |header| == 20
    requires buffer[..54] == eth + IpHeader(IP_PROTO_TCP, ip, target) + header
    modifies buffer
    ensures buffer[..] == eth + Sealed(IpHeader(IP_PROTO_TCP, ip, target), 10) + SealedTcp(ip, target, header)
  {
    ghost var h := IpHeader(IP_PROTO_TCP, ip, target);
    SplitPacket(buffer[..], eth, h, header);
    Ping.HeaderFields(IP_PROTO_TCP, ip, target);
    hide IpHeader, InternetChecksum, PseudoHeader, Be32;
    SealIpHeader(buffer);
    assert buffer[34..54] == buffer[34..][..20] == header;
    assert Sealed(h, 10)[12..16] == h[12..16] && Sealed(h, 10)[16..20] == h[16..20];
    var tcpSum := TcpChecksum(buffer[14..34][12..16], buffer[14..34][16..20], buffer[34..54], []);
    assert PseudoHeader(Be32(ip), Be32(target), 0) + header + [] == PseudoHeader(Be32(ip), Be32(target), 0) + header;
    StoreField(buffer, 34, 20, 16, Le16(Htons(tcpSum)));
    assert buffer[14..34] == buffer[..34][14..] == Sealed(h, 10);
    assert buffer[..14] == buffer[..34][..14] == eth;
    assert buffer[..] == buffer[..14] + buffer[14..34] + buffer[34..54];
  }

  // ---------------------------------------------------------------- the received stream

  /** The acknowledgement number that covers `n` bytes of a stream whose SYN was numbered `isn`. */
  function AckFor(isn: uint32, n: nat): uint32 {
    Wrap(isn + 1 + n)
  }

  /** Established with a callback, and the next byte expected is the one after `n` bytes. */
  predicate InStep(c: Conn, isn: uint32, n: nat) {
    c.state == ESTABLISHED && c.hasCallback && c.ackNum == AckFor(isn, n)
  }

  /** A segment of this connection that only pushes data, with sequence number `q`. */
  predicate IsData(c: Conn, p: Frame, q: uint32, data: seq<uint8>) {
    && WellFormed(p) && Matches(c, p) && Flag(p, PSH) && !Flag(p, RST) && !Flag(p, FIN)
    && NetField32(p, 38) == q && Payload(p) == data
  }

  /** A segment of another connection, or one of this connection without data, RST or FIN. */
  predicate IsIdle(c: Conn, p: Frame) {
    WellFormed(p) && (!Matches(c, p) || (!Flag(p, RST) && !Flag(p, FIN) && (!Flag(p, PSH) || Payload(p) == [])))
  }

  /** The handshake puts the connection in step with the peer's stream. */
  lemma HandshakeInStep(c: Conn, p: Frame)
    requires c.state == SYN_SENT && c.hasCallback && WellFormed(p) && Matches(c, p)
    requires Flag(p, SYN) && Flag(p, ACK) && !Flag(p, RST)
    ensures var o := Step(c, p);
            InStep(o.conn, NetField32(p, 38), 0) && o.delivered == []
            && o.acks == [Ack(c.(ackNum := AckFor(NetField32(p, 38), 0), seqNum := NetField32(p, 42)), NO_MAC)]
            && o.conn.state == ESTABLISHED && o.conn.remoteIp == c.remoteIp && o.conn.remotePort == c.remotePort
  {
    hide NetField16, NetField32, Flag;
  }

  /** A data segment is delivered whatever its sequence number; the connection stays in step
      exactly when that number is the one it expects. */
  lemma DataStep(c: Conn, p: Frame, isn: uint32, n: nat, q: uint32, data: seq<uint8>)
    requires InStep(c, isn, n) && IsData(c, p, q, data) && data != []
    ensures var o := Step(c, p);
            && o.delivered == data && o.conn.ackNum == Wrap(q + |data|)
            && o.acks == [Ack(c.(ackNum := o.conn.ackNum), BROADCAST)]
            && (InStep(o.conn, isn, n + |data|) <==> q == c.ackNum)
  {
    hide Payload, Flag, NetField16, NetField32;
    ShiftMod(isn + 1 + n, q, |data|);
  }

  /** A segment that ends where the connection expects the next byte was received before; it is
      delivered once more and changes nothing else about the position. */
  lemma OldSegment(c: Conn, p: Frame, isn: uint32, n: nat, q: uint32, data: seq<uint8>)
    requires InStep(c, isn, n) && IsData(c, p, q, data) && data != []
    requires Wrap(q + |data|) == AckFor(isn, n)
    ensures var o := Step(c, p);
            o.delivered == data && InStep(o.conn, isn, n) && !InStep(o.conn, isn, n + |data|)
  {
    hide Step, Payload, IsData;
    DataShort(c, p, q, data);
    DataStep(c, p, isn, n, q, data);
    DataKeepsPeer(c, p, q, data);
    AckForDistinct(isn, n, |data|);
  }

  lemma DataShort(c: Conn, p: Frame, q: uint32, data: seq<uint8>)
    requires IsData(c, p, q, data)
    ensures WellFormed(p) && |data| < 0x1_0000
  {
  }

  /** The same bytes `k` times. */
  function Times(k: nat, data: seq<uint8>): seq<uint8> {
    if k == 0 then [] else data + Times(k - 1, data)
  }

  /** However often a segment received before is sent again, it is delivered each time. */
  lemma {:induction false} OldSegments(c: Conn, p: Frame, isn: uint32, n: nat,
                                       q: uint32, data: seq<uint8>, k: nat)
    requires InStep(c, isn, n) && IsData(c, p, q, data) && data != []
    requires Wrap(q + |data|) == AckFor(isn, n)
    ensures AllWellFormed(Copies(k, p))
    ensures var o := Run(c, Copies(k, p)); o.delivered == Times(k, data) && InStep(o.conn, isn, n)
    decreases k
  {
    hide Step, Payload, IsData, WellFormed, InStep, AckFor;
    DataShort(c, p, q, data);
    if k > 0 {
      OldSegment(c, p, isn, n, q, data);
      InStepEstablished(c, isn, n);
      DataKeepsPeer(c, p, q, data);
      OldSegments(Step(c, p).conn, p, isn, n, q, data, k - 1);
      RunFirst(c, p, k);
    }
  }

  lemma InStepEstablished(c: Conn, isn: uint32, n: nat)
    requires InStep(c, isn, n)
    ensures c.state == ESTABLISHED
  {
  }

  lemma RunFirst(c: Conn, p: Frame, k: nat)
    requires WellFormed(p) && k > 0
    ensures var o, r := Step(c, p), Run(Step(c, p).conn, Copies(k - 1, p));
            Run(c, Copies(k, p)) == Outcome(r.conn, o.delivered + r.delivered, o.acks + r.acks)
  {
    hide Step, WellFormed;
    assert Copies(k, p)[1..] == Copies(k - 1, p);
  }

  /** So an in-order segment and `k` retransmissions of it are given to the callback `k` + 1 times,
      while ack_num counts its bytes once. */
  lemma RetransmissionsDelivered(c: Conn, p: Frame, isn: uint32, n: nat, data: seq<uint8>, k: nat)
    requires InStep(c, isn, n) && IsData(c, p, AckFor(isn, n), data) && data != []
    ensures AllWellFormed(Copies(k + 1, p))
    ensures var o := Run(c, Copies(k + 1, p));
            && o.delivered == Times(k + 1, data)
            && InStep(o.conn, isn, n + |data|) && !InStep(o.conn, isn, n + |data| + |data|)
  {
    hide Step, Payload, IsData, WellFormed, Run;
    var q := AckFor(isn, n);
    DataShort(c, p, q, data);
    DataStep(c, p, isn, n, q, data);
    DataKeepsPeer(c, p, q, data);
    OldSegments(Step(c, p).conn, p, isn, n + |data|, q, data, k);
    RunFirst(c, p, k + 1);
    AckForDistinct(isn, n + |data|, |data|);
  }

  lemma AckForDistinct(isn: uint32, n: nat, d: nat)
    requires 0 < d < 0x1_0000
    ensures AckFor(isn, n + d) != AckFor(isn, n)
  {
    hide Wrap;
    WrapIs(isn + 1 + n + d);
    WrapIs(isn + 1 + n);
  }

  lemma ShiftMod(a: nat, q: uint32, d: nat)
    requires d < 0x1_0000
    ensures Wrap(q + d) == Wrap(a + d) <==> q == Wrap(a)
  {
    hide Wrap;
    WrapIs(q + d);
    WrapIs(a + d);
    WrapIs(a);
    ShiftRemainder(a, q, d);
  }

  lemma ShiftRemainder(a: nat, q: uint32, d: nat)
    requires d < 0x1_0000
    ensures (q + d) % WORD32 == (a + d) % WORD32 <==> q == a % WORD32
  {
    var r := a % WORD32;
    assert (a + d) % WORD32 == (r + d) % WORD32;
  }

  lemma IdleStep(c: Conn, p: Frame)
    requires c.state == ESTABLISHED && IsIdle(c, p)
    ensures var o := Step(c, p);
            o.delivered == [] && o.acks == [] && o.conn == c.(window := o.conn.window)
  {
  }

  /** From the `n`-th byte on, the segments carry the stream in order and without loss, possibly
      with idle ones in between. */
  ghost predicate InOrder(c: Conn, isn: uint32, stream: seq<uint8>, n: nat, ps: seq<Frame>)
    decreases ps
  {
    ps == []
    || (IsIdle(c, ps[0]) && InOrder(c, isn, stream, n, ps[1..]))
    || (WellFormed(ps[0]) && Flag(ps[0], PSH) && n < n + |Payload(ps[0])| <= |stream|
        && IsData(c, ps[0], AckFor(isn, n), stream[n..n + |Payload(ps[0])|])
        && InOrder(c, isn, stream, n + |Payload(ps[0])|, ps[1..]))
  }

  predicate AllWellFormed(ps: seq<Frame>) {
    forall k :: 0 <= k < |ps| ==> WellFormed(ps[k])
  }

  /** The outcome of a sequence of segments. */
  function Run(c: Conn, ps: seq<Frame>): Outcome
    requires AllWellFormed(ps)
    decreases ps
  {
    if ps == [] then Outcome(c, [], [])
    else
      var o := Step(c, ps[0]);
      assert forall k :: 0 <= k < |ps[1..]| ==> ps[1..][k] == ps[k + 1];
      var r := Run(o.conn, ps[1..]);
      Outcome(r.conn, o.delivered + r.delivered, o.acks + r.acks)
  }

  /** Only the fields a step leaves alone matter for what counts as in order. */
  lemma {:induction false} InOrderKept(c: Conn, c': Conn, isn: uint32, stream: seq<uint8>, n: nat, ps: seq<Frame>)
    requires c.state == c'.state && c.remoteIp == c'.remoteIp && c.remotePort == c'.remotePort
    requires InOrder(c, isn, stream, n, ps)
    ensures InOrder(c', isn, stream, n, ps)
    decreases ps
  {
    if ps != [] {
      if IsIdle(c, ps[0]) && InOrder(c, isn, stream, n, ps[1..]) {
        InOrderKept(c, c', isn, stream, n, ps[1..]);
      } else {
        InOrderKept(c, c', isn, stream, n + |Payload(ps[0])|, ps[1..]);
      }
    }
  }

  /** The data of a segment of this connection, if it pushes any. */
  function Piece(c: Conn, p: Frame): seq<seq<uint8>>
    requires WellFormed(p)
  {
    if Matches(c, p) && Flag(p, PSH) && Payload(p) != [] then [Payload(p)] else []
  }

  /** The data of the segments of this connection, one piece for each that pushes any. */
  function Pieces(c: Conn, ps: seq<Frame>): seq<seq<uint8>>
    requires AllWellFormed(ps)
    decreases ps
  {
    if ps == [] then []
    else
      assert forall k :: 0 <= k < |ps[1..]| ==> ps[1..][k] == ps[k + 1];
      Piece(c, ps[0]) + Pieces(c, ps[1..])
  }

  function Concat(pieces: seq<seq<uint8>>): seq<uint8> {
    if pieces == [] then [] else pieces[0] + Concat(pieces[1..])
  }

  lemma {:induction false} PiecesKept(c: Conn, c': Conn, ps: seq<Frame>)
    requires c.state == c'.state && c.remoteIp == c'.remoteIp && c.remotePort == c'.remotePort
    requires AllWellFormed(ps)
    ensures Pieces(c, ps) == Pieces(c', ps)
    decreases ps
  {
    if ps != [] {
      assert forall k :: 0 <= k < |ps[1..]| ==> ps[1..][k] == ps[k + 1];
      PiecesKept(c, c', ps[1..]);
    }
  }

  /** An acknowledgement of exactly `n` bytes. */
  predicate Acknowledges(a: Ack, isn: uint32, n: nat) {
    a.conn.ackNum == AckFor(isn, n)
  }

  /** From the `n`-th byte on, with `pieces` arriving: they are what was delivered and the next part
      of the stream, the connection is in step after them, and there is one acknowledgement for each
      piece, which covers exactly what had been delivered up to and including that piece. */
  ghost predicate Received(o: Outcome, isn: uint32, stream: seq<uint8>, n: nat, pieces: seq<seq<uint8>>) {
    var end := n + |o.delivered|;
    && end <= |stream| && o.delivered == Concat(pieces) == stream[n..end] && InStep(o.conn, isn, end)
    && |o.acks| == |pieces|
    && forall k :: 0 <= k < |o.acks| ==> Acknowledges(o.acks[k], isn, n + |Concat(pieces[..k + 1])|)
  }

  /** What one segment does: nothing, or one piece delivered and acknowledged. */
  ghost predicate ReceivedOne(o: Outcome, isn: uint32, stream: seq<uint8>, n: nat, piece: seq<seq<uint8>>) {
    var end := n + |o.delivered|;
    && end <= |stream| && o.delivered == Concat(piece) == stream[n..end] && |o.acks| == |piece| <= 1
    && (piece != [] ==> Acknowledges(o.acks[0], isn, end))
  }

  lemma ReceivedCons(o: Outcome, r: Outcome, isn: uint32, stream: seq<uint8>, n: nat,
                     piece: seq<seq<uint8>>, pieces: seq<seq<uint8>>)
    requires ReceivedOne(o, isn, stream, n, piece)
    requires Received(r, isn, stream, n + |o.delivered|, pieces)
    ensures Received(Outcome(r.conn, o.delivered + r.delivered, o.acks + r.acks), isn, stream, n, piece + pieces)
  {
    hide Acknowledges, InStep, Concat;
    var m, end := n + |o.delivered|, n + |o.delivered| + |r.delivered|;
    assert stream[n..m] + stream[m..end] == stream[n..end];
    if piece == [] {
      ConcatNothing();
      assert piece + pieces == pieces && o.acks + r.acks == r.acks && o.delivered + r.delivered == r.delivered;
    } else {
      var x := piece[0];
      assert piece == [x];
      ConcatCons(x, pieces);
      ConcatCons(x, []);
      ConcatNothing();
      AcksCons(o.acks[0], r.acks, isn, n, x, pieces);
      assert o.acks == [o.acks[0]];
    }
  }

  lemma ConcatNothing()
    ensures Concat([]) == []
  {
  }

  /** The acknowledgement of the first piece and those of the others. */
  lemma AcksCons(first: Ack, others: seq<Ack>, isn: uint32, n: nat, x: seq<uint8>, pieces: seq<seq<uint8>>)
    requires Acknowledges(first, isn, n + |x|) && |others| == |pieces|
    requires forall k :: 0 <= k < |others| ==> Acknowledges(others[k], isn, n + |x| + |Concat(pieces[..k + 1])|)
    ensures forall k :: 0 <= k < |others| + 1 ==>
              Acknowledges(([first] + others)[k], isn, n + |Concat(([x] + pieces)[..k + 1])|)
  {
    hide Acknowledges, Concat;
    forall k | 0 <= k < |others| + 1
      ensures Acknowledges(([first] + others)[k], isn, n + |Concat(([x] + pieces)[..k + 1])|)
    {
      assert ([x] + pieces)[..k + 1] == [x] + pieces[..k];
      ConcatCons(x, pieces[..k]);
      if k == 0 {
        assert pieces[..0] == [];
        ConcatNothing();
      } else {
        assert Acknowledges(others[k - 1], isn, n + |x| + |Concat(pieces[..k - 1 + 1])|);
      }
    }
  }

  lemma ConcatCons(piece: seq<uint8>, pieces: seq<seq<uint8>>)
    ensures Concat([piece] + pieces) == piece + Concat(pieces) && [piece] + [] == [piece]
  {
    assert ([piece] + pieces)[1..] == pieces;
  }

  /** The receive stream: facing a peer that sends in order and without loss, at every point before
      the FIN the callback has been given exactly what was pushed, which is the next part of the
      stream; ack_num covers it, and each piece was acknowledged by exactly what it completed. */
  lemma {:induction false} StreamReceived(c: Conn, isn: uint32, stream: seq<uint8>, n: nat, ps: seq<Frame>)
    requires InStep(c, isn, n) && n <= |stream| && InOrder(c, isn, stream, n, ps) && AllWellFormed(ps)
    ensures Received(Run(c, ps), isn, stream, n, Pieces(c, ps))
    decreases ps
  {
    hide Step, Payload, IsData, IsIdle, InStep, Piece, Concat, Received, ReceivedOne;
    if ps == [] {
      NothingReceived(c, isn, stream, n);
    } else {
      var p, rest := ps[0], ps[1..];
      var o := Step(c, p);
      assert forall k :: 0 <= k < |rest| ==> rest[k] == ps[k + 1];
      if IsIdle(c, p) && InOrder(c, isn, stream, n, rest) {
        IdleFirst(c, isn, stream, n, p, rest);
        NothingOne(o, isn, stream, n);
      } else {
        var m := n + |Payload(p)|;
        DataFirst(c, isn, stream, n, p, m, rest);
        PieceOne(o, isn, stream, n, m);
      }
      StreamReceived(o.conn, isn, stream, n + |o.delivered|, rest);
      ReceivedCons(o, Run(o.conn, rest), isn, stream, n, Piece(c, p), Pieces(c, rest));
    }
  }

  lemma NothingOne(o: Outcome, isn: uint32, stream: seq<uint8>, n: nat)
    requires o.delivered == [] && o.acks == [] && n <= |stream|
    ensures ReceivedOne(o, isn, stream, n, [])
  {
  }

  lemma PieceOne(o: Outcome, isn: uint32, stream: seq<uint8>, n: nat, m: nat)
    requires n < m <= |stream| && o.delivered == stream[n..m] && |o.acks| == 1 && Acknowledges(o.acks[0], isn, m)
    ensures ReceivedOne(o, isn, stream, n, [stream[n..m]])
  {
    hide Acknowledges;
    ConcatCons(stream[n..m], []);
  }

  lemma NothingReceived(c: Conn, isn: uint32, stream: seq<uint8>, n: nat)
    requires InStep(c, isn, n) && n <= |stream|
    ensures Received(Outcome(c, [], []), isn, stream, n, [])
  {
  }

  /** The whole life of a connection up to the FIN: the handshake, which is acknowledged first, then
      any number of segments. */
  lemma ConnectionReceives(c: Conn, p: Frame, stream: seq<uint8>, ps: seq<Frame>)
    requires c.state == SYN_SENT && c.hasCallback && WellFormed(p) && Matches(c, p)
    requires Flag(p, SYN) && Flag(p, ACK) && !Flag(p, RST)
    requires AllWellFormed(ps) && InOrder(c.(state := ESTABLISHED), NetField32(p, 38), stream, 0, ps)
    ensures AllWellFormed([p] + ps)
    ensures var o, isn := Run(c, [p] + ps), NetField32(p, 38);
            && o.acks != [] && Acknowledges(o.acks[0], isn, 0)
            && Received(Outcome(o.conn, o.delivered, o.acks[1..]), isn, stream, 0, Pieces(c.(state := ESTABLISHED), ps))
  {
    hide Step, Flag, InStep, Received;
    var o, isn := Step(c, p), NetField32(p, 38);
    HandshakeInStep(c, p);
    InOrderKept(c.(state := ESTABLISHED), o.conn, isn, stream, 0, ps);
    PiecesKept(c.(state := ESTABLISHED), o.conn, ps);
    StreamReceived(o.conn, isn, stream, 0, ps);
    var r := Run(o.conn, ps);
    assert ([p] + ps)[1..] == ps;
    assert o.delivered + r.delivered == r.delivered && (o.acks + r.acks)[1..] == r.acks;
  }

  /** The FIN moves the connection to CLOSE_WAIT and is acknowledged; the acknowledgement covers the
      data that came with the FIN exactly when there was none. */
  lemma FinStep(c: Conn, p: Frame, isn: uint32, n: nat)
    requires InStep(c, isn, n) && WellFormed(p) && Matches(c, p) && Flag(p, FIN) && !Flag(p, RST)
    requires NetField32(p, 38) == AckFor(isn, n)
    ensures var o, data := Step(c, p), if Flag(p, PSH) then Payload(p) else [];
            && o.conn.state == CLOSE_WAIT && o.delivered == data && |o.acks| == (if data == [] then 1 else 2)
            && Last(o.acks) == Ack(o.conn.(window := c.window), BROADCAST)
            && (o.conn.ackNum == AckFor(isn, n + |data| + 1) <==> data == [])
  {
    hide Payload, Flag, NetField16, NetField32;
    var q, data := AckFor(isn, n), if Flag(p, PSH) then Payload(p) else [];
    var d := OnData(c, p).conn;
    var f := d.(ackNum := Wrap(q as int + 1), state := CLOSE_WAIT);
    ShiftMod(isn + 1 + n + |data|, q, 1);
    if data != [] {
      AckForDistinct(isn, n, |data|);
    }
  }

  /** Once reset or past the FIN, no sequence of segments makes the connection deliver or send
      anything again. */
  lemma {:induction false} Inert(c: Conn, ps: seq<Frame>)
    requires c.state != SYN_SENT && c.state != ESTABLISHED && AllWellFormed(ps)
    ensures var o := Run(c, ps);
            o.delivered == [] && o.acks == [] && (o.conn.state == c.state || o.conn.state == CLOSED)
    decreases ps
  {
    hide Flag, NetField16, NetField32;
    if ps != [] {
      assert forall k :: 0 <= k < |ps[1..]| ==> ps[1..][k] == ps[k + 1];
      Inert(Step(c, ps[0]).conn, ps[1..]);
    }
  }

  /** A reset in any state frees the connection at once, and for good. */
  lemma ResetIsFinal(c: Conn, p: Frame, ps: seq<Frame>)
    requires WellFormed(p) && Matches(c, p) && Flag(p, RST) && AllWellFormed(ps)
    ensures AllWellFormed([p] + ps)
    ensures Run(c, [p] + ps).delivered == [] && Run(c, [p] + ps).acks == []
    ensures Run(c, [p] + ps).conn.state == CLOSED
  {
    assert ([p] + ps)[1..] == ps && ([p] + ps)[0] == p;
    Inert(FREED, ps);
  }

  /** An idle segment in front of the others. */
  lemma IdleFirst(c: Conn, isn: uint32, stream: seq<uint8>, n: nat, p: Frame, rest: seq<Frame>)
    requires InStep(c, isn, n) && IsIdle(c, p) && InOrder(c, isn, stream, n, rest) && AllWellFormed(rest)
    ensures var o := Step(c, p);
            && o.delivered == [] && o.acks == [] && Piece(c, p) == [] && InStep(o.conn, isn, n)
            && InOrder(o.conn, isn, stream, n, rest) && Pieces(o.conn, rest) == Pieces(c, rest)
  {
    IdleStep(c, p);
    InOrderKept(c, Step(c, p).conn, isn, stream, n, rest);
    PiecesKept(c, Step(c, p).conn, rest);
  }

  /** The next data in front of the others. */
  lemma DataFirst(c: Conn, isn: uint32, stream: seq<uint8>, n: nat, p: Frame, m: nat, rest: seq<Frame>)
    requires InStep(c, isn, n) && n < m <= |stream| && IsData(c, p, AckFor(isn, n), stream[n..m])
    requires InOrder(c, isn, stream, m, rest) && AllWellFormed(rest)
    ensures var o := Step(c, p);
            && o.delivered == stream[n..m] && Piece(c, p) == [stream[n..m]] && InStep(o.conn, isn, m)
            && o.acks == [Ack(c.(ackNum := AckFor(isn, m)), BROADCAST)]
            && InOrder(o.conn, isn, stream, m, rest) && Pieces(o.conn, rest) == Pieces(c, rest)
  {
    hide Step, Payload, IsData, Piece, Pieces, InOrder;
    var data := stream[n..m];
    DataShort(c, p, AckFor(isn, n), data);
    DataStep(c, p, isn, n, AckFor(isn, n), data);
    DataKeepsPeer(c, p, AckFor(isn, n), data);
    InOrderKept(c, Step(c, p).conn, isn, stream, m, rest);
    PiecesKept(c, Step(c, p).conn, rest);
    DataPiece(c, p, AckFor(isn, n), data);
  }

  lemma DataPiece(c: Conn, p: Frame, q: uint32, data: seq<uint8>)
    requires IsData(c, p, q, data) && data != []
    ensures Piece(c, p) == [data]
  {
  }

  lemma DataKeepsPeer(c: Conn, p: Frame, q: uint32, data: seq<uint8>)
    requires c.state == ESTABLISHED && IsData(c, p, q, data)
    ensures var d := Step(c, p).conn;
            && d.state == c.state && d.remoteIp == c.remoteIp && d.remotePort == c.remotePort
            && d.hasCallback == c.hasCallback && IsData(d, p, q, data)
  {
  }
}
