/** End to end: what the ping a node sends makes its peer do, and what comes back
    (network.c:68-165, 264-320, 360-428, 444-532). */
module Ping {
  import opened Bytes
  import opened Checksum
  import opened Arp
  import opened Frames

  /** Sealing a span whose checksum field is zero makes it verify. */
  lemma SealedVerifies(span: seq<uint8>, k: nat)
    requires k % 2 == 0 && k + 2 <= |span| && span[k] == span[k + 1] == 0
    ensures InternetChecksum(Sealed(span, k)) == 0
  {
    StoredChecksumVerifies(span, k);
  }

  /** The parts of a padded packet built from three headers, and what sealing left as it was. */
  lemma PacketParts(eth: seq<uint8>, ip: seq<uint8>, icmp: seq<uint8>, pad: nat)
    requires |eth| == 14 && |ip| == |icmp| == 20
    ensures var q := eth + Sealed(ip, 10) + Sealed(icmp, 2) + Zeros(pad);
            && q[..14] == eth && q[14..34] == Sealed(ip, 10) && q[34..54] == Sealed(icmp, 2)
            && q[14..24] == ip[..10] && q[26..30] == ip[12..16] && q[30..34] == ip[16..20]
            && q[34..36] == icmp[..2] && q[38..42] == icmp[4..8] && q[42..] == icmp[8..] + Zeros(pad)
  {
    var q := eth + Sealed(ip, 10) + Sealed(icmp, 2) + Zeros(pad);
    assert q[14..34] == Sealed(ip, 10);
    assert q[34..54] == Sealed(icmp, 2);
    SliceSlice(q, 14, 34);
    SliceSlice(q, 34, 54);
    SpliceWindow(ip, 0, 20, 10, Le16(InternetChecksum(ip)));
    var h, c := Sealed(ip, 10), Sealed(icmp, 2);
    assert h[0..10] == ip[..10] && h[12..16] == ip[12..16] && h[16..20] == ip[16..20];
    assert c[0..2] == icmp[..2] && c[4..8] == icmp[4..8] && c[8..20] == icmp[8..];
    assert q[42..] == q[42..54] + q[54..];
  }

  /** The fields dispatch looks at, from the three headers. */
  lemma PacketFields(eth: seq<uint8>, ip: seq<uint8>, icmp: seq<uint8>, pad: nat)
    requires |eth| == 14 && |ip| == |icmp| == 20
    ensures var q := eth + Sealed(ip, 10) + Sealed(icmp, 2) + Zeros(pad);
            && q[..6] == eth[0..6] && q[6..12] == eth[6..12] && q[12..14] == eth[12..14]
            && q[14] == ip[0] && q[15] == ip[1] && q[16..18] == ip[2..4] && q[18..22] == ip[4..8]
            && q[22] == ip[8] && q[23] == ip[9]
            && q[26..30] == ip[12..16] && q[30..34] == ip[16..20]
            && q[34] == icmp[0] && q[35] == icmp[1] && q[38..42] == icmp[4..8] && q[42..] == icmp[8..] + Zeros(pad)
  {
    var q := eth + Sealed(ip, 10) + Sealed(icmp, 2) + Zeros(pad);
    PacketParts(eth, ip, icmp, pad);
    hide Sealed, Zeros;
    SliceSlice(q, 0, 14);
    assert q[..14] == q[0..14] && q[..6] == q[0..6];
    HeaderFront(q, ip);
    assert q[34] == q[34..36][0] == icmp[..2][0] && q[35] == q[34..36][1] == icmp[..2][1];
  }

  lemma HeaderFront(q: seq<uint8>, ip: seq<uint8>)
    requires |q| >= 54 && |ip| == 20 && q[14..24] == ip[..10]
    ensures q[14] == ip[0] && q[15] == ip[1] && q[16..18] == ip[2..4] && q[18..22] == ip[4..8]
    ensures q[22] == ip[8] && q[23] == ip[9]
  {
    var f := q[14..24];
    assert f[0] == q[14] && f[1] == q[15] && f[8] == q[22] && f[9] == q[23];
    SliceSlice(q, 14, 24);
    SliceSlice(ip, 0, 10);
    assert f == ip[0..10];
    assert f[2..4] == q[16..18] && f[4..8] == q[18..22];
  }

  /** Both headers of a packet verify once sealed. */
  lemma PacketVerifies(eth: seq<uint8>, ip: seq<uint8>, icmp: seq<uint8>)
    requires |eth| == 14 && |ip| == |icmp| == 20
    requires ip[10] == ip[11] == 0 && icmp[2] == icmp[3] == 0
    ensures var q := eth + Sealed(ip, 10) + Sealed(icmp, 2);
            InternetChecksum(q[14..34]) == 0 && InternetChecksum(q[34..54]) == 0
  {
    var q := eth + Sealed(ip, 10) + Sealed(icmp, 2);
    assert q + Zeros(0) == q;
    PacketParts(eth, ip, icmp, 0);
    SealedVerifies(ip, 10);
    SealedVerifies(icmp, 2);
  }

  /** Both headers of every echo request verify. */
  lemma RequestVerifies(mac: Mac, ip: uint32, targetMac: Mac, target: uint32)
    ensures var q := EchoRequestFrame(mac, ip, targetMac, target);
            InternetChecksum(q[14..34]) == 0 && InternetChecksum(q[34..54]) == 0
  {
    PacketVerifies(EthHeader(targetMac, mac, ETH_TYPE_IP), IpHeader(IP_PROTO_ICMP, ip, target), RequestIcmp());
  }

  /** Both headers of the answer to any request verify, whether or not those of the request did. */
  lemma ReplyVerifies(f: Frame)
    requires |f| >= 42
    ensures var r := EchoReplyFrame(f);
            InternetChecksum(r[14..34]) == 0 && InternetChecksum(r[34..54]) == 0
  {
    PacketVerifies(f[6..12] + f[..6] + f[12..14], ReplyIpHeader(f), ReplyIcmp(f));
  }

  // ---------------------------------------------------------------- reading what was built

  lemma HeaderFields(protocol: uint8, ip: uint32, target: uint32)
    ensures var h := IpHeader(protocol, ip, target);
            && h[0] == 0x45 && h[1] == 0 && h[2..4] == Be16(40) && h[4..8] == [0, 0, 0, 0] && h[8] == 64
            && h[9] == protocol && h[10] == h[11] == 0 && h[12..16] == Be32(ip) && h[16..20] == Be32(target)
  {
    hide Be16, Be32;
    var h, front := IpHeader(protocol, ip, target), [0x45, 0] + Be16(40) + [0, 0, 0, 0, 64, protocol, 0, 0];
    assert |front| == 12 && h == front + Be32(ip) + Be32(target);
    assert forall i :: 0 <= i < 12 ==> h[i] == front[i];
    assert h[12..16] == Be32(ip) && h[16..20] == Be32(target);
    assert h[2..4] == front[2..4] == Be16(40) && h[4..8] == front[4..8] == [0, 0, 0, 0];
  }

  /** The fields of a padded echo request.  The total length is that of the 54-byte frame without
      its Ethernet header. */
  lemma RequestFields(mac: Mac, ip: uint32, targetMac: Mac, target: uint32, pad: nat)
    ensures var q := EchoRequestFrame(mac, ip, targetMac, target) + Zeros(pad);
            && q[..6] == targetMac && q[6..12] == mac && q[12..14] == Be16(ETH_TYPE_IP)
            && q[14] == 0x45 && q[15] == 0 && q[16..18] == Be16(54 - 14) && q[18..22] == [0, 0, 0, 0] && q[22] == 64
            && q[23] == IP_PROTO_ICMP && q[26..30] == Be32(ip) && q[30..34] == Be32(target)
            && q[34] == ICMP_ECHO_REQUEST && q[35] == 0
            && q[38..42] == Be16(0x1234) + Be16(1) && q[42..] == HELLO + Zeros(pad)
  {
    EthFields(targetMac, mac, ETH_TYPE_IP);
    HeaderFields(IP_PROTO_ICMP, ip, target);
    IcmpRequestFields();
    PacketFields(EthHeader(targetMac, mac, ETH_TYPE_IP), IpHeader(IP_PROTO_ICMP, ip, target), RequestIcmp(), pad);
    hide EthHeader, IpHeader, RequestIcmp, Sealed, Be32, Be16, Zeros;
  }

  lemma EthFields(dst: Mac, src: Mac, ethType: uint16)
    ensures var e := EthHeader(dst, src, ethType);
            e[0..6] == dst && e[6..12] == src && e[12..14] == Be16(ethType)
  {
  }

  lemma IcmpRequestFields()
    ensures var c := RequestIcmp();
            && c[0] == ICMP_ECHO_REQUEST && c[1] == c[2] == c[3] == 0
            && c[4..8] == Be16(0x1234) + Be16(1) && c[8..] == HELLO
  {
  }

  /** The fields of a padded echo reply, in terms of the request. */
  lemma ReplyFields(f: Frame, pad: nat)
    requires |f| >= 42
    ensures var r := EchoReplyFrame(f) + Zeros(pad);
            && r[..6] == f[6..12] && r[6..12] == f[..6] && r[12..14] == f[12..14] && r[23] == f[23]
            && r[14] == f[14] && r[15] == f[15] && r[16..18] == Be16(54 - 14) && r[18..22] == f[18..22]
            && r[22] == f[22]
            && r[26..30] == f[30..34] && r[30..34] == f[26..30]
            && r[34] == ICMP_ECHO_REPLY && r[35] == 0 && r[38..42] == f[38..42]
            && r[42..] == HELLO + Zeros(pad)
  {
    var eth, h, c := f[6..12] + f[..6] + f[12..14], ReplyIpHeader(f), ReplyIcmp(f);
    assert eth[0..6] == f[6..12] && eth[6..12] == f[..6] && eth[12..14] == f[12..14];
    assert h[1] == f[14..16][1] == f[15] && h[4..8] == f[18..24][0..4] == f[18..22];
    assert h[0] == f[14..16][0] == f[14] && h[2..4] == Be16(40) && h[8] == f[18..24][4] == f[22];
    assert h[9] == f[18..24][5] == f[23] && h[12..16] == f[30..34] && h[16..20] == f[26..30];
    assert c[0] == ICMP_ECHO_REPLY && c[1] == 0 && c[4..8] == f[38..42] && c[8..] == HELLO;
    hide ReplyIpHeader, ReplyIcmp, Sealed, Zeros, Be16;
    PacketFields(eth, h, c, pad);
  }

  lemma Field16(f: Frame, k: nat, x: uint16)
    requires k + 2 <= |f| && f[k..k + 2] == Be16(x)
    ensures NetField16(f, k) == x
  {
    assert f[k] == f[k..k + 2][0] && f[k + 1] == f[k..k + 2][1];
  }

  lemma Field32(f: Frame, k: nat, x: uint32)
    requires k + 4 <= |f| && f[k..k + 4] == Be32(x)
    ensures NetField32(f, k) == x
  {
    FieldsAsLoaded(f, k);
    NtohlLoaded(f, k);
  }

  /** The display stops at the terminating zero and shows printable text unchanged. */
  lemma {:induction false} MessageUpToZero(text: seq<uint8>, rest: seq<uint8>)
    requires forall i :: 0 <= i < |text| ==> 32 <= text[i] <= 126
    ensures Message(text + [0] + rest) == text
  {
    var s := text + [0] + rest;
    if text == [] {
      assert s[0] == 0;
    } else {
      assert s[1..] == text[1..] + [0] + rest;
      MessageUpToZero(text[1..], rest);
    }
  }

  // ---------------------------------------------------------------- the round trip

  /** The request makes the peer send exactly one frame, of 54 bytes: addresses exchanged,
      identifier and sequence number kept, both headers verifying. */
  lemma PingAnswered(a: NodeState, b: NodeState, mac: Mac, pad: nat)
    requires Resolve(a, b.ip) == Some(mac) && 54 + pad <= ETH_MTU
    ensures var q := EchoRequestFrame(a.mac, a.ip, mac, b.ip) + Zeros(pad);
            var r := EchoReplyFrame(q);
            && Readable(q, b.ip) && After(b, q) == b && Replies(b, q) == [r]
            && |r| == 54 && r[..6] == a.mac && r[6..12] == mac
            && NetField32(r, 26) == b.ip && NetField32(r, 30) == a.ip
            && r[38..42] == q[38..42]
            && InternetChecksum(r[14..34]) == 0 && InternetChecksum(r[34..54]) == 0
  {
    var q := EchoRequestFrame(a.mac, a.ip, mac, b.ip) + Zeros(pad);
    RequestFields(a.mac, a.ip, mac, b.ip, pad);
    hide EchoRequestFrame, EchoReplyFrame, InternetChecksum, NetField16, NetField32, Readable, After, Replies;
    RequestDispatched(b, q);
    AnswerFields(q, b.ip, a.ip);
    ReplyVerifies(q);
  }

  /** A frame with the fields of an echo request for `b` is answered and changes nothing else. */
  lemma RequestDispatched(b: NodeState, q: Frame)
    requires 54 <= |q| <= ETH_MTU
    requires q[12..14] == Be16(ETH_TYPE_IP) && q[23] == IP_PROTO_ICMP && q[30..34] == Be32(b.ip)
    requires q[34] == ICMP_ECHO_REQUEST && q[35] == 0
    ensures Readable(q, b.ip) && After(b, q) == b && Replies(b, q) == [EchoReplyFrame(q)]
  {
    hide EchoReplyFrame, Be32;
    Field16(q, 12, ETH_TYPE_IP);
    Field32(q, 30, b.ip);
  }

  lemma AnswerFields(q: Frame, ip: uint32, target: uint32)
    requires |q| >= 54 && q[30..34] == Be32(ip) && q[26..30] == Be32(target)
    ensures var r := EchoReplyFrame(q);
            && r[..6] == q[6..12] && r[6..12] == q[..6] && r[38..42] == q[38..42]
            && NetField32(r, 26) == ip && NetField32(r, 30) == target
  {
    var r := EchoReplyFrame(q);
    ReplyFields(q, 0);
    assert r + Zeros(0) == r;
    hide EchoReplyFrame, Be32;
    Field32(r, 26, ip);
    Field32(r, 30, target);
  }

  /** For any two nodes, with the MAC resolved and any trailing zero padding on either frame: the
      reply that comes back takes the echo-reply branch, causes no transmission and displays
      exactly "hello,world". */
  lemma PingRoundTrip(a: NodeState, b: NodeState, mac: Mac, pad: nat, pad': nat)
    requires Resolve(a, b.ip) == Some(mac) && 54 + pad <= ETH_MTU && 54 + pad' <= ETH_MTU
    ensures var q := EchoRequestFrame(a.mac, a.ip, mac, b.ip) + Zeros(pad);
            |Replies(b, q)| == 1
            && var r := Replies(b, q)[0] + Zeros(pad');
               && Readable(r, a.ip) && Replies(a, r) == []
               && After(a, r) == a.(shown := a.shown + [HELLO[..11]])
  {
    var q := EchoRequestFrame(a.mac, a.ip, mac, b.ip) + Zeros(pad);
    PingAnswered(a, b, mac, pad);
    RequestFields(a.mac, a.ip, mac, b.ip, pad);
    PongDisplayed(a, q, pad');
  }

  lemma PongDisplayed(a: NodeState, q: Frame, pad: nat)
    requires |q| >= 42 && 54 + pad <= ETH_MTU
    requires q[12..14] == Be16(ETH_TYPE_IP) && q[23] == IP_PROTO_ICMP && q[26..30] == Be32(a.ip)
    ensures var r := EchoReplyFrame(q) + Zeros(pad);
            Readable(r, a.ip) && Replies(a, r) == [] && After(a, r) == a.(shown := a.shown + [HELLO[..11]])
  {
    var r := EchoReplyFrame(q) + Zeros(pad);
    ReplyFields(q, pad);
    Field16(r, 12, ETH_TYPE_IP);
    Field32(r, 30, a.ip);
    assert HELLO == HELLO[..11] + [0];
    MessageUpToZero(HELLO[..11], Zeros(pad));
  }

  // ---------------------------------------------------------------- checksum of the swapped header

  /** The word sum of an IP header, by field. */
  lemma HeaderSum(h: seq<uint8>)
    requires |h| == 20
    ensures WordSum(h) == WordSum(h[0..2]) + Load16(h, 2) + WordSum(h[4..10]) + Load16(h, 10)
                          + WordSum(h[12..16]) + WordSum(h[16..20])
  {
    WordSumAppend(h[0..2], h[2..]);
    assert h == h[0..2] + h[2..];
    assert h[2..][2..] == h[4..];
    WordSumAppend(h[4..10], h[10..]);
    assert h[4..] == h[4..10] + h[10..];
    assert h[10..][2..] == h[12..];
    WordSumAppend(h[12..16], h[16..20]);
    assert h[12..] == h[12..16] + h[16..20];
  }

  /** Section 3 of RFC 1624: swapping the addresses leaves the checksum alone, and a new total
      length moves it by exactly that difference modulo 65535. */
  lemma ReplyHeaderChecksum(f: Frame)
    requires |f| >= 42 && InternetChecksum(f[14..34]) == 0
    ensures Load16(EchoReplyFrame(f), 24)
         == (Load16(f, 24) as int + Load16(f, 16) as int - Load16(Be16(40), 0) as int) % 65535
    ensures f[16..18] == Be16(40) ==> Load16(EchoReplyFrame(f), 24) == Load16(f, 24) % 65535
  {
    var h, g := f[14..34], ReplyIpHeader(f);
    PacketParts(f[6..12] + f[..6] + f[12..14], g, ReplyIcmp(f), 0);
    var r := EchoReplyFrame(f);
    assert r + Zeros(0) == r;
    assert r[24] == r[14..34][10] && r[25] == r[14..34][11];
    assert Load16(r, 24) == InternetChecksum(g);
    SwappedHeaderSum(f);
    VerifiesIff(h);
    ComplementOfDifference(WordSum(h), WordSum(g), Load16(f, 24) as int + Load16(f, 16) as int - 0x2800);
    if f[16..18] == Be16(40) {
      assert f[16] == f[16..18][0] && f[17] == f[16..18][1];
    }
  }

  lemma SwappedHeaderSum(f: Frame)
    requires |f| >= 42
    ensures Load16(Be16(40), 0) == 0x2800
    ensures WordSum(ReplyIpHeader(f)) == WordSum(f[14..34]) - Load16(f, 24) - Load16(f, 16) + 0x2800 > 0
  {
    var h, g := f[14..34], ReplyIpHeader(f);
    HeaderSum(h);
    HeaderSum(g);
    SliceSlice(f, 14, 34);
    assert h[0..2] == f[14..16] == g[0..2] && h[4..10] == f[18..24] == g[4..10];
    assert h[12..16] == f[26..30] == g[16..20] && h[16..20] == f[30..34] == g[12..16];
    assert Load16(g, 2) == Load16(Be16(40), 0) && Load16(g, 10) == 0;
    assert Load16(h, 10) == Load16(f, 24) && Load16(h, 2) == Load16(f, 16);
  }

  lemma ComplementOfDifference(s: nat, t: nat, d: int)
    requires s % 65535 == 0 && t == s - d && t > 0
    ensures 65535 - Fold(t) == d % 65535
  {
    var k := s / 65535;
    assert t == k * 65535 - d;
    var q, m := d / 65535, d % 65535;
    assert t == (k - q) * 65535 - m;
    if m == 0 {
      assert t % 65535 == 0;
    } else {
      assert t == (k - q - 1) * 65535 + (65535 - m);
      assert t % 65535 == 65535 - m;
    }
  }
}
