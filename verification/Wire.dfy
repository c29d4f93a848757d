/** What the node does, in terms of the bytes on the wire alone: which frames it answers and with
    which bytes, what it learns and what it displays. */
module Wire {
  import opened Bytes
  import opened Checksum
  import opened Arp
  import opened Frames
  import Ping
  import Lan

  // ---------------------------------------------------------------- reading fields

  lemma Raw16(f: Frame, k: nat)
    requires k + 2 <= |f|
    ensures NetField16(f, k) == f[k] as int * 0x100 + f[k + 1]
  {
  }

  lemma Raw32(f: Frame, k: nat, x: uint32)
    requires k + 4 <= |f|
    ensures NetField32(f, k) == x <==> f[k..k + 4] == Be32(x)
  {
    FieldsAsLoaded(f, k);
    NtohlLoaded(f, k);
  }

  /** An Ethernet and IPv4 ARP packet, by its bytes. */
  lemma ArpBytes(f: Frame)
    requires |f| >= 42
    ensures IsArp(f) <==> f[12..20] == [8, 6, 0, 1, 8, 0, 6, 4]
    ensures NetField16(f, 20) == 1 <==> f[20..22] == [0, 1]
  {
    Raw16(f, 12);
    Raw16(f, 14);
    Raw16(f, 16);
    Raw16(f, 20);
    var g := f[12..20];
    assert forall i :: 0 <= i < 8 ==> g[i] == f[12 + i];
    assert f[20..22][0] == f[20] && f[20..22][1] == f[21];
  }

  /** An ICMP packet for `ip`, by its bytes. */
  lemma IcmpBytes(f: Frame, ip: uint32)
    requires |f| >= 42
    ensures IsIcmpTo(f, ip) <==> f[12..14] == [8, 0] && f[23] == 1 && f[30..34] == Be32(ip)
    ensures IsPingTo(f, ip) <==> f[12..14] == [8, 0] && f[23] == 1 && f[30..34] == Be32(ip) && f[34..36] == [8, 0]
    ensures IsPongTo(f, ip) <==> f[12..14] == [8, 0] && f[23] == 1 && f[30..34] == Be32(ip) && f[34..36] == [0, 0]
  {
    Raw16(f, 12);
    Raw32(f, 30, ip);
    hide Be32, NetField32;
    assert f[12..14][0] == f[12] && f[12..14][1] == f[13];
    assert f[34..36][0] == f[34] && f[34..36][1] == f[35];
  }

  lemma AskBytes(f: Frame, ip: uint32)
    requires |f| >= 42
    ensures AsksFor(f, ip) <==> f[12..20] == [8, 6, 0, 1, 8, 0, 6, 4] && f[20..22] == [0, 1] && f[38..42] == Be32(ip)
  {
    hide NetField16, NetField32, Be32, IsArp;
    ArpBytes(f);
    Raw32(f, 38, ip);
  }

  /** ARP and IP packets are told apart by the Ethernet type. */
  lemma NotBoth(f: Frame)
    requires |f| >= 42 && f[12..20] == [8, 6, 0, 1, 8, 0, 6, 4]
    ensures f[12..14] != [8, 0]
  {
    assert f[12..20][1] == f[13] && f[12..14][1] == f[13];
  }

  // ---------------------------------------------------------------- address resolution

  /** Any ARP packet is learned from, whomever it asks and whatever its operation; nothing is
      displayed. */
  lemma ArpLearned(n: NodeState, f: Frame, ip: uint32)
    requires |f| >= 42 && f[12..20] == [8, 6, 0, 1, 8, 0, 6, 4] && f[28..32] == Be32(ip)
    ensures var mac: Mac := f[22..28];
            After(n, f) == n.(cache := Updated(n.cache, ip, mac)) && Lookup(After(n, f).cache, ip) == Some(mac)
  {
    hide NetField16, NetField32, Be32, Updated, Lookup;
    ArpBytes(f);
    Raw32(f, 28, ip);
    UpdatedFound(n.cache, ip, f[22..28]);
  }

  /** A request for the node's own address is answered whoever it was sent to and whatever it is
      padded with: one reply of the same length, back to its sender, from the node. */
  lemma ArpRequestAnswered(n: NodeState, f: Frame)
    requires 42 <= |f| && f[12..20] == [8, 6, 0, 1, 8, 0, 6, 4] && f[20..22] == [0, 1] && f[38..42] == Be32(n.ip)
    ensures var r := f[6..12] + n.mac + [8, 6, 0, 1, 8, 0, 6, 4, 0, 2] + n.mac + Be32(n.ip)
                     + f[22..28] + f[28..32] + f[42..];
            && LeftInBuffer(n, f) == r
            && Replies(n, f) == if |f| <= 1536 then [r] else []
  {
    AskBytes(f, n.ip);
    hide AsksFor, IsPingTo, Be32;
    assert Be16(ARP_REPLY) == [0, 2];
    hide Be16;
    assert f[12..14] + f[14..20] == f[12..20];
    ReplyGrouped(f[6..12], n.mac, f[12..14], f[14..20], [0, 2], Be32(n.ip), f[22..28], f[28..32], f[42..]);
    assert [8, 6, 0, 1, 8, 0, 6, 4] + [0, 2] == [8, 6, 0, 1, 8, 0, 6, 4, 0, 2];
  }

  lemma ReplyGrouped(a: seq<uint8>, m: seq<uint8>, t: seq<uint8>, u: seq<uint8>, o: seq<uint8>, i: seq<uint8>,
                     v: seq<uint8>, w: seq<uint8>, pad: seq<uint8>)
    ensures (a + m + t) + (u + o + m + i + v + w) + pad == a + m + (t + u + o) + m + i + v + w + pad
  {
  }

  /** Every other ARP packet is left alone and not answered. */
  lemma ArpSilent(n: NodeState, f: Frame)
    requires |f| >= 42 && f[12..20] == [8, 6, 0, 1, 8, 0, 6, 4] && (f[20..22] != [0, 1] || f[38..42] != Be32(n.ip))
    ensures Replies(n, f) == [] && LeftInBuffer(n, f) == f
  {
    hide Be32;
    AskBytes(f, n.ip);
    IcmpBytes(f, n.ip);
    NotBoth(f);
    hide AsksFor, IsPingTo;
  }

  // ---------------------------------------------------------------- echo

  /** An echo request for the node is answered by one frame of 54 bytes: back to its sender, the IP
      header copied but for the total length and the exchanged addresses, identifier and sequence
      number kept, the greeting; both checksums verify.  Nothing else changes. */
  lemma EchoAnswered(n: NodeState, f: Frame)
    requires |f| >= 42 && f[12..14] == [8, 0] && f[23] == 1 && f[30..34] == Be32(n.ip) && f[34..36] == [8, 0]
    ensures After(n, f) == n && LeftInBuffer(n, f) == f && |Replies(n, f)| == 1
    ensures var r := Replies(n, f)[0];
            && |r| == 54
            && r == f[6..12] + f[..6] + [8, 0] + f[14..16] + [0, 40] + f[18..24] + r[24..26] + f[30..34] + f[26..30]
                    + [0, 0] + r[36..38] + f[38..42] + Text("hello,world") + [0]
            && InternetChecksum(r[14..34]) == 0 && InternetChecksum(r[34..54]) == 0
  {
    hide Be32, EchoReplyFrame, InternetChecksum;
    IcmpBytes(f, n.ip);
    EchoIsNotArp(f, n.ip);
    hide IsArp, AsksFor, IsPingTo, IsPongTo;
    EchoReplyBytes(f);
    Ping.ReplyVerifies(f);
  }

  lemma EchoIsNotArp(f: Frame, ip: uint32)
    requires |f| >= 42 && f[12..14] == [8, 0]
    ensures !IsArp(f) && !AsksFor(f, ip)
  {
    ArpBytes(f);
    if f[12..20] == [8, 6, 0, 1, 8, 0, 6, 4] {
      NotBoth(f);
    }
  }

  lemma Greeting()
    ensures HELLO == Text("hello,world") + [0]
  {
    var t := "hello,world";
    assert forall i :: 0 <= i < 11 ==> HELLO[i] == t[i] as int;
  }

  lemma EchoReplyBytes(f: Frame)
    requires |f| >= 42
    ensures var r := EchoReplyFrame(f);
            r == f[6..12] + f[..6] + f[12..14] + f[14..16] + [0, 40] + f[18..24] + r[24..26] + f[30..34] + f[26..30]
                 + [0, 0] + r[36..38] + f[38..42] + Text("hello,world") + [0]
  {
    hide ReplyIpHeader, ReplyIcmp, Sealed, Text;
    Greeting();
    var x, y := Le16(InternetChecksum(ReplyIpHeader(f))), Le16(InternetChecksum(ReplyIcmp(f)));
    ReplyHeaderSealed(f);
    ReplyIcmpSealed(f);
    hide Le16, InternetChecksum;
    var e := f[6..12] + f[..6] + f[12..14];
    TwoSealed(e, f[14..16] + [0, 40] + f[18..24], x, f[30..34] + f[26..30], [0, 0], y, f[38..42] + HELLO);
    Flattened(e, f[14..16], [0, 40], f[18..24], x, f[30..34], f[26..30], [0, 0], y, f[38..42],
              Text("hello,world"), [0]);
  }

  /** Sealing fills in the two zero bytes and nothing else. */
  lemma SealedMiddle(span: seq<uint8>, a: seq<uint8>, b: seq<uint8>)
    requires span == a + [0, 0] + b
    ensures Sealed(span, |a|) == a + Le16(InternetChecksum(span)) + b
  {
    hide InternetChecksum, Le16;
    SpliceMiddle(a, [0, 0], b, Le16(InternetChecksum(span)));
  }

  lemma ReplyHeaderSealed(f: Frame)
    requires |f| >= 42
    ensures Sealed(ReplyIpHeader(f), 10)
         == (f[14..16] + [0, 40] + f[18..24]) + Le16(InternetChecksum(ReplyIpHeader(f))) + (f[30..34] + f[26..30])
  {
    hide InternetChecksum, Le16;
    assert Be16(40) == [0, 40];
    SealedMiddle(ReplyIpHeader(f), f[14..16] + [0, 40] + f[18..24], f[30..34] + f[26..30]);
  }

  lemma ReplyIcmpSealed(f: Frame)
    requires |f| >= 42
    ensures Sealed(ReplyIcmp(f), 2) == [0, 0] + Le16(InternetChecksum(ReplyIcmp(f))) + (f[38..42] + HELLO)
  {
    hide InternetChecksum, Le16;
    SealedMiddle(ReplyIcmp(f), [0, 0], f[38..42] + HELLO);
  }

  /** Where the two checksums of a packet lie. */
  lemma TwoSealed(e: seq<uint8>, a: seq<uint8>, x: seq<uint8>, b: seq<uint8>,
                  c: seq<uint8>, y: seq<uint8>, d: seq<uint8>)
    requires |e| == 14 && |a| == 10 && |x| == 2 && |b| == 8 && |c| == 2 && |y| == 2
    ensures var r := e + (a + x + b) + (c + y + d);
            r[24..26] == x && r[36..38] == y
  {
    var r := e + (a + x + b) + (c + y + d);
    assert r == e + a + x + (b + c + y + d) && r == (e + a + x + b + c) + y + d;
  }

  lemma Flattened(e: seq<uint8>, a: seq<uint8>, l: seq<uint8>, b: seq<uint8>, x: seq<uint8>, s: seq<uint8>,
                  t: seq<uint8>, c: seq<uint8>, y: seq<uint8>, i: seq<uint8>, text: seq<uint8>, z: seq<uint8>)
    ensures e + ((a + l + b) + x + (s + t)) + (c + y + (i + (text + z)))
         == e + a + l + b + x + s + t + c + y + i + text + z
  {
  }

  /** An echo request, byte by byte but for its two checksums. */
  ghost predicate EchoRequestIs(q: Frame, mac: Mac, ip: uint32, targetMac: Mac, target: uint32) {
    && |q| == 54
    && q == targetMac + mac + [8, 0] + [0x45, 0, 0, 40, 0, 0, 0, 0, 64, 1] + q[24..26] + Be32(ip) + Be32(target)
            + [8, 0] + q[36..38] + [0x12, 0x34, 0, 1] + Text("hello,world") + [0]
  }

  /** The request as it goes out; its checksums are Ping.RequestVerifies. */
  lemma EchoRequestBytes(mac: Mac, ip: uint32, targetMac: Mac, target: uint32)
    ensures EchoRequestIs(EchoRequestFrame(mac, ip, targetMac, target), mac, ip, targetMac, target)
  {
    hide IpHeader, RequestIcmp, Sealed, Text, Be32;
    var h, c := IpHeader(IP_PROTO_ICMP, ip, target), RequestIcmp();
    var x, y := Le16(InternetChecksum(h)), Le16(InternetChecksum(c));
    Greeting();
    IpHeaderSealed(IP_PROTO_ICMP, ip, target);
    RequestIcmpSealed();
    assert Be16(ETH_TYPE_IP) == [8, 0];
    hide Le16, InternetChecksum;
    var front: seq<uint8> := [0x45, 0, 0, 40, 0, 0, 0, 0, 64, 1];
    TwoSealed(targetMac + mac + [8, 0], front, x, Be32(ip) + Be32(target), [8, 0], y, [0x12, 0x34, 0, 1] + HELLO);
    Flattened(targetMac + mac + [8, 0], front, [], [], x, Be32(ip), Be32(target), [8, 0], y, [0x12, 0x34, 0, 1],
              Text("hello,world"), [0]);
    assert front + [] + [] == front;
    assert targetMac + mac + [8, 0] + front + [] + [] == targetMac + mac + [8, 0] + front;
  }

  lemma IpHeaderSealed(protocol: uint8, ip: uint32, target: uint32)
    ensures Sealed(IpHeader(protocol, ip, target), 10)
         == [0x45, 0, 0, 40, 0, 0, 0, 0, 64, protocol] + Le16(InternetChecksum(IpHeader(protocol, ip, target)))
            + (Be32(ip) + Be32(target))
  {
    hide InternetChecksum, Le16, Be32, Sealed;
    assert Be16(40) == [0, 40];
    SealedMiddle(IpHeader(protocol, ip, target), [0x45, 0, 0, 40, 0, 0, 0, 0, 64, protocol], Be32(ip) + Be32(target));
  }

  lemma RequestIcmpSealed()
    ensures Sealed(RequestIcmp(), 2)
         == [8, 0] + Le16(InternetChecksum(RequestIcmp())) + ([0x12, 0x34, 0, 1] + HELLO)
  {
    hide InternetChecksum, Le16, Sealed;
    assert Be16(0x1234) == [0x12, 0x34] && Be16(1) == [0, 1];
    SealedMiddle(RequestIcmp(), [8, 0], [0x12, 0x34, 0, 1] + HELLO);
  }

  /** The ARP request, byte by byte. */
  lemma ArpRequestBytes(mac: Mac, ip: uint32, target: uint32)
    ensures ArpRequestFrame(mac, ip, target)
         == [0xFF, 0xFF, 0xFF, 0xFF, 0xFF, 0xFF] + mac + [8, 6, 0, 1, 8, 0, 6, 4, 0, 1] + mac + Be32(ip)
            + [0, 0, 0, 0, 0, 0] + Be32(target)
  {
    assert Be16(ETH_TYPE_ARP) == [8, 6] && Be16(1) == [0, 1] && Be16(ETH_TYPE_IP) == [8, 0];
    hide Be16, Be32;
    assert [8, 6] + ([0, 1] + [8, 0] + [6, 4] + [0, 1]) == [8, 6, 0, 1, 8, 0, 6, 4, 0, 1];
  }

  // ---------------------------------------------------------------- display

  /** An echo reply for the node is displayed; nothing is sent. */
  lemma EchoDisplayed(n: NodeState, f: Frame)
    requires |f| >= 42 && f[12..14] == [8, 0] && f[23] == 1 && f[30..34] == Be32(n.ip) && f[34..36] == [0, 0]
    ensures After(n, f) == n.(shown := n.shown + [Message(f[42..])])
    ensures Replies(n, f) == [] && LeftInBuffer(n, f) == f
  {
    hide Be32, Message;
    IcmpBytes(f, n.ip);
    EchoIsNotArp(f, n.ip);
    hide IsArp, AsksFor, IsPingTo, IsPongTo;
  }

  /** What is displayed of the `k` bytes before the first zero, or of all of them if there is none. */
  lemma {:induction false} MessageExact(data: seq<uint8>, k: nat)
    requires k <= |data| && (forall i :: 0 <= i < k ==> data[i] != 0) && (k < |data| ==> data[k] == 0)
    ensures |Message(data)| == k
    ensures forall i :: 0 <= i < k ==>
              Message(data)[i] == if ' ' as int <= data[i] <= '~' as int then data[i] else '.' as int
  {
    if k > 0 {
      MessageExact(data[1..], k - 1);
      forall i | 0 <= i < k
        ensures Message(data)[i] == if ' ' as int <= data[i] <= '~' as int then data[i] else '.' as int
      {
        if i > 0 {
          assert Message(data)[i] == Message(data[1..])[i - 1] && data[i] == data[1..][i - 1];
        }
      }
    }
  }

  // ---------------------------------------------------------------- everything else

  /** No other frame is learned from, displayed, answered or changed: it is shorter than 42 bytes,
      neither ARP nor ICMP for the node, or ICMP of another kind. */
  lemma NothingElse(n: NodeState, f: Frame)
    requires |f| >= 42 ==>
               && f[12..20] != [8, 6, 0, 1, 8, 0, 6, 4]
               && !(f[12..14] == [8, 0] && f[23] == 1 && f[30..34] == Be32(n.ip) && f[34..36] in {[8, 0], [0, 0]})
    ensures After(n, f) == n && Replies(n, f) == [] && LeftInBuffer(n, f) == f
  {
    hide NetField16, NetField32, Be32;
    if |f| >= 42 {
      ArpBytes(f);
      IcmpBytes(f, n.ip);
    }
  }

  /** What the handlers can be handed (network.c:218-261, 360-363). */
  lemma ReadableBytes(f: Frame, ip: uint32)
    ensures Readable(f, ip) <==>
              && |f| < 0x1_0000
              && (34 <= |f| && f[12..14] == [8, 0] && f[23] == 1 && f[30..34] == Be32(ip) ==>
                    |f| >= 42 && (f[34..36] == [8, 0] ==> |f| <= 1500))
  {
    if 34 <= |f| {
      Raw16(f, 12);
      Raw32(f, 30, ip);
      assert f[12..14][0] == f[12] && f[12..14][1] == f[13];
      hide Be32, NetField16, NetField32;
      if 42 <= |f| {
        assert f[34..36][0] == f[34] && f[34..36][1] == f[35];
      }
    }
  }

  /** A node resolves its own address to its own MAC, and any other to the latest MAC it has learned,
      if it still holds the address. */
  lemma ResolveExact(n: NodeState, c: Cache, h: seq<Update>, ip: uint32)
    requires n.cache == AfterAll(c, h) && forall i :: 0 <= i < ARP_CACHE_SIZE ==> !c[i].valid
    ensures Resolve(n, ip)
         == if ip == n.ip then Some(n.mac)
            else if ip in Settled(Firsts(h)) || LastOutside(h, Settled(Firsts(h))) == Some(ip) then
              MapLookup(Latest(h), ip)
            else None
  {
    LookupAfterHistory(c, h, ip);
  }
}
