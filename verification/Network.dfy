/** A node running the network code (network.c, arp.c): one object for the file-level variables
    net_dev, arp_cache and the transmit slots. */
module Network {
  import opened Bytes
  import opened Checksum
  import opened Arp
  import opened Frames
  import opened Transmit

  class Node {
    const macAddr: Mac
    const ipAddr: uint32
    const arp: ArpCache
    const tx: TxRing
    var shown: seq<seq<uint8>>

    ghost predicate Valid()
      reads this, tx, tx.buffer, tx.tsad, tx.tsd
    {
      arp.entries.Length == ARP_CACHE_SIZE && tx.Valid()
    }

    ghost function State(): NodeState
      requires arp.entries.Length == ARP_CACHE_SIZE
      reads this, arp.entries
    {
      NodeState(macAddr, ipAddr, arp.entries[..], shown)
    }

    ghost function Sent(): seq<Frame>
      reads tx
    {
      tx.accepted
    }

    constructor (mac: Mac, ip: uint32)
      ensures Valid() && macAddr == mac && ipAddr == ip && shown == [] && Sent() == []
      ensures forall i :: 0 <= i < ARP_CACHE_SIZE ==> !arp.entries[i].valid
      ensures fresh(arp.entries) && fresh(tx) && fresh(tx.buffer) && fresh(tx.tsad) && fresh(tx.tsd)
    {
      macAddr, ipAddr, shown := mac, ip, [];
      arp := new ArpCache();
      tx := new TxRing();
    }

    /** send_arp_request: a broadcast ARP request for `target`. */
    method SendArpRequest(target: uint32)
      requires Valid()
      modifies tx, tx.buffer, tx.tsad, tx.tsd
      ensures Valid() && Sent() == old(Sent()) + [ArpRequestFrame(macAddr, ipAddr, target)]
    {
      var buffer := new uint8[42];
      Memset(buffer, 0, 0, 42);
      PutEthHeader(buffer, BROADCAST, macAddr, ETH_TYPE_ARP);
      PutArpBody(buffer, ARP_REQUEST, macAddr, ipAddr, [0, 0, 0, 0, 0, 0], target);
      assert buffer[0..42] == buffer[..42];
      tx.SendPacket(buffer, 0, 42);
    }

    /** get_destination_mac, arp_resolve. */
    method ResolveMac(target: uint32) returns (r: Option<Mac>)
      requires Valid()
      ensures r == Resolve(State(), target)
    {
      if target == ipAddr {
        return Some(macAddr);
      }
      r := arp.GetMac(target);
    }

    /** send_icmp_echo_request: nothing is sent when the MAC of `target` is unknown. */
    method SendEchoRequest(target: uint32)
      requires Valid()
      modifies tx, tx.buffer, tx.tsad, tx.tsd
      ensures Valid()
      ensures Sent() == match Resolve(State(), target)
                        case None => old(Sent())
                        case Some(mac) => old(Sent()) + [EchoRequestFrame(macAddr, ipAddr, mac, target)]
    {
      var mac := ResolveMac(target);
      if mac.None? {
        return;
      }
      var buffer := new uint8[ETH_MTU];
      Memset(buffer, 0, 0, ETH_MTU);
      BuildEchoRequest(buffer, macAddr, ipAddr, mac.value, target);
      assert buffer[0..54] == buffer[..54];
      tx.SendPacket(buffer, 0, 14 + 40);
    }

    /** handle_network_packet: dispatch on the Ethernet type, which is read from memory even if the
        packet is shorter. */
    method HandleNetworkPacket(mem: array<uint8>, p: nat, length: nat)
      requires Valid() && p + length <= mem.Length && p + 14 <= mem.Length
      requires Readable(mem[p..p + length], ipAddr)
      modifies mem, this, arp.entries, tx, tx.buffer, tx.tsad, tx.tsd
      ensures Valid()
      ensures State() == After(old(State()), old(mem[p..p + length]))
      ensures Sent() == old(Sent()) + Replies(old(State()), old(mem[p..p + length]))
      ensures mem[p..p + length] == LeftInBuffer(old(State()), old(mem[p..p + length]))
      ensures mem[..p] == old(mem[..p]) && mem[p + length..] == old(mem[p + length..])
    {
      var ethType := NetField16(mem[p..p + 14], 12);
      if ethType == ETH_TYPE_ARP {
        HandleArpPacket(mem, p, length);
      } else if ethType == ETH_TYPE_IP {
        HandleIpPacket(mem, p, length);
      }
    }

    /** handle_arp_packet: learn the sender; turn a request for us into a reply where it lies. */
    method HandleArpPacket(mem: array<uint8>, p: nat, length: nat)
      requires Valid() && p + length <= mem.Length
      requires length >= 14 ==> NetField16(mem[p..p + length], 12) == ETH_TYPE_ARP
      modifies mem, arp.entries, tx, tx.buffer, tx.tsad, tx.tsd
      ensures Valid()
      ensures State() == After(old(State()), old(mem[p..p + length]))
      ensures Sent() == old(Sent()) + Replies(old(State()), old(mem[p..p + length]))
      ensures mem[p..p + length] == LeftInBuffer(old(State()), old(mem[p..p + length]))
      ensures mem[..p] == old(mem[..p]) && mem[p + length..] == old(mem[p + length..])
    {
      if length < 42 {
        return;
      }
      var f := mem[p..p + length];
      if NetField16(f, 14) != 1 || NetField16(f, 16) != ETH_TYPE_IP || f[18] != 6 || f[19] != 4 {
        return;
      }
      arp.Update(SenderIp(f), SenderMac(f));
      if NetField16(f, 20) == ARP_REQUEST && NetField32(f, 38) == ipAddr {
        RewriteArp(mem, p, length, macAddr, ipAddr);
        tx.SendPacket(mem, p, length);
      }
    }

    /** handle_ip_packet: only packets for our address, only ICMP has an effect (the TCP handler
        in the build only prints). */
    method HandleIpPacket(mem: array<uint8>, p: nat, length: nat)
      requires Valid() && p + length <= mem.Length
      requires length >= 14 ==> NetField16(mem[p..p + length], 12) == ETH_TYPE_IP
      requires Readable(mem[p..p + length], ipAddr)
      modifies this, tx, tx.buffer, tx.tsad, tx.tsd
      ensures Valid()
      ensures State() == After(old(State()), mem[p..p + length])
      ensures Sent() == old(Sent()) + Replies(old(State()), mem[p..p + length])
    {
      if length < 14 + 20 {
        return;
      }
      var f := mem[p..p + length];
      if NetField32(f, 30) != ipAddr {
        return;
      }
      if f[23] == IP_PROTO_ICMP {
        HandleIcmpPacket(mem, p, length);
      }
    }

    /** handle_icmp_packet: answer an echo request, display an echo reply. */
    method HandleIcmpPacket(mem: array<uint8>, p: nat, length: nat)
      requires Valid() && 42 <= length && p + length <= mem.Length
      requires IsIcmpTo(mem[p..p + length], ipAddr) && Readable(mem[p..p + length], ipAddr)
      modifies this, tx, tx.buffer, tx.tsad, tx.tsd
      ensures Valid()
      ensures State() == After(old(State()), mem[p..p + length])
      ensures Sent() == old(Sent()) + Replies(old(State()), mem[p..p + length])
    {
      var f := mem[p..p + length];
      if f[34] == ICMP_ECHO_REQUEST && f[35] == 0 {
        SendEchoReply(mem, p, length);
      } else if f[34] == ICMP_ECHO_REPLY && f[35] == 0 {
        var text := ReadMessage(mem[p + 42..p + length]);
        assert mem[p + 42..p + length] == f[42..];
        shown := shown + [text];
      }
    }

    /** send_icmp_echo_reply: copy the request, edit the copy field by field, send 54 bytes. */
    method SendEchoReply(mem: array<uint8>, p: nat, length: nat)
      requires Valid() && 42 <= length <= ETH_MTU && p + length <= mem.Length
      modifies tx, tx.buffer, tx.tsad, tx.tsd
      ensures Valid()
      ensures Sent() == old(Sent()) + [EchoReplyFrame(mem[p..p + length])]
    {
      var buffer := new uint8[ETH_MTU];
      Memcpy(buffer, 0, mem, p, length);
      assert buffer[..length] == mem[p..p + length];
      RewriteEcho(buffer, mem[p..p + length]);
      assert buffer[0..54] == buffer[..54];
      tx.SendPacket(buffer, 0, 14 + 40);
    }
  }

  method PutEthHeader(buffer: array<uint8>, dst: Mac, src: Mac, ethType: uint16)
    requires buffer.Length >= 14
    modifies buffer
    ensures buffer[..14] == EthHeader(dst, src, ethType)
  {
    Store(buffer, 0, dst);
    Store(buffer, 6, src);
    HtonsStored(ethType);
    Store(buffer, 12, Le16(Htons(ethType)));
  }

  method PutArpBody(buffer: array<uint8>, opcode: uint16, senderMac: Mac, senderIp: uint32,
                    targetMac: Mac, targetIp: uint32)
    requires buffer.Length >= 42
    modifies buffer
    ensures buffer[..42] == old(buffer[..14]) + ArpBody(opcode, senderMac, senderIp, targetMac, targetIp)
  {
    ghost var start := buffer[..14];
    PutArpFixedPart(buffer, opcode);
    Store(buffer, 22, senderMac);
    HtonlStored(senderIp);
    Store(buffer, 28, Le32(Htonl(senderIp)));
    Store(buffer, 32, targetMac);
    HtonlStored(targetIp);
    Store(buffer, 38, Le32(Htonl(targetIp)));
    Regroup5(start, Be16(1) + Be16(ETH_TYPE_IP) + [6, 4] + Be16(opcode),
             senderMac, Be32(senderIp), targetMac, Be32(targetIp));
  }

  method PutArpFixedPart(buffer: array<uint8>, opcode: uint16)
    requires buffer.Length >= 22
    modifies buffer
    ensures buffer[..22] == old(buffer[..14]) + (Be16(1) + Be16(ETH_TYPE_IP) + [6, 4] + Be16(opcode))
  {
    ghost var start := buffer[..14];
    HtonsStored(1);
    Store(buffer, 14, Le16(Htons(1)));
    HtonsStored(ETH_TYPE_IP);
    Store(buffer, 16, Le16(Htons(ETH_TYPE_IP)));
    ghost var middle := buffer[..18];
    Store(buffer, 18, [6]);
    Store(buffer, 19, [4]);
    assert buffer[..20] == middle + [6, 4];
    HtonsStored(opcode);
    Store(buffer, 20, Le16(Htons(opcode)));
    Regroup4(start, Be16(1), Be16(ETH_TYPE_IP), [6, 4], Be16(opcode));
  }

  // ---------------------------------------------------------------- ICMP

  method BuildEchoRequest(buffer: array<uint8>, mac: Mac, ip: uint32, targetMac: Mac, target: uint32)
    requires buffer.Length >= 54
    modifies buffer
    ensures buffer[..54] == EchoRequestFrame(mac, ip, targetMac, target)
  {
    PutEthHeader(buffer, targetMac, mac, ETH_TYPE_IP);
    PutIpHeader(buffer, IP_PROTO_ICMP, ip, target);
    PutIcmpRequest(buffer);
    SplitPacket(buffer[..], EthHeader(targetMac, mac, ETH_TYPE_IP), IpHeader(IP_PROTO_ICMP, ip, target), RequestIcmp());
    SealHeaders(buffer);
  }

  method PutIpHeader(buffer: array<uint8>, protocol: uint8, ip: uint32, target: uint32)
    requires buffer.Length >= 34
    modifies buffer
    ensures buffer[..34] == old(buffer[..14]) + IpHeader(protocol, ip, target)
  {
    HtonsStored(40);
    ghost var start := buffer[..14];
    Store(buffer, 14, [0x45, 0]);
    Store(buffer, 16, Le16(Htons(40)));
    Store(buffer, 18, [0, 0, 0, 0, 64, protocol, 0, 0]);
    HtonlStored(ip);
    Store(buffer, 26, Le32(Htonl(ip)));
    HtonlStored(target);
    Store(buffer, 30, Le32(Htonl(target)));
    Regroup5(start, [0x45, 0], Be16(40), [0, 0, 0, 0, 64, protocol, 0, 0], Be32(ip), Be32(target));
  }

  method PutIcmpRequest(buffer: array<uint8>)
    requires buffer.Length >= 54
    modifies buffer
    ensures buffer[..54] == old(buffer[..34]) + RequestIcmp()
  {
    Regroup4(buffer[..34], [ICMP_ECHO_REQUEST, 0, 0, 0], Be16(0x1234), Be16(1), HELLO);
    Store(buffer, 34, [ICMP_ECHO_REQUEST, 0, 0, 0]);
    HtonsStored(0x1234);
    Store(buffer, 38, Le16(Htons(0x1234)));
    HtonsStored(1);
    Store(buffer, 40, Le16(Htons(1)));
    Store(buffer, 42, HELLO);
  }

  /** The three headers of a 54-byte packet. */
  lemma SplitPacket(b: seq<uint8>, eth: seq<uint8>, ip: seq<uint8>, rest: seq<uint8>)
    requires |b| >= 54 && |eth| == 14 && |ip| == |rest| == 20 && b[..54] == eth + ip + rest
    ensures b[..14] == eth && b[14..34] == ip && b[34..54] == rest
  {
    assert forall i :: 0 <= i < 54 ==> b[i] == (eth + ip + rest)[i];
  }

  /** Compute and store the checksum of the IP header, whose field is zero. */
  method SealIpHeader(buffer: array<uint8>)
    requires buffer.Length >= 34
    modifies buffer
    ensures buffer[14..34] == Sealed(old(buffer[14..34]), 10)
    ensures buffer[..14] == old(buffer[..14]) && buffer[34..] == old(buffer[34..])
  {
    var ipSum := NetworkChecksum(buffer[14..34]);
    StoreField(buffer, 14, 20, 10, Le16(ipSum));
  }

  /** Compute and store the IP and ICMP checksums of a 54-byte packet whose checksum fields are
      zero (network.c:504-509). */
  method SealHeaders(buffer: array<uint8>)
    requires buffer.Length >= 54
    modifies buffer
    ensures buffer[..54] == old(buffer[..14]) + Sealed(old(buffer[14..34]), 10) + Sealed(old(buffer[34..54]), 2)
  {
    ghost var ip, icmp := buffer[14..34], buffer[34..54];
    SealIpHeader(buffer);
    assert buffer[34..54] == buffer[34..][..20] == icmp;
    var icmpSum := NetworkChecksum(buffer[34..54]);
    StoreField(buffer, 34, 20, 2, Le16(icmpSum));
    assert buffer[14..34] == buffer[..34][14..] == Sealed(ip, 10);
    assert buffer[..14] == buffer[..34][..14];
    assert buffer[..54] == buffer[..14] + buffer[14..34] + buffer[34..54];
  }

  // ---------------------------------------------------------------- editing a request in place

  /** Swap the MACs of the Ethernet header (network.c:377-381). */
  method SwapMacs(buffer: array<uint8>)
    requires buffer.Length >= 54
    modifies buffer
    ensures var e := old(buffer[0..14]); buffer[0..14] == e[6..12] + e[0..6] + e[12..14]
    ensures buffer[14..34] == old(buffer[14..34]) && buffer[34..54] == old(buffer[34..54])
  {
    ghost var b := buffer[..];
    var tempMac := buffer[0..14][0..6];
    EthEdited(buffer[0..14], tempMac);
    CopyField(buffer, 0, 14, 0, 6, 6);
    StoreField(buffer, 0, 14, 6, tempMac);
    SameTail(b, buffer[..], 14, 14, 34);
    SameTail(b, buffer[..], 14, 34, 54);
  }

  /** An Ethernet header sent back to where it came from, with a new source. */
  lemma EthEdited(e: seq<uint8>, mac: seq<uint8>)
    requires |e| == 14 && |mac| == 6
    ensures Splice(Splice(e, 0, e[6..12]), 6, mac) == e[6..12] + mac + e[12..14]
  {
    assert Splice(e, 0, e[6..12]) == e[6..12] + e[6..12] + e[12..14];
  }

  /** Swap the addresses of the IP header `h`, set its total length to 40 and clear its checksum
      (network.c:383-386, 407-409, 416). */
  method EditIpHeader(buffer: array<uint8>)
    requires buffer.Length >= 54
    modifies buffer
    ensures var h := old(buffer[14..34]);
            buffer[14..34] == h[0..2] + Be16(40) + h[4..10] + [0, 0] + h[16..20] + h[12..16]
    ensures buffer[..14] == old(buffer[..14]) && buffer[34..54] == old(buffer[34..54])
  {
    ghost var b := buffer[..];
    IpHeaderEdited(buffer[14..34], Be16(40), [0, 0]);
    var tempIp := buffer[14..34][16..20];
    CopyField(buffer, 14, 20, 16, 12, 4);
    StoreField(buffer, 14, 20, 12, tempIp);
    HtonsStored(40);
    StoreField(buffer, 14, 20, 2, Le16(Htons(40)));
    StoreField(buffer, 14, 20, 10, [0, 0]);
    SameTail(b, buffer[..], 34, 34, 54);
  }

  /** The edits of EditIpHeader, one after the other, and what they come to. */
  lemma IpHeaderEdited(h: seq<uint8>, len: seq<uint8>, zero: seq<uint8>)
    requires |h| == 20 && |len| == |zero| == 2
    ensures var h1 := Splice(h, 16, h[12..16]);
            var h2 := Splice(h1, 12, h[16..20]);
            var h3 := Splice(h2, 2, len);
            Splice(h3, 10, zero) == h[0..2] + len + h[4..10] + zero + h[16..20] + h[12..16]
  {
    var a, b, c, d, src, dst := h[0..2], h[2..4], h[4..10], h[10..12], h[12..16], h[16..20];
    var front := a + b + c + d;
    assert h == front + src + dst + [];
    AddressesSwapped(front, src, dst);
    assert front + dst + src == a + b + (c + d + dst + src);
    SpliceMiddle(a, b, c + d + dst + src, len);
    assert a + len + (c + d + dst + src) == (a + len + c) + d + (dst + src);
    SpliceMiddle(a + len + c, d, dst + src, zero);
  }

  lemma AddressesSwapped(front: seq<uint8>, src: seq<uint8>, dst: seq<uint8>)
    requires |front| == 12 && |src| == |dst| == 4
    ensures Splice(Splice(front + src + dst + [], 16, src), 12, dst) == front + dst + src
  {
    SpliceMiddle(front + src, dst, [], src);
    assert (front + src) + src + [] == front + src + src;
    SpliceMiddle(front, src, src, dst);
  }

  /** Turn the ICMP header into a reply carrying the greeting (network.c:395-405). */
  method EditIcmp(buffer: array<uint8>)
    requires buffer.Length >= 54
    modifies buffer
    ensures buffer[34..54] == [ICMP_ECHO_REPLY, 0, 0, 0] + old(buffer[34..54])[4..8] + HELLO
    ensures buffer[..34] == old(buffer[..34])
  {
    IcmpEdited(buffer[34..54], HELLO);
    StoreField(buffer, 34, 20, 0, [ICMP_ECHO_REPLY]);
    StoreField(buffer, 34, 20, 1, [0]);
    StoreField(buffer, 34, 20, 2, [0, 0]);
    StoreField(buffer, 34, 20, 8, HELLO);
  }

  lemma IcmpEdited(c: seq<uint8>, data: seq<uint8>)
    requires |c| == 20 && |data| == 12
    ensures var c2 := Splice(Splice(c, 0, [ICMP_ECHO_REPLY]), 1, [0]);
            Splice(Splice(c2, 2, [0, 0]), 8, data) == [ICMP_ECHO_REPLY, 0, 0, 0] + c[4..8] + data
  {
    var c2 := Splice(Splice(c, 0, [ICMP_ECHO_REPLY]), 1, [0]);
    assert c2 == [ICMP_ECHO_REPLY, 0] + c[2..20];
    assert Splice(c2, 2, [0, 0]) == [ICMP_ECHO_REPLY, 0, 0, 0] + c[4..20];
  }

  /** The fields of a request as they lie in the headers of its copy. */
  lemma RequestHeaders(b: seq<uint8>, f: Frame)
    requires |b| >= 54 && 42 <= |f| <= |b| && b[..|f|] == f
    ensures var e, h, c := b[0..14], b[14..34], b[34..54];
            && e[6..12] == f[6..12] && e[0..6] == f[..6] && e[12..14] == f[12..14]
            && h[0..2] == f[14..16] && h[4..10] == f[18..24] && h[16..20] == f[30..34] && h[12..16] == f[26..30]
            && c[4..8] == f[38..42]
  {
    SliceSlice(b, 0, |f|);
    SliceSlice(b, 0, 14);
    SliceSlice(b, 14, 34);
    SliceSlice(b, 34, 54);
    assert b[0..|f|] == f;
  }

  method RewriteEcho(buffer: array<uint8>, f: Frame)
    requires buffer.Length >= 54 && 42 <= |f| <= buffer.Length && buffer[..|f|] == f
    modifies buffer
    ensures buffer[..54] == EchoReplyFrame(f)
  {
    RequestHeaders(buffer[..], f);
    SwapMacs(buffer);
    assert buffer[..14] == buffer[0..14];
    EditIpHeader(buffer);
    EditIcmp(buffer);
    assert buffer[..14] == buffer[..34][..14] && old(buffer[..14]) == old(buffer[..34][..14]);
    assert buffer[14..34] == buffer[..34][14..34];
    SealHeaders(buffer);
  }

  /** Turn the ARP request at `p` into its reply (arp.c:118-131). */
  method RewriteArp(mem: array<uint8>, p: nat, length: nat, mac: Mac, ip: uint32)
    requires 42 <= length && p + length <= mem.Length
    modifies mem
    ensures mem[p..p + length] == ArpReplyFrame(old(mem[p..p + length]), mac, ip)
    ensures mem[..p] == old(mem[..p]) && mem[p + length..] == old(mem[p + length..])
  {
    ghost var m0 := mem[..];
    RequestParts(m0, p, length);
    EditEthHeader(mem, p, mac);
    ghost var m1 := mem[..];
    SameTail(m0, m1, p + 14, p + 14, p + 42);
    EditArpBody(mem, p + 14, mac, ip);
    TwoEdits(m0, m1, mem[..], p, length);
  }

  /** Editing the first 14 and then the next 28 bytes of the packet at `p`. */
  lemma TwoEdits(m0: seq<uint8>, m1: seq<uint8>, m2: seq<uint8>, p: nat, length: nat)
    requires 42 <= length && p + length <= |m0| == |m1| == |m2|
    requires m1[..p] == m0[..p] && m1[p + 14..] == m0[p + 14..]
    requires m2[..p + 14] == m1[..p + 14] && m2[p + 42..] == m1[p + 42..]
    ensures m2[p..p + length] == m1[p..p + 14] + m2[p + 14..p + 42] + m0[p + 42..p + length]
    ensures m2[..p] == m0[..p] && m2[p + length..] == m0[p + length..]
  {
    SameOutside(m0, m1, p, p + 14);
    SameOutside(m1, m2, p + 14, p + 42);
  }

  /** The parts of the request at `p`, in terms of the whole frame. */
  lemma RequestParts(m: seq<uint8>, p: nat, length: nat)
    requires 42 <= length && p + length <= |m|
    ensures var f, e, a := m[p..p + length], m[p..p + 14], m[p + 14..p + 42];
            && e[6..12] == f[6..12] && e[12..14] == f[12..14]
            && a[0..6] == f[14..20] && a[8..14] == f[22..28] && a[14..18] == f[28..32]
            && m[p + 42..p + length] == f[42..]
  {
    SliceSlice(m, p, p + length);
    SliceSlice(m, p, p + 14);
    SliceSlice(m, p + 14, p + 42);
    assert m[p..p + length][42..length] == m[p + 42..p + length];
    assert m[p..p + length][42..] == m[p..p + length][42..length];
  }

  method EditEthHeader(mem: array<uint8>, p: nat, mac: Mac)
    requires p + 14 <= mem.Length
    modifies mem
    ensures mem[p..p + 14] == old(mem[p..p + 14])[6..12] + mac + old(mem[p..p + 14])[12..14]
    ensures mem[..p] == old(mem[..p]) && mem[p + 14..] == old(mem[p + 14..])
  {
    EthEdited(mem[p..p + 14], mac);
    CopyField(mem, p, 14, 0, 6, 6);
    StoreField(mem, p, 14, 6, mac);
  }

  method EditArpBody(mem: array<uint8>, p: nat, mac: Mac, ip: uint32)
    requires p + 28 <= mem.Length
    modifies mem
    ensures var a := old(mem[p..p + 28]);
            mem[p..p + 28] == a[0..6] + Be16(ARP_REPLY) + mac + Be32(ip) + a[8..14] + a[14..18]
    ensures mem[..p] == old(mem[..p]) && mem[p + 28..] == old(mem[p + 28..])
  {
    ArpBodyEdited(mem[p..p + 28], mac, ip);
    HtonsStored(ARP_REPLY);
    StoreField(mem, p, 28, 6, Le16(Htons(ARP_REPLY)));
    CopyField(mem, p, 28, 18, 8, 6);
    CopyField(mem, p, 28, 24, 14, 4);
    StoreField(mem, p, 28, 8, mac);
    HtonlStored(ip);
    StoreField(mem, p, 28, 14, Le32(Htonl(ip)));
  }

  /** The edits of EditArpBody, one after the other, and what they come to. */
  lemma ArpBodyEdited(a: seq<uint8>, mac: Mac, ip: uint32)
    requires |a| == 28
    ensures var a1 := Splice(a, 6, Be16(ARP_REPLY));
            var a2 := Splice(a1, 18, a1[8..14]);
            var a3 := Splice(a2, 24, a2[14..18]);
            var a4 := Splice(a3, 8, mac);
            Splice(a4, 14, Be32(ip)) == a[0..6] + Be16(ARP_REPLY) + mac + Be32(ip) + a[8..14] + a[14..18]
  {
    var op := Be16(ARP_REPLY);
    var b, c, m, i, u, v := a[0..6], a[6..8], a[8..14], a[14..18], a[18..24], a[24..28];
    assert a == b + c + (m + i + u + v);
    SpliceMiddle(b, c, m + i + u + v, op);
    var a1 := Splice(a, 6, op);
    assert a1 == (b + op + m + i) + u + v && a1[8..14] == m;
    SpliceMiddle(b + op + m + i, u, v, m);
    var a2 := Splice(a1, 18, m);
    assert a2 == (b + op + m + i + m) + v + [] && a2[14..18] == i;
    SpliceMiddle(b + op + m + i + m, v, [], i);
    var a3 := Splice(a2, 24, i);
    assert a3 == (b + op) + m + (i + m + i);
    SpliceMiddle(b + op, m, i + m + i, mac);
    var a4 := Splice(a3, 8, mac);
    assert a4 == (b + op + mac) + i + (m + i);
    SpliceMiddle(b + op + mac, i, m + i, Be32(ip));
    assert b + op + mac + Be32(ip) + (m + i) == b + op + mac + Be32(ip) + m + i;
  }

  lemma MessageStep(data: seq<uint8>, i: nat)
    requires i < |data|
    ensures Message(data[i..])
         == if data[i] == 0 then []
            else [if 32 <= data[i] <= 126 then data[i] else 46] + Message(data[i + 1..])
  {
    assert data[i..][1..] == data[i + 1..];
  }

  method ReadMessage(data: seq<uint8>) returns (text: seq<uint8>)
    ensures text == Message(data)
  {
    assert data[0..] == data && Message(data[|data|..]) == [];
    hide Message;
    text := [];
    var i := 0;
    while i < |data|
      invariant 0 <= i <= |data|
      invariant text + Message(data[i..]) == Message(data)
    {
      MessageStep(data, i);
      if 32 <= data[i] <= 126 {
        text := text + [data[i]];
      } else if data[i] == 0 {
        return;
      } else {
        text := text + [46];
      }
      i := i + 1;
    }
  }
}
