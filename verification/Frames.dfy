/** The frames a node builds and what one received frame does to it, stated on wire bytes
    (arp.h, ipv4.h, network.h).  Network.dfy proves the code against these functions. */
module Frames {
  import opened Bytes
  import opened Checksum
  import opened Arp

  type Frame = seq<uint8>

  const ETH_MTU := 1500
  const ETH_TYPE_IP: uint16 := 0x0800
  const ETH_TYPE_ARP: uint16 := 0x0806
  const ARP_REQUEST: uint16 := 1
  const ARP_REPLY: uint16 := 2
  const IP_PROTO_ICMP: uint8 := 1
  const ICMP_ECHO_REQUEST: uint8 := 8
  const ICMP_ECHO_REPLY: uint8 := 0

  /** "hello,world" and its terminating zero. */
  const HELLO: seq<uint8> := [0x68, 0x65, 0x6C, 0x6C, 0x6F, 0x2C, 0x77, 0x6F, 0x72, 0x6C, 0x64, 0]

  /** A node: its addresses, its ARP cache and the ping messages it has displayed. */
  datatype NodeState = NodeState(mac: Mac, ip: uint32, cache: Cache, shown: seq<seq<uint8>>)

  // ---------------------------------------------------------------- reading fields

  /** ntohs and ntohl of the field at `k` (FieldsAsLoaded). */
  function NetField16(f: Frame, k: nat): uint16
    requires k + 2 <= |f|
  {
    f[k] as int * 0x100 + f[k + 1] as int
  }

  function NetField32(f: Frame, k: nat): uint32
    requires k + 4 <= |f|
  {
    f[k] as int * 0x100_0000 + f[k + 1] as int * 0x1_0000 + f[k + 2] as int * 0x100 + f[k + 3] as int
  }

  /** What the code computes: the little-endian load, its bytes exchanged. */
  lemma FieldsAsLoaded(f: Frame, k: nat)
    ensures k + 2 <= |f| ==> NetField16(f, k) == Htons(Load16(f, k))
    ensures k + 4 <= |f| ==> NetField32(f, k) == Htonl(Load32(f, k))
  {
    if k + 4 <= |f| {
      var t := f[k..k + 4];
      assert Load32(f, k) == Load32(t, 0);
      Le32Load32(t);
      assert Le32(Load32(t, 0))[0] == t[0] && Le32(Load32(t, 0))[1] == t[1];
      assert Le32(Load32(t, 0))[2] == t[2] && Le32(Load32(t, 0))[3] == t[3];
    }
  }

  /** handle_arp_packet accepts the frame: long enough, Ethernet and IPv4 (arp.c:74-87). */
  predicate IsArp(f: Frame) {
    && |f| >= 42 && NetField16(f, 12) == ETH_TYPE_ARP
    && NetField16(f, 14) == 1 && NetField16(f, 16) == ETH_TYPE_IP && f[18] == 6 && f[19] == 4
  }

  function SenderMac(f: Frame): Mac
    requires IsArp(f)
  {
    f[22..28]
  }

  function SenderIp(f: Frame): uint32
    requires IsArp(f)
  {
    NetField32(f, 28)
  }

  predicate IsArpRequest(f: Frame) {
    IsArp(f) && NetField16(f, 20) == ARP_REQUEST
  }

  /** An ARP request for this node's own address. */
  predicate AsksFor(f: Frame, ip: uint32) {
    IsArpRequest(f) && NetField32(f, 38) == ip
  }

  /** An ICMP packet addressed to `ip`. */
  predicate IsIcmpTo(f: Frame, ip: uint32) {
    |f| >= 34 && NetField16(f, 12) == ETH_TYPE_IP && NetField32(f, 30) == ip && f[23] == IP_PROTO_ICMP
  }

  predicate IsPingTo(f: Frame, ip: uint32) {
    IsIcmpTo(f, ip) && |f| >= 42 && f[34] == ICMP_ECHO_REQUEST && f[35] == 0
  }

  predicate IsPongTo(f: Frame, ip: uint32) {
    IsIcmpTo(f, ip) && |f| >= 42 && f[34] == ICMP_ECHO_REPLY && f[35] == 0
  }

  /** The frames the code may be handed: an ICMP header is read without a length check, and an echo
      request is copied to a 1500-byte buffer. */
  predicate Readable(f: Frame, ip: uint32) {
    && |f| < 0x1_0000
    && (IsIcmpTo(f, ip) ==> |f| >= 42)
    && (IsPingTo(f, ip) ==> |f| <= ETH_MTU)
  }

  // ---------------------------------------------------------------- frames built

  /** A span whose checksum field at `k` holds zero, with the checksum filled in. */
  function Sealed(span: seq<uint8>, k: nat): (r: seq<uint8>)
    requires k + 2 <= |span|
    ensures |r| == |span|
  {
    Splice(span, k, Le16(InternetChecksum(span)))
  }

  function EthHeader(dst: Mac, src: Mac, ethType: uint16): (r: seq<uint8>)
    ensures |r| == 14
  {
    dst + src + Be16(ethType)
  }

  function ArpBody(opcode: uint16, senderMac: Mac, senderIp: uint32, targetMac: Mac, targetIp: uint32): (r: seq<uint8>)
    ensures |r| == 28
  {
    Be16(1) + Be16(ETH_TYPE_IP) + [6, 4] + Be16(opcode)
    + senderMac + Be32(senderIp) + targetMac + Be32(targetIp)
  }

  const BROADCAST: Mac := [0xFF, 0xFF, 0xFF, 0xFF, 0xFF, 0xFF]

  function ArpRequestFrame(mac: Mac, ip: uint32, target: uint32): (r: Frame)
    ensures |r| == 42
  {
    EthHeader(BROADCAST, mac, ETH_TYPE_ARP) + ArpBody(ARP_REQUEST, mac, ip, [0, 0, 0, 0, 0, 0], target)
  }

  /** The reply a request is turned into: sender and target exchanged, our addresses filled in,
      padding kept. */
  function ArpReplyFrame(f: Frame, mac: Mac, ip: uint32): (r: Frame)
    requires |f| >= 42
    ensures |r| == |f|
  {
    (f[6..12] + mac + f[12..14])
    + (f[14..20] + Be16(ARP_REPLY) + mac + Be32(ip) + f[22..28] + f[28..32])
    + f[42..]
  }

  /** The IP header of a packet the code builds itself, its checksum still zero; every such
      packet is 40 bytes long. */
  function IpHeader(protocol: uint8, ip: uint32, target: uint32): (r: seq<uint8>)
    ensures |r| == 20
  {
    [0x45, 0] + Be16(40) + [0, 0, 0, 0, 64, protocol, 0, 0] + Be32(ip) + Be32(target)
  }

  function RequestIcmp(): (r: seq<uint8>)
    ensures |r| == 20
  {
    [ICMP_ECHO_REQUEST, 0, 0, 0] + Be16(0x1234) + Be16(1) + HELLO
  }

  function EchoRequestFrame(mac: Mac, ip: uint32, targetMac: Mac, target: uint32): (r: Frame)
    ensures |r| == 54
  {
    EthHeader(targetMac, mac, ETH_TYPE_IP) + Sealed(IpHeader(IP_PROTO_ICMP, ip, target), 10) + Sealed(RequestIcmp(), 2)
  }

  function ReplyIpHeader(f: Frame): (r: seq<uint8>)
    requires |f| >= 42
    ensures |r| == 20
  {
    f[14..16] + Be16(40) + f[18..24] + [0, 0] + f[30..34] + f[26..30]
  }

  function ReplyIcmp(f: Frame): (r: seq<uint8>)
    requires |f| >= 42
    ensures |r| == 20
  {
    [ICMP_ECHO_REPLY, 0, 0, 0] + f[38..42] + HELLO
  }

  /** The answer to an echo request: addresses exchanged, identifier and sequence number kept. */
  function EchoReplyFrame(f: Frame): (r: Frame)
    requires |f| >= 42
    ensures |r| == 54
  {
    (f[6..12] + f[..6] + f[12..14]) + Sealed(ReplyIpHeader(f), 10) + Sealed(ReplyIcmp(f), 2)
  }

  /** What the display of an echo reply shows of its data: up to the first zero byte, with a dot
      for every byte that is not printable (network.c:306-319). */
  function Message(data: seq<uint8>): seq<uint8> {
    if data == [] || data[0] == 0 then []
    else [if 32 <= data[0] <= 126 then data[0] else 46] + Message(data[1..])
  }

  // ---------------------------------------------------------------- one received frame

  function After(n: NodeState, f: Frame): NodeState {
    if IsArp(f) then n.(cache := Updated(n.cache, SenderIp(f), SenderMac(f)))
    else if IsPongTo(f, n.ip) then n.(shown := n.shown + [Message(f[42..])])
    else n
  }

  /** The frames sent in answer; the driver drops frames longer than its transmit slots. */
  function Replies(n: NodeState, f: Frame): seq<Frame> {
    if AsksFor(f, n.ip) then
      if |f| <= 1536 then [ArpReplyFrame(f, n.mac, n.ip)] else []
    else if IsPingTo(f, n.ip) then [EchoReplyFrame(f)]
    else []
  }

  /** What the receive buffer holds afterwards: an ARP request has become its own reply. */
  function LeftInBuffer(n: NodeState, f: Frame): (r: Frame)
    ensures |r| == |f|
  {
    if AsksFor(f, n.ip) then ArpReplyFrame(f, n.mac, n.ip) else f
  }

  /** arp_resolve: our own address, else the cache. */
  function Resolve(n: NodeState, ip: uint32): Option<Mac> {
    if ip == n.ip then Some(n.mac) else Lookup(n.cache, ip)
  }
}
