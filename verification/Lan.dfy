/** Any number of nodes on one wire.  Frames may be lost, duplicated, reordered, padded or
    overheard by any set of nodes; nodes ask, ping and clear their caches at any time. */
module Lan {
  import opened Bytes
  import opened Arp
  import opened Frames
  import Ping

  datatype Lan = Lan(nodes: seq<NodeState>, wire: seq<Frame>)

  /** Deliver hands frame `k`, padded with zeros, to every node in `to` and takes it off the wire:
      the empty set is a lost frame, several nodes are a broadcast or eavesdroppers. */
  datatype Step =
    | Deliver(k: nat, to: set<nat>, pad: nat)
    | Duplicate(k: nat)
    | Ask(i: nat, target: uint32)
    | Echo(i: nat, target: uint32)
    | Forget(i: nat)

  predicate Enabled(s: Lan, step: Step) {
    match step
    case Deliver(k, _, pad) => k < |s.wire| && (pad > 0 ==> |s.wire[k]| + pad <= ETH_MTU)
    case Duplicate(k) => k < |s.wire|
    case Ask(i, _) => i < |s.nodes|
    case Echo(i, _) => i < |s.nodes|
    case Forget(i) => i < |s.nodes|
  }

  /** What the nodes in `to` send in answer to `f`. */
  function Answers(nodes: seq<NodeState>, f: Frame, to: set<nat>): seq<Frame> {
    if nodes == [] then []
    else Answers(Init(nodes), f, to) + if |nodes| - 1 in to then Replies(Last(nodes), f) else []
  }

  function Next(s: Lan, step: Step): Lan
    requires Enabled(s, step)
  {
    match step
    case Deliver(k, to, pad) =>
      var f := s.wire[k] + Zeros(pad);
      Lan(seq(|s.nodes|, i requires 0 <= i < |s.nodes| => if i in to then After(s.nodes[i], f) else s.nodes[i]),
          s.wire[..k] + s.wire[k + 1..] + Answers(s.nodes, f, to))
    case Duplicate(k) => s.(wire := s.wire + [s.wire[k]])
    case Ask(i, target) => s.(wire := s.wire + [ArpRequestFrame(s.nodes[i].mac, s.nodes[i].ip, target)])
    case Echo(i, target) =>
      (match Resolve(s.nodes[i], target)
       case None => s
       case Some(mac) => s.(wire := s.wire + [EchoRequestFrame(s.nodes[i].mac, s.nodes[i].ip, mac, target)]))
    case Forget(i) => s.(nodes := s.nodes[i := s.nodes[i].(cache := Cleared(s.nodes[i].cache))])
  }

  ghost predicate IsRun(s: Lan, steps: seq<Step>)
    decreases steps
  {
    steps == [] || (Enabled(s, steps[0]) && IsRun(Next(s, steps[0]), steps[1..]))
  }

  ghost function Run(s: Lan, steps: seq<Step>): Lan
    requires IsRun(s, steps)
    decreases steps
  {
    if steps == [] then s else Run(Next(s, steps[0]), steps[1..])
  }

  // ---------------------------------------------------------------- truthfulness

  ghost predicate DistinctIps(nodes: seq<NodeState>) {
    forall i, j :: 0 <= i < j < |nodes| ==> nodes[i].ip != nodes[j].ip
  }

  /** Some node has this address pair. */
  ghost predicate Owns(nodes: seq<NodeState>, ip: uint32, mac: Mac) {
    exists j :: 0 <= j < |nodes| && nodes[j].ip == ip && nodes[j].mac == mac
  }

  /** A frame in flight fits every node's buffers, and if it is an ARP packet its sender pair
      names an owner. */
  ghost predicate Truthful(nodes: seq<NodeState>, f: Frame) {
    42 <= |f| <= ETH_MTU && (IsArp(f) ==> Owns(nodes, SenderIp(f), SenderMac(f)))
  }

  ghost predicate CacheTruthful(nodes: seq<NodeState>, c: Cache) {
    forall i :: 0 <= i < ARP_CACHE_SIZE && c[i].valid ==> Owns(nodes, c[i].ip, c[i].mac)
  }

  ghost predicate Inv(s: Lan) {
    && (forall k :: 0 <= k < |s.wire| ==> Truthful(s.nodes, s.wire[k]))
    && (forall i :: 0 <= i < |s.nodes| ==> CacheTruthful(s.nodes, s.nodes[i].cache))
  }

  ghost predicate Initial(s: Lan) {
    s.wire == [] && forall i, j :: 0 <= i < |s.nodes| && 0 <= j < ARP_CACHE_SIZE ==> !s.nodes[i].cache[j].valid
  }

  /** Nodes keep their addresses, so ownership is the same in both lists. */
  ghost predicate SameAddresses(ns: seq<NodeState>, ms: seq<NodeState>) {
    |ns| == |ms| && forall i :: 0 <= i < |ns| ==> ns[i].ip == ms[i].ip && ns[i].mac == ms[i].mac
  }

  lemma OwnsTransfers(ns: seq<NodeState>, ms: seq<NodeState>, ip: uint32, mac: Mac)
    requires SameAddresses(ns, ms) && Owns(ns, ip, mac)
    ensures Owns(ms, ip, mac)
  {
    var j :| 0 <= j < |ns| && ns[j].ip == ip && ns[j].mac == mac;
    assert ms[j].ip == ip && ms[j].mac == mac;
  }

  // ---------------------------------------------------------------- frames as the receiver reads them

  lemma PaddingKeepsArp(f: Frame, pad: nat)
    requires |f| >= 42
    ensures IsArp(f + Zeros(pad)) <==> IsArp(f)
    ensures IsArp(f) ==> SenderIp(f + Zeros(pad)) == SenderIp(f) && SenderMac(f + Zeros(pad)) == SenderMac(f)
    ensures IsRequest(f + Zeros(pad)) <==> IsRequest(f)
    ensures NetField32(f + Zeros(pad), 38) == NetField32(f, 38) && (f + Zeros(pad))[6..12] == f[6..12]
  {
    var g := f + Zeros(pad);
    assert forall i :: 0 <= i < 42 ==> g[i] == f[i];
    assert g[22..28] == f[22..28] && g[6..12] == f[6..12];
  }

  /** The fields of the reply, one after the other. */
  lemma ArpReplyParts(f: Frame, mac: Mac, ip: uint32)
    requires |f| >= 42
    ensures var r := ArpReplyFrame(f, mac, ip);
            && r[0..6] == f[6..12] && r[6..12] == mac && r[12..14] == f[12..14]
            && r[14..20] == f[14..20] && r[20..22] == Be16(ARP_REPLY)
            && r[22..28] == mac && r[28..32] == Be32(ip) && r[32..38] == f[22..28] && r[38..42] == f[28..32]
  {
    var e := f[6..12] + mac + f[12..14];
    var a := f[14..20] + Be16(ARP_REPLY) + mac + Be32(ip) + f[22..28] + f[28..32];
    var r := ArpReplyFrame(f, mac, ip);
    assert r == e + a + f[42..] && |e| == 14 && |a| == 28;
    assert r[0..14] == e && r[14..42] == a;
    SliceSlice(r, 0, 14);
    SliceSlice(r, 14, 42);
    assert e[0..6] == f[6..12] && e[6..12] == mac && e[12..14] == f[12..14];
    assert a[18..24] == f[22..28] && a[24..28] == f[28..32];
    assert a[0..6] == f[14..20] && a[6..8] == Be16(ARP_REPLY) && a[8..14] == mac && a[14..18] == Be32(ip);
  }

  /** The reply made in place is an ARP reply whose sender pair is the replying node's own. */
  lemma ArpReplyRead(f: Frame, mac: Mac, ip: uint32)
    requires IsArp(f)
    ensures var r := ArpReplyFrame(f, mac, ip);
            IsArp(r) && !IsRequest(r) && SenderIp(r) == ip && SenderMac(r) == mac
  {
    var r := ArpReplyFrame(f, mac, ip);
    ArpReplyParts(f, mac, ip);
    hide ArpReplyFrame, Be16, Be32;
    assert r[12] == r[12..14][0] && r[13] == r[12..14][1];
    assert f[12] == f[12..14][0] && f[13] == f[12..14][1];
    forall i | 14 <= i < 20 ensures r[i] == f[i] {
      assert r[i] == r[14..20][i - 14] && f[i] == f[14..20][i - 14];
    }
    Ping.Field16(r, 20, ARP_REPLY);
    Ping.Field32(r, 28, ip);
  }

  lemma ArpRequestRead(mac: Mac, ip: uint32, target: uint32)
    ensures var r := ArpRequestFrame(mac, ip, target);
            IsArpRequest(r) && SenderIp(r) == ip && SenderMac(r) == mac && NetField32(r, 38) == target
            && r[0..6] == BROADCAST && r[6..12] == mac
  {
    var b := ArpBody(ARP_REQUEST, mac, ip, [0, 0, 0, 0, 0, 0], target);
    var r := ArpRequestFrame(mac, ip, target);
    Ping.EthFields(BROADCAST, mac, ETH_TYPE_ARP);
    SliceSlice(r, 0, 14);
    assert r[0..14] == EthHeader(BROADCAST, mac, ETH_TYPE_ARP);
    SliceSlice(r, 14, 42);
    assert r[14..42] == b;
    assert b[0..2] == Be16(1) && b[2..4] == Be16(ETH_TYPE_IP) && b[4..6] == [6, 4] && b[6..8] == Be16(ARP_REQUEST);
    assert b[8..14] == mac && b[14..18] == Be32(ip) && b[24..28] == Be32(target);
    assert r[18] == r[18..20][0] && r[19] == r[18..20][1];
    Ping.Field16(r, 12, ETH_TYPE_ARP);
    Ping.Field16(r, 14, 1);
    Ping.Field16(r, 16, ETH_TYPE_IP);
    Ping.Field16(r, 20, ARP_REQUEST);
    Ping.Field32(r, 28, ip);
    Ping.Field32(r, 38, target);
  }

  /** The address exchange: a request from `a` for `b`, padded or not, makes `b` learn `a` and send
      one reply, addressed to `a`; that reply makes `a` learn `b` and send nothing. */
  lemma ArpRoundTrip(a: NodeState, b: NodeState, pad: nat, pad': nat)
    requires a.ip != b.ip && 42 + pad <= ETH_MTU
    ensures var q := ArpRequestFrame(a.mac, a.ip, b.ip) + Zeros(pad);
            |Replies(b, q)| == 1
            && var r := Replies(b, q)[0] + Zeros(pad');
               && r[..6] == a.mac
               && Resolve(After(b, q), a.ip) == Some(a.mac)
               && Resolve(After(a, r), b.ip) == Some(b.mac) && After(a, r).shown == a.shown && Replies(a, r) == []
  {
    var f := ArpRequestFrame(a.mac, a.ip, b.ip);
    var q := f + Zeros(pad);
    ArpRequestRead(a.mac, a.ip, b.ip);
    PaddingKeepsArp(f, pad);
    var p := ArpReplyFrame(q, b.mac, b.ip);
    ArpReplyRead(q, b.mac, b.ip);
    ArpReplyParts(q, b.mac, b.ip);
    PaddingKeepsArp(p, pad');
    hide ArpRequestFrame, ArpReplyFrame, Updated;
    UpdatedFound(b.cache, a.ip, a.mac);
    UpdatedFound(a.cache, b.ip, b.mac);
    assert (p + Zeros(pad'))[..6] == p[0..6];
  }

  /** From nothing: after the address exchange a ping is answered and the greeting displayed. */
  lemma AskThenPing(a: NodeState, b: NodeState, pad: nat)
    requires a.ip != b.ip && 54 + pad <= ETH_MTU
    ensures var q := ArpRequestFrame(a.mac, a.ip, b.ip) + Zeros(pad);
            |Replies(b, q)| == 1
            && var a1, b1 := After(a, Replies(b, q)[0] + Zeros(0)), After(b, q);
               Resolve(a1, b.ip) == Some(b.mac)
               && var e := EchoRequestFrame(a1.mac, a1.ip, b.mac, b.ip) + Zeros(pad);
                  |Replies(b1, e)| == 1
                  && After(a1, Replies(b1, e)[0] + Zeros(pad)).shown == a.shown + [HELLO[..11]]
  {
    ArpRoundTrip(a, b, pad, 0);
    hide EchoRequestFrame, ArpRequestFrame, Replies;
    var q := ArpRequestFrame(a.mac, a.ip, b.ip) + Zeros(pad);
    var a1, b1 := After(a, Replies(b, q)[0] + Zeros(0)), After(b, q);
    assert b1.ip == b.ip;
    Ping.PingRoundTrip(a1, b1, b.mac, pad, pad);
  }

  lemma EchoReplyRead(f: Frame)
    requires |f| >= 42 && NetField16(f, 12) == ETH_TYPE_IP
    ensures NetField16(EchoReplyFrame(f), 12) == ETH_TYPE_IP && !IsRequest(EchoReplyFrame(f))
  {
    var r := EchoReplyFrame(f);
    Ping.ReplyFields(f, 0);
    assert r + Zeros(0) == r;
    assert r[12] == r[12..14][0] == f[12..14][0] && r[13] == r[12..14][1] == f[12..14][1];
  }

  lemma EchoRequestRead(mac: Mac, ip: uint32, targetMac: Mac, target: uint32)
    ensures NetField16(EchoRequestFrame(mac, ip, targetMac, target), 12) == ETH_TYPE_IP
  {
    var r := EchoRequestFrame(mac, ip, targetMac, target);
    Ping.RequestFields(mac, ip, targetMac, target, 0);
    assert r + Zeros(0) == r;
    Ping.Field16(r, 12, ETH_TYPE_IP);
  }

  // ---------------------------------------------------------------- the invariant

  /** Every answer to a truthful frame is truthful. */
  lemma RepliesTruthful(nodes: seq<NodeState>, i: nat, f: Frame)
    requires i < |nodes| && Truthful(nodes, f)
    ensures forall r :: r in Replies(nodes[i], f) ==> Truthful(nodes, r)
  {
    var n := nodes[i];
    if AsksFor(f, n.ip) {
      ArpReplyRead(f, n.mac, n.ip);
    } else if IsPingTo(f, n.ip) {
      EchoReplyRead(f);
    }
  }

  lemma {:induction false} AnswersTruthful(nodes: seq<NodeState>, m: nat, f: Frame, to: set<nat>)
    requires m <= |nodes| && Truthful(nodes, f)
    ensures forall r :: r in Answers(nodes[..m], f, to) ==> Truthful(nodes, r)
  {
    if m > 0 {
      assert Init(nodes[..m]) == nodes[..m - 1];
      AnswersTruthful(nodes, m - 1, f, to);
      RepliesTruthful(nodes, m - 1, f);
    }
  }

  lemma AfterTruthful(nodes: seq<NodeState>, n: NodeState, f: Frame)
    requires Truthful(nodes, f) && CacheTruthful(nodes, n.cache)
    ensures After(n, f).ip == n.ip && After(n, f).mac == n.mac && CacheTruthful(nodes, After(n, f).cache)
  {
  }

  lemma TransferInv(nodes: seq<NodeState>, s: Lan)
    requires SameAddresses(nodes, s.nodes)
    requires forall k :: 0 <= k < |s.wire| ==> Truthful(nodes, s.wire[k])
    requires forall i :: 0 <= i < |s.nodes| ==> CacheTruthful(nodes, s.nodes[i].cache)
    ensures Inv(s)
  {
    forall ip, mac: Mac | Owns(nodes, ip, mac) ensures Owns(s.nodes, ip, mac) {
      OwnsTransfers(nodes, s.nodes, ip, mac);
    }
  }

  lemma DeliverKeepsInv(s: Lan, step: Step)
    requires Inv(s) && step.Deliver? && Enabled(s, step)
    ensures Inv(Next(s, step)) && SameAddresses(s.nodes, Next(s, step).nodes)
  {
    var t, f := Next(s, step), s.wire[step.k] + Zeros(step.pad);
    PaddingKeepsArp(s.wire[step.k], step.pad);
    assert step.pad == 0 ==> f == s.wire[step.k];
    assert Truthful(s.nodes, f);
    AnswersTruthful(s.nodes, |s.nodes|, f, step.to);
    assert s.nodes[..|s.nodes|] == s.nodes;
    forall i | 0 <= i < |s.nodes|
      ensures t.nodes[i].ip == s.nodes[i].ip && t.nodes[i].mac == s.nodes[i].mac
      ensures CacheTruthful(s.nodes, t.nodes[i].cache)
    {
      AfterTruthful(s.nodes, s.nodes[i], f);
    }
    TransferInv(s.nodes, t);
  }

  lemma StepKeepsInv(s: Lan, step: Step)
    requires Inv(s) && Enabled(s, step)
    ensures Inv(Next(s, step)) && SameAddresses(s.nodes, Next(s, step).nodes)
  {
    match step
    case Deliver(_, _, _) => DeliverKeepsInv(s, step);
    case Duplicate(_) =>
    case Ask(i, target) =>
      ArpRequestRead(s.nodes[i].mac, s.nodes[i].ip, target);
    case Echo(i, target) =>
      if Resolve(s.nodes[i], target).Some? {
        EchoRequestRead(s.nodes[i].mac, s.nodes[i].ip, Resolve(s.nodes[i], target).value, target);
      }
    case Forget(_) => TransferInv(s.nodes, Next(s, step));
  }

  /** In every state of every run, each ARP frame in flight and each valid cache entry names the
      owner of its address. */
  lemma {:induction false} RunsAreTruthful(s: Lan, steps: seq<Step>)
    requires (Initial(s) || Inv(s)) && IsRun(s, steps)
    ensures Inv(Run(s, steps)) && SameAddresses(s.nodes, Run(s, steps).nodes)
    decreases steps
  {
    if steps == [] {
    } else {
      StepKeepsInv(s, steps[0]);
      RunsAreTruthful(Next(s, steps[0]), steps[1..]);
    }
  }

  /** With distinct addresses, whatever a node resolves is the true owner's MAC; so every ping
      sent in any run is addressed to its target and answered by it. */
  lemma ResolvedIsOwner(s: Lan, i: nat, j: nat)
    requires Inv(s) && DistinctIps(s.nodes) && i < |s.nodes| && j < |s.nodes|
    ensures Resolve(s.nodes[i], s.nodes[j].ip) in {None, Some(s.nodes[j].mac)}
  {
    var c, ip := s.nodes[i].cache, s.nodes[j].ip;
    if ip != s.nodes[i].ip && Lookup(c, ip).Some? {
      var e := c[IndexOf(c, ip)];
      assert Owns(s.nodes, e.ip, e.mac);
    }
  }

  /** After any run, a ping that resolves is addressed to the true owner of the address, makes it
      send one reply, and that reply makes the pinging node display the greeting. */
  lemma PingAfterAnyRun(s: Lan, steps: seq<Step>, i: nat, j: nat, pad: nat)
    requires Initial(s) && DistinctIps(s.nodes) && IsRun(s, steps)
    requires i < |s.nodes| && j < |s.nodes| && 54 + pad <= ETH_MTU
    ensures var t := Run(s, steps);
            |t.nodes| == |s.nodes|
            && var a, b := t.nodes[i], t.nodes[j];
               Resolve(a, b.ip).Some? ==>
                 var q := EchoRequestFrame(a.mac, a.ip, Resolve(a, b.ip).value, b.ip) + Zeros(pad);
                 && q[..6] == b.mac
                 && |Replies(b, q)| == 1
                 && After(a, Replies(b, q)[0] + Zeros(pad)) == a.(shown := a.shown + [HELLO[..11]])
  {
    var t := Run(s, steps);
    RunsAreTruthful(s, steps);
    assert DistinctIps(t.nodes);
    var a, b := t.nodes[i], t.nodes[j];
    if Resolve(a, b.ip).Some? {
      ResolvedIsOwner(t, i, j);
      Ping.RequestFields(a.mac, a.ip, b.mac, b.ip, pad);
      Ping.PingRoundTrip(a, b, b.mac, pad, pad);
    }
  }

  /** No node is ever handed a frame it could not read safely. */
  lemma DeliveriesReadable(s: Lan, step: Step, i: nat)
    requires Inv(s) && step.Deliver? && Enabled(s, step) && i < |s.nodes|
    ensures Readable(s.wire[step.k] + Zeros(step.pad), s.nodes[i].ip)
  {
  }

  // ---------------------------------------------------------------- no packet storms

  /** An ARP request or an ICMP echo request, whoever it is for. */
  predicate IsRequest(f: Frame) {
    || IsArpRequest(f)
    || (|f| >= 42 && NetField16(f, 12) == ETH_TYPE_IP && f[23] == IP_PROTO_ICMP
        && f[34] == ICMP_ECHO_REQUEST && f[35] == 0)
  }

  function Target(f: Frame): uint32
    requires |f| >= 42
  {
    if IsArp(f) then NetField32(f, 38) else NetField32(f, 30)
  }

  function Weight(f: Frame): nat {
    if IsRequest(f) then 2 else 1
  }

  function WireWeight(wire: seq<Frame>): nat {
    if wire == [] then 0 else WireWeight(Init(wire)) + Weight(Last(wire))
  }

  lemma {:induction false} WireWeightAppend(a: seq<Frame>, b: seq<Frame>)
    ensures WireWeight(a + b) == WireWeight(a) + WireWeight(b)
  {
    if b == [] {
      assert a + b == a;
    } else {
      assert Init(a + b) == a + Init(b);
      WireWeightAppend(a, Init(b));
    }
  }

  /** Only the node a request is for answers it, once, and never with a request. */
  lemma OnlyTargetReplies(n: NodeState, f: Frame)
    requires |f| >= 42
    ensures |Replies(n, f)| <= 1
    ensures Replies(n, f) != [] ==> IsRequest(f) && n.ip == Target(f) && !IsRequest(Replies(n, f)[0])
  {
    if AsksFor(f, n.ip) {
      ArpReplyRead(f, n.mac, n.ip);
    } else if IsPingTo(f, n.ip) {
      EchoReplyRead(f);
    }
  }

  lemma {:induction false} AtMostOneAnswer(nodes: seq<NodeState>, m: nat, f: Frame, to: set<nat>)
    requires DistinctIps(nodes) && m <= |nodes| && |f| >= 42
    ensures var r := Answers(nodes[..m], f, to);
            |r| <= 1 && (r != [] ==> IsRequest(f) && !IsRequest(r[0])
                                     && exists i :: 0 <= i < m && nodes[i].ip == Target(f))
  {
    if m > 0 {
      assert Init(nodes[..m]) == nodes[..m - 1];
      AtMostOneAnswer(nodes, m - 1, f, to);
      OnlyTargetReplies(nodes[m - 1], f);
    }
  }

  /** Consuming a frame, whoever receives it, strictly decreases 2 * requests + others. */
  lemma DeliverDecreases(s: Lan, step: Step)
    requires Inv(s) && DistinctIps(s.nodes) && step.Deliver? && Enabled(s, step)
    ensures WireWeight(Next(s, step).wire) < WireWeight(s.wire)
  {
    var k, f := step.k, s.wire[step.k] + Zeros(step.pad);
    assert Truthful(s.nodes, s.wire[k]);
    hide IsRequest, Truthful, CacheTruthful, After, Replies;
    PaddingKeepsArp(s.wire[k], step.pad);
    AtMostOneAnswer(s.nodes, |s.nodes|, f, step.to);
    assert s.nodes[..|s.nodes|] == s.nodes;
    var r := Answers(s.nodes, f, step.to);
    assert WireWeight(r) < Weight(s.wire[k]) by {
      if r != [] {
        assert Init(r) == [];
      }
    }
    hide Answers, WireWeight, Weight;
    WireWeightAppend(s.wire[..k] + s.wire[k + 1..], r);
    WeightWithout(s.wire, k);
  }

  lemma WeightLast(a: seq<Frame>, f: Frame)
    ensures WireWeight(a + [f]) == WireWeight(a) + Weight(f)
  {
    assert Init(a + [f]) == a;
  }

  lemma WeightWithout(wire: seq<Frame>, k: nat)
    requires k < |wire|
    ensures WireWeight(wire) == WireWeight(wire[..k] + wire[k + 1..]) + Weight(wire[k])
  {
    hide Weight, WireWeight;
    var a, f, b := wire[..k], wire[k], wire[k + 1..];
    assert wire == (a + [f]) + b;
    WireWeightAppend(a + [f], b);
    WeightLast(a, f);
    WireWeightAppend(a, b);
  }

  /** How many frames the steps consume, and how many they put on the wire from outside. */
  function Deliveries(steps: seq<Step>): nat {
    if steps == [] then 0 else (if steps[0].Deliver? then 1 else 0) + Deliveries(steps[1..])
  }

  function Injections(steps: seq<Step>): nat {
    if steps == [] then 0
    else (if steps[0].Ask? || steps[0].Echo? || steps[0].Duplicate? then 1 else 0) + Injections(steps[1..])
  }

  lemma StepWeight(s: Lan, step: Step)
    requires Inv(s) && DistinctIps(s.nodes) && Enabled(s, step)
    ensures WireWeight(Next(s, step).wire) + Deliveries([step]) <= WireWeight(s.wire) + 2 * Injections([step])
  {
    assert [step][1..] == [];
    if step.Deliver? {
      DeliverDecreases(s, step);
    } else if Next(s, step).wire != s.wire {
      assert Init(Next(s, step).wire) == s.wire;
    }
  }

  /** No packet storms: over any run the number of deliveries is at most the weight of what was on
      the wire plus two for every frame the nodes or the network injected.  A run without
      injections therefore quiesces. */
  lemma {:induction false} NoPacketStorm(s: Lan, steps: seq<Step>)
    requires Inv(s) && DistinctIps(s.nodes) && IsRun(s, steps)
    ensures Deliveries(steps) + WireWeight(Run(s, steps).wire) <= WireWeight(s.wire) + 2 * Injections(steps)
    decreases steps
  {
    if steps != [] {
      var t := Next(s, steps[0]);
      StepKeepsInv(s, steps[0]);
      StepWeight(s, steps[0]);
      assert [steps[0]][1..] == [];
      NoPacketStorm(t, steps[1..]);
    }
  }
}
