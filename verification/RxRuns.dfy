/** Runs of the receive ring with its memory (rtl8139.c:523-563): what the driver reads is what lies
    at the read position, whether or not a frame is pending there. */
module RxRuns {
  import opened Bytes
  import opened Frames
  import opened RxRing

  /** The ring memory, the positions with their bookkeeping, and the node that gets the frames. */
  datatype Machine = Machine(mem: seq<uint8>, ring: Ring, node: NodeState, sent: seq<Frame>)

  predicate Shape(m: Machine) {
    Geometry(m.ring) && |m.mem| == RX_BUFFER_SIZE
  }

  /** The ring is in order and its pending frames are intact. */
  ghost predicate InOrder(m: Machine) {
    RingOk(m.mem, m.ring, m.node.ip)
  }

  // ---------------------------------------------------------------- one poll

  /** The driver's decision, from its registers and the status bit (rtl8139.c:531-547). */
  predicate DriverReads(m: Machine)
    requires Shape(m)
  {
    BytesAvail(Capr(m.ring.rp), m.ring.wp) > 0 && m.mem[m.ring.rp] % 2 == 1
  }

  /** The size field at `p` describes data inside the buffer. */
  predicate FrameInside(mem: seq<uint8>, p: nat) {
    p + 4 <= |mem| && 4 <= Load16(mem, p + 2) && p + Load16(mem, p + 2) <= |mem|
  }

  /** What the driver takes for a frame at `p`, without the CRC. */
  function FrameAt(mem: seq<uint8>, p: nat): (f: Frame)
    requires FrameInside(mem, p)
    ensures |f| + 4 == Load16(mem, p + 2)
  {
    mem[p + 4..p + Load16(mem, p + 2)]
  }

  /** The poll stays inside the buffer and hands over a frame the code can be handed. */
  predicate PollSafe(m: Machine) {
    Shape(m) && (DriverReads(m) ==> FrameInside(m.mem, m.ring.rp) && Readable(FrameAt(m.mem, m.ring.rp), m.node.ip))
  }

  /** The position the driver computes after a frame of `size` bytes at `p`, in 16 bits. */
  function NextOffset(p: nat, size: uint16): uint16 {
    var next := (p + size + 4 + 3) / 4 * 4 % 0x1_0000;
    if next >= RX_BUFFER_SIZE then next - RX_BUFFER_SIZE + 16 else next
  }

  /** What the device makes of writing `v` - 16 to CAPR. */
  function CaprWritten(r: nat, v: uint16): (p: nat)
    requires r > 0
    ensures p < r
  {
    Mod(((v - 16) % 0x1_0000 + 16) % 0x1_0000, r)
  }

  function HandedOver(g: Ring, f: Frame): Ring
    requires Geometry(g) && |f| + 4 < 0x1_0000
  {
    g.(rp := CaprWritten(g.r, NextOffset(g.rp, |f| + 4)), delivered := g.delivered + [f],
       pending := if g.pending == [] then [] else g.pending[1..])
  }

  /** check_rx_buffer. */
  function Polled(m: Machine): Machine
    requires PollSafe(m)
  {
    if !DriverReads(m) then m
    else
      var f := FrameAt(m.mem, m.ring.rp);
      Machine(Splice(m.mem, m.ring.rp + 4, LeftInBuffer(m.node, f)), HandedOver(m.ring, f),
              After(m.node, f), m.sent + Replies(m.node, f))
  }

  // ---------------------------------------------------------------- one arrival

  /** How the device lays a frame out in memory. */
  function Image(f: Frame, status: uint16, crc: seq<uint8>): seq<uint8>
    requires |f| + 4 < 0x1_0000
  {
    Le16(status) + Le16(|f| + 4) + f + crc
  }

  /** What the network may offer to the device. */
  predicate Proper(g: Ring, ip: uint32, e: Event) {
    e.Arrive? ==> 14 <= |e.f| <= g.maxFrame && Readable(e.f, ip) && e.status % 2 == 1 && |e.crc| == 4
  }

  function Arrived(m: Machine, e: Event): Machine
    requires Shape(m) && e.Arrive? && Proper(m.ring, m.node.ip, e)
  {
    if DeviceTakes(m.ring.r, m.ring.rp, m.ring.wp, e.f) then
      m.(mem := Splice(m.mem, m.ring.wp, Image(e.f, e.status, e.crc)), ring := Taken(m.ring, e.f))
    else m
  }

  // ---------------------------------------------------------------- runs

  predicate Enabled(m: Machine, e: Event) {
    Shape(m) && Proper(m.ring, m.node.ip, e) && (e.PollOnce? ==> PollSafe(m))
  }

  function Step(m: Machine, e: Event): Machine
    requires Enabled(m, e)
  {
    if e.PollOnce? then Polled(m) else Arrived(m, e)
  }

  predicate IsRun(m: Machine, events: seq<Event>)
    decreases events
  {
    events == [] || (Enabled(m, events[0]) && IsRun(Step(m, events[0]), events[1..]))
  }

  function Run(m: Machine, events: seq<Event>): Machine
    requires IsRun(m, events)
    decreases events
  {
    if events == [] then m else Run(Step(m, events[0]), events[1..])
  }

  /** A poll now would find no frame pending and yet read one. */
  predicate Stale(m: Machine)
    requires Shape(m)
  {
    m.ring.pending == [] && DriverReads(m)
  }

  /** No poll of the run is misled. */
  predicate NeverStale(m: Machine, events: seq<Event>)
    requires IsRun(m, events)
    decreases events
  {
    events == [] || (!(events[0].PollOnce? && Stale(m)) && NeverStale(Step(m, events[0]), events[1..]))
  }

  /** At every point of the run, what was handed over is a prefix of what was received. */
  predicate AlwaysFifo(m: Machine, events: seq<Event>)
    requires IsRun(m, events)
    decreases events
  {
    m.ring.delivered <= m.ring.received && (events == [] || AlwaysFifo(Step(m, events[0]), events[1..]))
  }

  // ---------------------------------------------------------------- what one step does to an orderly ring

  /** In terms of the ring: the driver reads exactly when it is not 16 bytes behind and either a
      frame is pending or the status bit left at the read position is set. */
  lemma DecisionExact(m: Machine)
    requires InOrder(m)
    ensures DriverReads(m) <==> m.ring.wp + 16 != m.ring.rp && (m.ring.pending != [] || m.mem[m.ring.rp] % 2 == 1)
  {
    hide BytesAvail, Capr, Readable, Used, End;
    DriverSeesNothing(m.ring.r, m.ring.rp, m.ring.wp);
    if m.ring.pending != [] {
      OldestFacts(m.mem, m.ring, m.node.ip);
    }
  }

  lemma SpliceUnchanged(s: seq<uint8>, k: nat, t: seq<uint8>, hi: nat)
    requires k + |t| <= |s| && k + |t| <= hi
    ensures Unchanged(s, Splice(s, k, t), k, hi)
  {
  }

  /** A poll that finds a frame pending hands over that frame and nothing else. */
  lemma PollPending(m: Machine)
    requires InOrder(m) && m.ring.pending != [] && DriverReads(m)
    ensures PollSafe(m) && FrameAt(m.mem, m.ring.rp) == m.ring.pending[0]
    ensures var n := Polled(m);
            && InOrder(n) && n.ring == Given(m.ring)
            && (Blank(m.mem, m.ring) ==> Blank(n.mem, n.ring))
  {
    hide BytesAvail, Capr, Used, End, Align4, Mod, Advance, Intact, After, Replies, LeftInBuffer, Readable, Splice;
    var g, f := m.ring, m.ring.pending[0];
    OldestFacts(m.mem, g, m.node.ip);
    NextReadPosition(g.r, g.rp, |f|);
    SpliceUnchanged(m.mem, g.rp + 4, LeftInBuffer(m.node, f), g.rp + 4 + |f|);
    GivenOk(m.mem, Polled(m).mem, g, m.node.ip);
    AfterKeepsIp(m.node, f);
  }

  lemma AfterKeepsIp(n: NodeState, f: Frame)
    ensures After(n, f).ip == n.ip
  {
  }

  lemma ImagePresent(mem: seq<uint8>, p: nat, f: Frame, status: uint16, crc: seq<uint8>)
    requires p + 8 + |f| <= |mem| && |f| + 4 < 0x1_0000 && |crc| == 4 && status % 2 == 1
    ensures Present(Splice(mem, p, Image(f, status, crc)), p, f)
    ensures Unchanged(mem, Splice(mem, p, Image(f, status, crc)), p, p + Slot(f))
  {
    var image := Image(f, status, crc);
    var after := Splice(mem, p, image);
    assert after[p..p + |image|] == image;
    assert after[p] == image[0] && after[p + 2] == image[2] && after[p + 3] == image[3];
    assert after[p + 4..p + 4 + |f|] == image[4..4 + |f|] == f;
  }

  /** The device takes a frame exactly when it does not fill the ring, and stores it behind the
      pending ones. */
  lemma ArrivalStored(m: Machine, e: Event)
    requires InOrder(m) && e.Arrive? && Proper(m.ring, m.node.ip, e)
    ensures var n := Arrived(m, e);
            && InOrder(n) && n.ring == ArriveStep(m.ring, e.f)
            && (Blank(m.mem, m.ring) ==> Blank(n.mem, n.ring))
  {
    hide Used, End, Align4, Mod, Advance, Intact, Readable, Splice, Image, Present;
    TakesWhileRoom(m.ring.r, m.ring.rp, m.ring.pending, e.f);
    if DeviceTakes(m.ring.r, m.ring.rp, m.ring.wp, e.f) {
      ImagePresent(m.mem, m.ring.wp, e.f, e.status, e.crc);
      TakenOk(m.mem, Arrived(m, e).mem, m.ring, m.node.ip, e.f);
    }
  }

  /** A poll of the empty ring does nothing exactly when the status left at the read position is
      clear; otherwise something is handed over that was not received. */
  lemma EmptyPollExact(m: Machine)
    requires InOrder(m) && m.ring.pending == []
    ensures PollSafe(m) && Polled(m) == m <==> m.mem[m.ring.rp] % 2 == 0
    ensures Stale(m) <==> m.mem[m.ring.rp] % 2 == 1
    ensures PollSafe(m) && Stale(m) ==>
              Polled(m).ring.delivered == m.ring.received + [FrameAt(m.mem, m.ring.rp)]
  {
    DecisionExact(m);
    hide BytesAvail, Capr, Readable;
    if PollSafe(m) && DriverReads(m) {
      assert |Polled(m).ring.delivered| == |m.ring.delivered| + 1;
    }
  }

  /** What every poll that reads does, misled or not, from the memory and the size field alone: the
      bytes after the header go to the node, at most their span changes, and the read position moves
      past them and the CRC to a multiple of 4, wrapped first by the driver and then by the device. */
  lemma ReadingPoll(m: Machine)
    requires PollSafe(m) && DriverReads(m)
    ensures var n, p := Polled(m), m.ring.rp;
            var size := Load16(m.mem, p + 2);
            var next := (p + size + 7) / 4 * 4;
            && n.ring.delivered == m.ring.delivered + [m.mem[p + 4..p + size]]
            && n.ring.received == m.ring.received && n.ring.wp == m.ring.wp
            && n.node == After(m.node, m.mem[p + 4..p + size])
            && n.sent == m.sent + Replies(m.node, m.mem[p + 4..p + size])
            && |n.mem| == |m.mem| && n.mem[..p + 4] == m.mem[..p + 4] && n.mem[p + size..] == m.mem[p + size..]
            && n.mem[p + 4..p + size] == LeftInBuffer(m.node, m.mem[p + 4..p + size])
            && n.ring.rp == (if next < 32768 then next else next - 32768 + 16) % m.ring.r
  {
    hide DriverReads, PollSafe, Polled, Readable, After, Replies, LeftInBuffer, Mod, Splice, NextOffset, CaprWritten;
    PolledParts(m);
    var p := m.ring.rp;
    var size := Load16(m.mem, p + 2);
    SpliceParts(m.mem, p + 4, LeftInBuffer(m.node, m.mem[p + 4..p + size]));
    OffsetIs(p, size);
    WrittenIs(m.ring.r, NextOffset(p, size));
  }

  lemma PolledParts(m: Machine)
    requires PollSafe(m) && DriverReads(m)
    ensures var p, n := m.ring.rp, Polled(m);
            var size := Load16(m.mem, p + 2);
            && Shape(m) && 4 <= size && p + size <= RX_BUFFER_SIZE
            && var f := m.mem[p + 4..p + size];
               && n.mem == Splice(m.mem, p + 4, LeftInBuffer(m.node, f))
               && n.node == After(m.node, f) && n.sent == m.sent + Replies(m.node, f)
               && n.ring.delivered == m.ring.delivered + [f]
               && n.ring.received == m.ring.received && n.ring.wp == m.ring.wp
               && n.ring.rp == CaprWritten(m.ring.r, NextOffset(p, size))
  {
    hide BytesAvail, Capr, Readable, After, Replies, LeftInBuffer, Mod, Splice, NextOffset, CaprWritten;
  }

  lemma WrittenIs(r: nat, v: uint16)
    requires r > 0
    ensures CaprWritten(r, v) == v % r
  {
    hide Mod;
    CaprRoundTrip(v);
    ModIsRemainder(v, r);
  }

  lemma OffsetIs(p: nat, size: uint16)
    requires p + size <= RX_BUFFER_SIZE
    ensures var next := (p + size + 7) / 4 * 4;
            NextOffset(p, size) == if next < 32768 then next else next - 32768 + 16
  {
  }

  lemma SpliceParts(s: seq<uint8>, k: nat, t: seq<uint8>)
    requires k + |t| <= |s|
    ensures var r := Splice(s, k, t); r[..k] == s[..k] && r[k..k + |t|] == t && r[k + |t|..] == s[k + |t|..]
  {
  }

  /** Any step that is not a misled poll keeps the ring in order and is what the ring's bookkeeping
      says. */
  lemma CleanStep(m: Machine, e: Event)
    requires InOrder(m) && Proper(m.ring, m.node.ip, e) && !(e.PollOnce? && Stale(m))
    ensures Enabled(m, e)
    ensures var n := Step(m, e);
            && InOrder(n) && n.ring == EventStep(m.ring, e) && n.node.ip == m.node.ip
            && (Blank(m.mem, m.ring) ==> Blank(n.mem, n.ring))
  {
    hide BytesAvail, Capr, Used, End, Align4, Mod, Advance, Intact, Splice, Image;
    hide After, Replies, LeftInBuffer, Readable;
    DecisionExact(m);
    if e.Arrive? {
      ArrivalStored(m, e);
    } else if DriverReads(m) {
      PollPending(m);
      AfterKeepsIp(m.node, m.ring.pending[0]);
    }
  }

  // ---------------------------------------------------------------- whole runs

  /** What the network offers during the run. */
  predicate AllProper(g: Ring, ip: uint32, events: seq<Event>) {
    forall k :: 0 <= k < |events| ==> Proper(g, ip, events[k])
  }

  lemma ProperRest(g: Ring, h: Ring, ip: uint32, events: seq<Event>)
    requires AllProper(g, ip, events) && events != [] && h.maxFrame == g.maxFrame
    ensures AllProper(h, ip, events[1..]) && Proper(g, ip, events[0])
  {
    var rest := events[1..];
    forall k | 0 <= k < |rest| ensures Proper(h, ip, rest[k]) {
      assert rest[k] == events[k + 1] && Proper(g, ip, events[k + 1]);
    }
  }

  lemma ProperOffered(g: Ring, ip: uint32, events: seq<Event>)
    requires AllProper(g, ip, events)
    ensures Offered(g, events)
  {
    assert forall k :: 0 <= k < |events| ==> Proper(g, ip, events[k]);
  }

  /** The first of several events, none of them a misled poll so far. */
  lemma RunStep(m: Machine, events: seq<Event>)
    requires InOrder(m) && AllProper(m.ring, m.node.ip, events) && events != []
    requires !(events[0].PollOnce? && Stale(m))
    ensures Enabled(m, events[0])
    ensures var n := Step(m, events[0]);
            && InOrder(n) && n.ring == EventStep(m.ring, events[0]) && n.node.ip == m.node.ip
            && (Blank(m.mem, m.ring) ==> Blank(n.mem, n.ring))
            && AllProper(n.ring, n.node.ip, events[1..])
            && Offered(m.ring, events) && Offered(n.ring, events[1..])
            && RunEvents(m.ring, events) == RunEvents(n.ring, events[1..])
  {
    var e := events[0];
    assert Proper(m.ring, m.node.ip, e);
    CleanStep(m, e);
    ProperOffered(m.ring, m.node.ip, events);
    EventTakesAndGives(m.ring, e);
    ProperRest(m.ring, EventStep(m.ring, e), m.node.ip, events);
    ProperOffered(EventStep(m.ring, e), m.node.ip, events[1..]);
    hide Step, EventStep, Took, InOrder, Stale, Proper;
  }

  lemma {:induction false} RunProper(m: Machine, events: seq<Event>)
    requires InOrder(m) && IsRun(m, events) && NeverStale(m, events)
    ensures AllProper(m.ring, m.node.ip, events)
    decreases events
  {
    if events != [] {
      var e, rest := events[0], events[1..];
      CleanStep(m, e);
      hide InOrder, Stale, Polled, Arrived, Proper;
      EventTakesAndGives(m.ring, e);
      RunProper(Step(m, e), rest);
      forall k | 0 <= k < |events| ensures Proper(m.ring, m.node.ip, events[k]) {
        if k > 0 {
          SameProper(m.ring, Step(m, e).ring, m.node.ip, rest[k - 1]);
        }
      }
    }
  }

  lemma SameProper(g: Ring, h: Ring, ip: uint32, e: Event)
    requires g.maxFrame == h.maxFrame
    ensures Proper(g, ip, e) <==> Proper(h, ip, e)
  {
  }

  /** First in, first out, once each.  Over every run of the ring with its memory, any number of
      wraps and any in-place edits included, the frames handed over are at every point a prefix of
      the frames received exactly when no poll is misled. */
  lemma {:induction false} FirstInFirstOut(m: Machine, events: seq<Event>)
    requires InOrder(m) && IsRun(m, events)
    ensures AlwaysFifo(m, events) <==> NeverStale(m, events)
    decreases events
  {
    if events != [] {
      var e := events[0];
      assert m.ring.delivered <= m.ring.received;
      if e.PollOnce? && Stale(m) {
        EmptyPollExact(m);
        hide Polled, Stale;
        var n := Step(m, e);
        assert |n.ring.delivered| > |m.ring.received| && n.ring.received == m.ring.received;
        assert !AlwaysFifo(n, events[1..]);
      } else {
        CleanStep(m, e);
        hide InOrder, Stale, Polled, Arrived;
        FirstInFirstOut(Step(m, e), events[1..]);
      }
    }
  }

  /** And then the ring stays in order: what was not handed over is pending and intact, and what was
      received are exactly the frames there was room for. */
  lemma CleanRun(m: Machine, events: seq<Event>)
    requires InOrder(m) && IsRun(m, events) && NeverStale(m, events)
    ensures Offered(m.ring, events)
    ensures var n := Run(m, events);
            && InOrder(n) && n.ring == RunEvents(m.ring, events)
            && n.ring.delivered <= n.ring.received && n.ring.received[|n.ring.delivered|..] == n.ring.pending
            && n.ring.received == m.ring.received + Accepted(m.ring, events)
  {
    hide Step, IsRun, NeverStale, RunEvents, Accepted;
    RunProper(m, events);
    ProperOffered(m.ring, m.node.ip, events);
    RunRefines(m, events);
    RunTakes(m.ring, events);
  }

  /** A run without misled polls does to the ring what its bookkeeping says. */
  lemma {:induction false} RunRefines(m: Machine, events: seq<Event>)
    requires InOrder(m) && IsRun(m, events) && NeverStale(m, events)
    requires AllProper(m.ring, m.node.ip, events) && Offered(m.ring, events)
    ensures InOrder(Run(m, events)) && Run(m, events).ring == RunEvents(m.ring, events)
    decreases events
  {
    hide InOrder, Stale, Polled, Arrived, EventStep, Took, AllProper, Offered;
    if events != [] {
      RunStep(m, events);
      RunRefines(Step(m, events[0]), events[1..]);
    }
  }

  // ---------------------------------------------------------------- when polls are not misled

  /** Not when every poll finds a frame pending. */
  lemma {:induction false} CleanWhenPollsFind(m: Machine, events: seq<Event>)
    requires InOrder(m) && AllProper(m.ring, m.node.ip, events) && Offered(m.ring, events)
    requires PollsFind(m.ring, events)
    ensures IsRun(m, events) && NeverStale(m, events)
    decreases events
  {
    if events != [] {
      RunStep(m, events);
      hide InOrder, Polled, Arrived, EventStep;
      CleanWhenPollsFind(Step(m, events[0]), events[1..]);
    }
  }

  /** Nor, on zeroed memory, before the write position first comes round, whether or not the polls
      find anything. */
  lemma {:induction false} CleanBeforeWrap(m: Machine, events: seq<Event>)
    requires InOrder(m) && Blank(m.mem, m.ring) && AllProper(m.ring, m.node.ip, events) && Offered(m.ring, events)
    requires !RunEvents(m.ring, events).wrapped
    ensures IsRun(m, events) && NeverStale(m, events)
    decreases events
  {
    if events != [] {
      RunTakes(m.ring, events);
      if m.ring.pending == [] {
        EmptyPollBeforeWrap(m);
      }
      RunStep(m, events);
      hide InOrder, Blank, Polled, Arrived, EventStep;
      CleanBeforeWrap(Step(m, events[0]), events[1..]);
    }
  }

  lemma EmptyPollBeforeWrap(m: Machine)
    requires InOrder(m) && m.ring.pending == [] && Blank(m.mem, m.ring) && !m.ring.wrapped
    ensures PollSafe(m) && Polled(m) == m
  {
    EmptyPollExact(m);
  }

  // ---------------------------------------------------------------- what the node makes of it

  /** The node is in the state, and has sent the answers, that the frames handed over call for. */
  ghost predicate Fed(m: Machine, start: NodeState) {
    m.node == HandleAll(start, m.ring.delivered) && m.sent == AnswerAll(start, m.ring.delivered)
  }

  /** In every run, misled or not. */
  lemma {:induction false} NodeIsFed(m: Machine, events: seq<Event>, start: NodeState)
    requires IsRun(m, events) && Fed(m, start)
    ensures Fed(Run(m, events), start)
    decreases events
  {
    if events != [] {
      FedStep(m, events[0], start);
      hide Fed, Polled, Arrived;
      NodeIsFed(Step(m, events[0]), events[1..], start);
    }
  }

  lemma FedStep(m: Machine, e: Event, start: NodeState)
    requires Enabled(m, e) && Fed(m, start)
    ensures Fed(Step(m, e), start)
  {
    hide HandleAll, AnswerAll, BytesAvail, Capr, Readable, After, Replies, LeftInBuffer, Mod, Advance;
    if e.PollOnce? && DriverReads(m) {
      HandleOneMore(start, m.ring.delivered, FrameAt(m.mem, m.ring.rp));
    }
  }

  // ---------------------------------------------------------------- draining and stalling

  function Polls(n: nat): seq<Event> {
    if n == 0 then [] else [PollOnce] + Polls(n - 1)
  }

  /** From a state that is not stalled, as many polls as there are pending frames deliver all. */
  lemma {:induction false} PollsDrain(m: Machine)
    requires InOrder(m) && !Stalled(m.ring)
    ensures var polls := Polls(|m.ring.pending|);
            && IsRun(m, polls) && NeverStale(m, polls)
            && Run(m, polls).ring.delivered == m.ring.received && Run(m, polls).ring.pending == []
    decreases |m.ring.pending|
  {
    hide InOrder, Enabled, Step, Stale, Stalled;
    var k := |m.ring.pending|;
    if k > 0 {
      assert Polls(k)[0] == PollOnce && Polls(k)[1..] == Polls(k - 1);
      DrainStep(m);
      PollsDrain(Step(m, PollOnce));
    } else {
      InOrderFacts(m);
    }
  }

  lemma DrainStep(m: Machine)
    requires InOrder(m) && m.ring.pending != [] && !Stalled(m.ring)
    ensures Enabled(m, PollOnce) && !Stale(m)
    ensures var n := Step(m, PollOnce);
            && InOrder(n) && !Stalled(n.ring) && |n.ring.pending| == |m.ring.pending| - 1
            && n.ring.received == m.ring.received
  {
    CleanStep(m, PollOnce);
    NeverStallsAfterDelivery(m.ring);
  }

  lemma InOrderFacts(m: Machine)
    requires InOrder(m)
    ensures Shape(m) && m.ring.received == m.ring.delivered + m.ring.pending
  {
  }

  /** A stalled driver stays stalled: whatever is offered and however often it polls, nothing at all
      changes any more. */
  lemma {:induction false} StallIsPermanent(m: Machine, events: seq<Event>)
    requires InOrder(m) && Stalled(m.ring) && AllProper(m.ring, m.node.ip, events)
    ensures IsRun(m, events) && NeverStale(m, events) && Run(m, events) == m
    decreases events
  {
    if events != [] {
      ProperRest(m.ring, m.ring, m.node.ip, events);
      StalledStep(m, events[0]);
      hide InOrder, Stalled, Polled, Arrived;
      StallIsPermanent(m, events[1..]);
    }
  }

  lemma StalledStep(m: Machine, e: Event)
    requires InOrder(m) && Stalled(m.ring) && Proper(m.ring, m.node.ip, e)
    ensures Enabled(m, e) && !(e.PollOnce? && Stale(m)) && Step(m, e) == m
  {
    hide Readable, BytesAvail, Capr, Align4, Mod;
    DecisionExact(m);
    EndPosition(m.ring.r, m.ring.rp, m.ring.pending);
    if e.Arrive? {
      SlotAtLeast24(e.f);
      TakesWhileRoom(m.ring.r, m.ring.rp, m.ring.pending, e.f);
    }
  }

  /** Right after initialisation, whatever the allocated memory holds. */
  function Initial(mem: seq<uint8>, r: nat, maxFrame: nat, node: NodeState): Machine {
    Machine(mem, Fresh(r, maxFrame), node, [])
  }

  /** Frames of zeros are for nobody. */
  lemma ZerosProper(g: Ring, ip: uint32, n: nat)
    requires 14 <= n <= g.maxFrame && n < 0x1_0000
    ensures Proper(g, ip, Offer(Zeros(n)))
  {
  }

  lemma {:induction false} BurstProper(g: Ring, ip: uint32, k: nat, big: nat, small: nat)
    requires 14 <= small <= g.maxFrame && 14 <= big <= g.maxFrame && g.maxFrame < 0x1_0000
    ensures AllProper(g, ip, Burst(k, big, small))
  {
    hide Proper, Offer;
    ZerosProper(g, ip, big);
    ZerosProper(g, ip, small);
    if k > 0 {
      BurstProper(g, ip, k - 1, big, small);
    }
  }

  /** The stall is reachable on the 8K ring with frames for nobody. */
  lemma StallReachable(mem: seq<uint8>, node: NodeState, big: nat, small: nat)
    requires |mem| == RX_BUFFER_SIZE && big == 1500 && small == 628
    ensures var m, events := Initial(mem, 8192, 1514, node), StallEvents(big, small);
            && InOrder(m) && AllProper(m.ring, node.ip, events)
            && IsRun(m, events) && NeverStale(m, events) && Stalled(Run(m, events).ring)
  {
    var m, events := Initial(mem, 8192, 1514, node), StallEvents(big, small);
    StallEventsStall(big, small);
    ZerosProper(m.ring, node.ip, big);
    BurstProper(m.ring, node.ip, 5, big, small);
    hide Proper, Burst, Offer, Readable, IsRun, NeverStale, Run, RunEvents, PollsFind, Stalled;
    CleanWhenPollsFind(m, events);
    CleanRun(m, events);
  }

  // ---------------------------------------------------------------- a lap of the ring

  /** Each frame is taken and polled at once. */
  function Exchanges(fs: seq<Frame>): seq<Event> {
    if fs == [] then [] else [Offer(fs[0]), PollOnce] + Exchanges(fs[1..])
  }

  predicate AllOffers(g: Ring, ip: uint32, fs: seq<Frame>) {
    forall k :: 0 <= k < |fs| ==> Proper(g, ip, Offer(fs[k]))
  }

  /** `n` is the empty ring after the frame `f` was taken and polled on the empty ring `m`. */
  ghost predicate Exchanged(m: Machine, n: Machine, f: Frame) {
    && InOrder(n) && n.ring.pending == [] && n.ring.r == m.ring.r && n.ring.maxFrame == m.ring.maxFrame
    && n.ring.rp == Advance(m.ring.r, m.ring.rp, Slot(f)) && n.node.ip == m.node.ip
    && n.ring.delivered == m.ring.delivered + [f] && n.ring.received == m.ring.received + [f]
    && Unchanged(m.mem, n.mem, m.ring.rp, m.ring.rp + Slot(f))
    && Present(n.mem, m.ring.rp, LeftInBuffer(m.node, f))
  }

  lemma ExchangeStep(m: Machine, f: Frame)
    requires InOrder(m) && m.ring.pending == [] && Proper(m.ring, m.node.ip, Offer(f))
    requires Advance(m.ring.r, m.ring.rp, Slot(f)) + 16 != m.ring.rp
    ensures Enabled(m, Offer(f))
    ensures var a := Step(m, Offer(f)); Enabled(a, PollOnce) && !Stale(a) && Exchanged(m, Step(a, PollOnce), f)
  {
    hide InOrder, Proper, Enabled, Step, Stale, Advance, Present, Slot, LeftInBuffer, Unchanged, Geometry;
    TakenAlone(m, f);
    var a := Step(m, Offer(f));
    GivenAlone(a, f);
    TwiceUnchanged(m.mem, a.mem, Step(a, PollOnce).mem, m.ring.rp, m.ring.rp + Slot(f));
  }

  /** A frame taken by the empty ring. */
  lemma TakenAlone(m: Machine, f: Frame)
    requires InOrder(m) && m.ring.pending == [] && Proper(m.ring, m.node.ip, Offer(f))
    ensures Enabled(m, Offer(f))
    ensures var a := Step(m, Offer(f));
            && InOrder(a) && a.ring == Taken(m.ring, f) && a.ring.pending == [f] && a.node == m.node
            && a.ring.wp == Advance(m.ring.r, m.ring.rp, Slot(f))
            && Unchanged(m.mem, a.mem, m.ring.rp, m.ring.rp + Slot(f)) && Present(a.mem, m.ring.rp, f)
  {
    hide Align4, Mod, Advance, Intact, Readable, Splice, Image, Present;
    CleanStep(m, Offer(f));
    TakesWhileRoom(m.ring.r, m.ring.rp, [], f);
    ImagePresent(m.mem, m.ring.wp, f, 1, Zeros(4));
  }

  /** The only pending frame handed over. */
  lemma GivenAlone(a: Machine, f: Frame)
    requires InOrder(a) && a.ring.pending == [f] && a.ring.wp + 16 != a.ring.rp && Present(a.mem, a.ring.rp, f)
    ensures Enabled(a, PollOnce) && !Stale(a)
    ensures var n := Step(a, PollOnce);
            && InOrder(n) && n.ring == Given(a.ring) && n.node.ip == a.node.ip
            && Unchanged(a.mem, n.mem, a.ring.rp, a.ring.rp + Slot(f))
            && Present(n.mem, a.ring.rp, LeftInBuffer(a.node, f))
  {
    hide BytesAvail, Capr, Align4, Mod, Advance, Intact, Splice, Present, Used, End;
    hide After, Replies, LeftInBuffer, Readable;
    DecisionExact(a);
    PollPending(a);
    LeftPresent(a.mem, a.ring.rp, f, LeftInBuffer(a.node, f));
    AfterKeepsIp(a.node, f);
  }

  lemma LeftPresent(mem: seq<uint8>, p: nat, f: Frame, left: Frame)
    requires Present(mem, p, f) && |left| == |f|
    ensures Present(Splice(mem, p + 4, left), p, left)
    ensures Unchanged(mem, Splice(mem, p + 4, left), p, p + Slot(f))
  {
  }

  lemma TwiceUnchanged(a: seq<uint8>, b: seq<uint8>, c: seq<uint8>, lo: nat, hi: nat)
    requires Unchanged(a, b, lo, hi) && Unchanged(b, c, lo, hi)
    ensures Unchanged(a, c, lo, hi)
  {
  }

  lemma RunTwo(m: Machine, d: Event, e: Event, rest: seq<Event>)
    requires Enabled(m, d) && Enabled(Step(m, d), e) && IsRun(Step(Step(m, d), e), rest)
    requires !d.PollOnce? && !Stale(Step(m, d)) && NeverStale(Step(Step(m, d), e), rest)
    ensures IsRun(m, [d, e] + rest) && NeverStale(m, [d, e] + rest)
    ensures Run(m, [d, e] + rest) == Run(Step(Step(m, d), e), rest)
  {
    hide Enabled, Step, Stale;
    assert ([d, e] + rest)[1..] == [e] + rest && ([e] + rest)[1..] == rest;
    assert IsRun(Step(m, d), [e] + rest);
  }

  lemma {:induction false} RunSnoc(m: Machine, events: seq<Event>, e: Event)
    requires IsRun(m, events) && Enabled(Run(m, events), e)
    ensures IsRun(m, events + [e]) && Run(m, events + [e]) == Step(Run(m, events), e)
    ensures NeverStale(m, events + [e]) <==> NeverStale(m, events) && !(e.PollOnce? && Stale(Run(m, events)))
    decreases events
  {
    hide Enabled, Step, Stale;
    if events == [] {
      assert [e][1..] == [];
    } else {
      assert (events + [e])[1..] == events[1..] + [e];
      RunSnoc(Step(m, events[0]), events[1..], e);
    }
  }

  /** From position `rp` on, exchanges that go exactly once round to position 0 leave everything
      before `rp` as it was. */
  lemma {:induction false} RestOfLap(m: Machine, fs: seq<Frame>)
    requires InOrder(m) && m.ring.pending == [] && AllOffers(m.ring, m.node.ip, fs)
    requires 24 <= m.ring.rp && m.ring.rp + Used(fs) == m.ring.r
    ensures IsRun(m, Exchanges(fs)) && NeverStale(m, Exchanges(fs))
    ensures var n := Run(m, Exchanges(fs));
            && InOrder(n) && n.ring.pending == [] && n.ring.rp == 0 && n.node.ip == m.node.ip
            && n.ring.delivered == m.ring.delivered + fs && n.ring.received == m.ring.received + fs
            && Unchanged(m.mem, n.mem, m.ring.rp, RX_BUFFER_SIZE)
    decreases fs
  {
    hide BytesAvail, Readable, Align4, LeftInBuffer, Present, Enabled, Step, Stale, Proper, Intact;
    var f, rest := fs[0], fs[1..];
    assert Proper(m.ring, m.node.ip, Offer(f));
    ExchangeStep(m, f);
    var n := Step(Step(m, Offer(f)), PollOnce);
    OffersRest(m, n, fs);
    if rest != [] {
      SlotAtLeast24(rest[0]);
      RestOfLap(n, rest);
      var k := Run(n, Exchanges(rest));
      assert m.ring.delivered + [f] + rest == m.ring.delivered + fs;
      assert m.ring.received + [f] + rest == m.ring.received + fs;
      assert Unchanged(m.mem, k.mem, m.ring.rp, RX_BUFFER_SIZE);
    }
    RunTwo(m, Offer(f), PollOnce, Exchanges(rest));
  }

  lemma OffersRest(m: Machine, n: Machine, fs: seq<Frame>)
    requires AllOffers(m.ring, m.node.ip, fs) && fs != []
    requires n.ring.maxFrame == m.ring.maxFrame && n.node.ip == m.node.ip
    ensures AllOffers(n.ring, n.node.ip, fs[1..]) && forall k :: 0 <= k < |fs| ==> |fs[k]| >= 14
  {
    forall k | 0 <= k < |fs| ensures |fs[k]| >= 14 && (k > 0 ==> Proper(n.ring, n.node.ip, Offer(fs[k]))) {
      assert Proper(m.ring, m.node.ip, Offer(fs[k]));
    }
    assert forall k :: 0 <= k < |fs[1..]| ==> fs[1..][k] == fs[k + 1];
  }

  lemma LeftReadable(n: NodeState, f: Frame)
    requires Readable(f, n.ip)
    ensures Readable(LeftInBuffer(n, f), n.ip)
  {
    if AsksFor(f, n.ip) {
      var r := ArpReplyFrame(f, n.mac, n.ip);
      var e := f[6..12] + n.mac + f[12..14];
      assert r[12] == e[12] == f[12..14][0] == f[12] && r[13] == e[13] == f[12..14][1] == f[13];
      assert NetField16(r, 12) == ETH_TYPE_ARP;
    }
  }

  /** Whatever lies at the start of the buffer with a good status is read from there. */
  lemma PresentRead(m: Machine, f: Frame)
    requires InOrder(m) && m.ring.pending == [] && m.ring.rp == 0 && Present(m.mem, 0, f)
    requires Readable(f, m.node.ip) && |f| + 4 < 0x1_0000
    ensures Stale(m) && PollSafe(m) && FrameAt(m.mem, 0) == f
    ensures Polled(m).ring.delivered == m.ring.received + [f]
  {
    EmptyPollExact(m);
    hide BytesAvail, Capr, Readable;
  }

  lemma PresentKept(mem: seq<uint8>, mem': seq<uint8>, f: Frame, p: nat, hi: nat)
    requires Present(mem, 0, f) && Unchanged(mem, mem', p, hi) && 4 + |f| <= p
    ensures Present(mem', 0, f)
  {
    assert mem'[4..4 + |f|] == mem[4..4 + |f|];
  }

  /** Exchanges that go exactly once round the ring: every frame is handed over once, and the first
      one still lies at the read position, as the node left it. */
  lemma WholeLap(m: Machine, fs: seq<Frame>)
    requires InOrder(m) && m.ring.pending == [] && m.ring.rp == 0 && AllOffers(m.ring, m.node.ip, fs)
    requires |fs| > 1 && Used(fs) == m.ring.r
    ensures IsRun(m, Exchanges(fs)) && NeverStale(m, Exchanges(fs))
    ensures var n := Run(m, Exchanges(fs));
            && InOrder(n) && n.ring.pending == [] && n.ring.rp == 0 && n.node.ip == m.node.ip
            && n.ring.delivered == m.ring.delivered + fs && n.ring.received == m.ring.received + fs
            && Present(n.mem, 0, LeftInBuffer(m.node, fs[0]))
  {
    hide InOrder, Enabled, Step, Stale, Exchanged, Present, LeftInBuffer, AllOffers, Used, IsRun, Run, NeverStale;
    FirstExchange(m, fs);
    var n := Step(Step(m, Offer(fs[0])), PollOnce);
    RestOfLap(n, fs[1..]);
    RunTwo(m, Offer(fs[0]), PollOnce, Exchanges(fs[1..]));
    LapClosed(m, n, Run(n, Exchanges(fs[1..])), fs);
  }

  lemma FirstExchange(m: Machine, fs: seq<Frame>)
    requires InOrder(m) && m.ring.pending == [] && m.ring.rp == 0 && AllOffers(m.ring, m.node.ip, fs)
    requires |fs| > 1 && Used(fs) == m.ring.r
    ensures Enabled(m, Offer(fs[0]))
    ensures var a := Step(m, Offer(fs[0]));
            Enabled(a, PollOnce) && !Stale(a)
            && var n := Step(a, PollOnce);
               && Exchanged(m, n, fs[0]) && AllOffers(n.ring, n.node.ip, fs[1..])
               && InOrder(n) && n.ring.pending == []
               && 24 <= n.ring.rp && n.ring.rp + Used(fs[1..]) == n.ring.r && 4 + |fs[0]| <= n.ring.rp
  {
    hide InOrder, Enabled, Step, Stale, Proper, Offer, Present, LeftInBuffer, Slot, Used, Advance, Unchanged, AllOffers;
    InOrderFacts(m);
    FirstProper(m, fs);
    LapStart(m, fs);
    ExchangeStep(m, fs[0]);
    OffersRest(m, Step(Step(m, Offer(fs[0])), PollOnce), fs);
  }

  /** The first exchange and the rest of the lap together. */
  lemma LapClosed(m: Machine, n: Machine, k: Machine, fs: seq<Frame>)
    requires fs != [] && Exchanged(m, n, fs[0]) && m.ring.rp == 0 && 4 + |fs[0]| <= n.ring.rp
    requires k.ring.delivered == n.ring.delivered + fs[1..] && k.ring.received == n.ring.received + fs[1..]
    requires Unchanged(n.mem, k.mem, n.ring.rp, RX_BUFFER_SIZE)
    ensures k.ring.delivered == m.ring.delivered + fs && k.ring.received == m.ring.received + fs
    ensures Present(k.mem, 0, LeftInBuffer(m.node, fs[0])) && n.node.ip == m.node.ip
  {
    hide InOrder, Present, LeftInBuffer, Unchanged, Slot, Advance;
    PresentKept(n.mem, k.mem, LeftInBuffer(m.node, fs[0]), n.ring.rp, RX_BUFFER_SIZE);
    assert m.ring.delivered + [fs[0]] + fs[1..] == m.ring.delivered + fs;
    assert m.ring.received + [fs[0]] + fs[1..] == m.ring.received + fs;
  }

  lemma FirstProper(m: Machine, fs: seq<Frame>)
    requires AllOffers(m.ring, m.node.ip, fs) && fs != []
    ensures Proper(m.ring, m.node.ip, Offer(fs[0])) && !Offer(fs[0]).PollOnce?
  {
  }

  lemma LapStart(m: Machine, fs: seq<Frame>)
    requires AllOffers(m.ring, m.node.ip, fs) && |fs| > 1 && Used(fs) == m.ring.r
    ensures 24 <= Slot(fs[0]) == Advance(m.ring.r, 0, Slot(fs[0])) && Slot(fs[0]) + Used(fs[1..]) == m.ring.r
    ensures 4 + |fs[0]| <= Slot(fs[0])
  {
    hide Readable, Align4;
    OffersRest(m, m, fs);
    SlotAtLeast24(fs[0]);
    SlotAtLeast24(fs[1]);
    assert Used(fs[1..]) >= Slot(fs[1]);
  }

  /** So the next poll of the empty ring hands that frame over again, which was not received again. */
  lemma LapReplays(m: Machine, fs: seq<Frame>)
    requires InOrder(m) && m.ring.pending == [] && m.ring.rp == 0 && AllOffers(m.ring, m.node.ip, fs)
    requires |fs| > 1 && Used(fs) == m.ring.r
    ensures var events := Exchanges(fs) + [PollOnce];
            && IsRun(m, events) && !AlwaysFifo(m, events)
            && var n := Run(m, events);
               && n.ring.received == m.ring.received + fs
               && n.ring.delivered == m.ring.received + fs + [LeftInBuffer(m.node, fs[0])]
  {
    hide InOrder, Enabled, Step, Stale, Polled, Readable, Present, LeftInBuffer, Exchanges, AlwaysFifo;
    InOrderFacts(m);
    WholeLap(m, fs);
    FirstReadable(m, fs);
    var n := Run(m, Exchanges(fs));
    PresentRead(n, LeftInBuffer(m.node, fs[0]));
    PollIsStep(n);
    RunSnoc(m, Exchanges(fs), PollOnce);
    FirstInFirstOut(m, Exchanges(fs) + [PollOnce]);
  }

  lemma FirstReadable(m: Machine, fs: seq<Frame>)
    requires AllOffers(m.ring, m.node.ip, fs) && fs != [] && Geometry(m.ring)
    ensures Readable(LeftInBuffer(m.node, fs[0]), m.node.ip) && |fs[0]| + 4 < 0x1_0000
  {
    hide LeftInBuffer, Readable;
    assert Proper(m.ring, m.node.ip, Offer(fs[0]));
    LeftReadable(m.node, fs[0]);
  }

  lemma PollIsStep(m: Machine)
    requires PollSafe(m)
    ensures Enabled(m, PollOnce) && Step(m, PollOnce) == Polled(m) && Polled(m).ring.received == m.ring.received
  {
  }

  // ---------------------------------------------------------------- a lap of the 8K ring

  /** `n` bytes of ones. */
  function Ones(n: nat): (r: seq<uint8>)
    ensures |r| == n && forall i :: 0 <= i < n ==> r[i] == 1
  {
    seq(n, _ => 1)
  }

  lemma {:induction false} UsedCopies(k: nat, f: Frame)
    ensures Used(Copies(k, f)) == k * Slot(f)
  {
    if k > 0 {
      assert Copies(k, f)[1..] == Copies(k - 1, f);
      UsedCopies(k - 1, f);
    }
  }

  /** Eight frames of `n` bytes for nobody: one of ones and seven of zeros. */
  function EightFrames(n: nat): seq<Frame> {
    [Ones(n)] + Copies(7, Zeros(n))
  }

  /** On the 8K ring, eight frames of 1016 bytes, each polled at once, go exactly once round; one
      more poll hands over the first of them a second time.  (The length is named so that it stays
      symbolic in the proof.) */
  lemma ReplayReachable(mem: seq<uint8>, node: NodeState, n: nat)
    requires |mem| == RX_BUFFER_SIZE && n == 1016
    ensures var m, fs := Initial(mem, 8192, 1514, node), EightFrames(n);
            var events := Exchanges(fs) + [PollOnce];
            && InOrder(m) && fs[0] !in fs[1..]
            && IsRun(m, events) && !AlwaysFifo(m, events)
            && Run(m, events).ring.received == fs && Run(m, events).ring.delivered == fs + [fs[0]]
  {
    var m, fs := Initial(mem, 8192, 1514, node), EightFrames(n);
    EightFacts(m.ring, node, n);
    hide Slot, Used, EightFrames, Exchanges, LeftInBuffer, IsRun, AlwaysFifo, Run, AllOffers, Readable;
    LapReplays(m, fs);
    assert m.ring.received + fs == fs;
  }

  lemma EightFacts(g: Ring, node: NodeState, n: nat)
    requires n == 1016 <= g.maxFrame
    ensures var fs := EightFrames(n);
            && |fs| == 8 && fs[0] !in fs[1..] && AllOffers(g, node.ip, fs)
            && Used(fs) == 8192 && LeftInBuffer(node, fs[0]) == fs[0]
  {
    var fs := EightFrames(n);
    assert fs[1..] == Copies(7, Zeros(n)) && Ones(n)[0] != Zeros(n)[0];
    UsedCopies(7, Zeros(n));
    Align4Masked(n + 8);
    assert Slot(Zeros(n)) == Slot(Ones(n)) == 1024;
    ZerosProper(g, node.ip, n);
    OnesProper(g, node, n);
  }

  lemma OnesProper(g: Ring, node: NodeState, n: nat)
    requires 34 <= n <= g.maxFrame && n < 0x1_0000
    ensures Proper(g, node.ip, Offer(Ones(n))) && LeftInBuffer(node, Ones(n)) == Ones(n)
  {
    assert NetField16(Ones(n), 12) == 0x0101;
  }
}
