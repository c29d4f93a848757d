/** The receive ring of the RTL8139 (rtl8139.c:523-563) between the device and the driver.

    The device is the environment.  It owns the read position `rp` and the write position `wp`,
    both below the ring size R.  Reading CAPR gives rp - 16 modulo 2^16, writing v to CAPR sets rp
    to (v + 16) mod 2^16 mod R, and CBR reads as wp.  A frame is stored as a 16-bit status whose
    bit 0 is set, a 16-bit size that counts the CRC, the data and a 4-byte CRC, contiguously even
    past R, and the next one starts at the following multiple of 4, modulo R.  The device takes a
    frame when the ring is empty or when the frame leaves at least one byte of the ring free. */
module RxRing {
  import opened Bytes
  import opened Frames

  /** The driver's idea of the ring size. */
  const RX_BUFFER_SIZE := 32768

  /** The next multiple of 4, counted up in steps of 4. */
  function Align4(n: nat): (r: nat)
    ensures n <= r < n + 4
  {
    if n == 0 then 0 else if n <= 4 then 4 else 4 + Align4(n - 4)
  }

  /** (n + 3) & ~3, as the driver writes it. */
  lemma {:induction false} Align4Masked(n: nat)
    ensures Align4(n) == (n + 3) / 4 * 4 && Align4(n) % 4 == 0
  {
    if n > 4 {
      Align4Masked(n - 4);
    }
  }

  lemma {:induction false} Align4Shift(p: nat, n: nat)
    requires p % 4 == 0
    ensures Align4(p + n) == p + Align4(n)
  {
    Align4Masked(n);
    Align4Masked(p + n);
    hide Align4;
    assert p == p / 4 * 4;
    assert (p + n + 3) / 4 == p / 4 + (n + 3) / 4;
  }

  /** The bytes of the ring a frame takes up. */
  function Slot(f: Frame): nat {
    Align4(|f| + 8)
  }

  function Used(fs: seq<Frame>): nat {
    if fs == [] then 0 else Slot(fs[0]) + Used(fs[1..])
  }

  /** One slot further round a ring of size `r`. */
  function Advance(r: nat, p: nat, slot: nat): nat {
    if p + slot < r then p + slot else if p + slot < 2 * r then p + slot - r else 0
  }

  function End(r: nat, p: nat, fs: seq<Frame>): nat
    decreases fs
  {
    if fs == [] then p else End(r, Advance(r, p, Slot(fs[0])), fs[1..])
  }

  /** The frame `f` is in memory at `p`, with a good status. */
  ghost predicate Present(mem: seq<uint8>, p: nat, f: Frame) {
    && p + 4 + |f| <= |mem|
    && mem[p] % 2 == 1 && Load16(mem, p + 2) == |f| + 4
    && mem[p + 4..p + 4 + |f|] == f
  }

  /** The frames `fs` are in memory one after the other from `p` on. */
  ghost predicate Intact(mem: seq<uint8>, r: nat, p: nat, fs: seq<Frame>)
    decreases fs
  {
    fs == [] || (Present(mem, p, fs[0]) && Intact(mem, r, Advance(r, p, Slot(fs[0])), fs[1..]))
  }

  // ---------------------------------------------------------------- ring geometry

  lemma {:induction false} EndPosition(r: nat, p: nat, fs: seq<Frame>)
    requires p < r && Used(fs) < r
    ensures End(r, p, fs) == if p + Used(fs) < r then p + Used(fs) else p + Used(fs) - r
    decreases fs
  {
    if fs != [] {
      EndPosition(r, Advance(r, p, Slot(fs[0])), fs[1..]);
    }
  }

  lemma {:induction false} UsedAppend(fs: seq<Frame>, f: Frame)
    ensures Used(fs + [f]) == Used(fs) + Slot(f)
  {
    if fs == [] {
    } else {
      assert (fs + [f])[1..] == fs[1..] + [f];
      UsedAppend(fs[1..], f);
    }
  }

  lemma {:induction false} EndAppend(r: nat, p: nat, fs: seq<Frame>, f: Frame)
    ensures End(r, p, fs + [f]) == Advance(r, End(r, p, fs), Slot(f))
    decreases fs
  {
    if fs == [] {
      assert [f][1..] == [];
    } else {
      assert (fs + [f])[1..] == fs[1..] + [f];
      EndAppend(r, Advance(r, p, Slot(fs[0])), fs[1..], f);
    }
  }

  /** Writing [lo, hi) leaves every frame intact that starts at least hi - lo further round the
      ring and ends before the writer's position comes round again. */
  lemma {:induction false} IntactFrame(mem: seq<uint8>, mem': seq<uint8>, r: nat, p: nat, fs: seq<Frame>,
                                       lo: nat, hi: nat, d: nat)
    requires |mem| == |mem'| && forall i :: 0 <= i < |mem| && (i < lo || hi <= i) ==> mem'[i] == mem[i]
    requires p < r && lo < r && (p == lo + d || p + r == lo + d)
    requires hi <= lo + d && d + Used(fs) <= r
    requires Intact(mem, r, p, fs)
    ensures Intact(mem', r, p, fs)
    decreases fs
  {
    if fs != [] {
      var s := Slot(fs[0]);
      assert p + s <= lo || hi <= p;
      assert mem'[p + 4..p + 4 + |fs[0]|] == mem[p + 4..p + 4 + |fs[0]|];
      IntactFrame(mem, mem', r, Advance(r, p, s), fs[1..], lo, hi, d + s);
    }
  }

  lemma {:induction false} IntactAppend(mem: seq<uint8>, r: nat, p: nat, fs: seq<Frame>, f: Frame)
    requires Intact(mem, r, p, fs) && Present(mem, End(r, p, fs), f)
    ensures Intact(mem, r, p, fs + [f])
    decreases fs
  {
    if fs == [] {
      assert [f][1..] == [];
    } else {
      assert (fs + [f])[1..] == fs[1..] + [f];
      IntactAppend(mem, r, Advance(r, p, Slot(fs[0])), fs[1..], f);
    }
  }

  // ---------------------------------------------------------------- the registers

  /** The space the device sees: 0 stands for an empty ring. */
  function Avail(r: nat, rp: nat, wp: nat): nat
    requires rp < r && wp < r
  {
    Mod(r + rp - wp, r)
  }

  predicate DeviceTakes(r: nat, rp: nat, wp: nat, f: Frame)
    requires rp < r && wp < r
  {
    Avail(r, rp, wp) == 0 || Slot(f) < Avail(r, rp, wp)
  }

  function Capr(rp: nat): uint16 {
    (rp - 16) % 0x1_0000
  }

  /** bytes_avail as check_rx_buffer computes it, in 16 bits. */
  function BytesAvail(capr: uint16, cbr: uint16): uint16 {
    if cbr >= capr then cbr - capr else (RX_BUFFER_SIZE + cbr - capr) % 0x1_0000
  }

  /** Adding 16 back to a CAPR read gives the read position. */
  lemma CaprRoundTrip(rp: nat)
    requires rp < 0x1_0000
    ensures (Capr(rp) as int + 16) % 0x1_0000 == rp
  {
    if rp >= 16 {
      assert Capr(rp) == rp - 16;
    } else {
      assert Capr(rp) == rp - 16 + 0x1_0000;
    }
  }

  /** In terms of what is stored, the device takes a frame as long as the ring does not fill up. */
  lemma TakesWhileRoom(r: nat, rp: nat, fs: seq<Frame>, f: Frame)
    requires rp < r && Used(fs) < r && Slot(f) < r
    ensures End(r, rp, fs) < r
    ensures DeviceTakes(r, rp, End(r, rp, fs), f) <==> Used(fs) + Slot(f) < r
  {
    EndPosition(r, rp, fs);
    var x := r + rp - End(r, rp, fs);
    assert x == r - Used(fs) || x == 2 * r - Used(fs);
    assert Mod(x, r) == if x < r then x else x - r;
  }

  /** The driver believes there is nothing to read exactly when the write position is 16 bytes
      short of the read position. */
  lemma DriverSeesNothing(r: nat, rp: nat, wp: nat)
    requires rp < r && wp < r < RX_BUFFER_SIZE - 20
    ensures BytesAvail(Capr(rp), wp) == 0 <==> wp + 16 == rp
  {
    if rp >= 16 {
      assert Capr(rp) == rp - 16;
    } else {
      assert Capr(rp) == rp - 16 + 0x1_0000;
    }
  }

  /** The position the driver computes after a frame of `n` bytes at `rp`, and what the device
      makes of the value written to CAPR: the next slot.  The driver's own wrap is not needed. */
  lemma NextReadPosition(r: nat, rp: nat, n: nat)
    requires 0 < r && r % 4 == 0 && rp % 4 == 0 && rp < r && n + 11 < r && r + n + 7 < RX_BUFFER_SIZE
    ensures var offset := (rp + (n + 4) + 4 + 3) / 4 * 4 % 0x1_0000;
            && offset < RX_BUFFER_SIZE
            && Mod(((offset - 16) % 0x1_0000 + 16) % 0x1_0000, r) == Advance(r, rp, Align4(n + 8))
  {
    hide Align4, Mod, Advance;
    var next := rp + Align4(n + 8);
    Align4Masked(rp + n + 8);
    Align4Shift(rp, n + 8);
    StepBelow(r, rp, n);
    CaprRoundTrip(next);
    ModAdvance(r, rp, Align4(n + 8));
  }

  lemma StepBelow(r: nat, rp: nat, n: nat)
    requires r % 4 == 0 && rp % 4 == 0 && rp < r && n + 11 < r && r + n + 7 < RX_BUFFER_SIZE
    ensures rp + Align4(n + 8) < RX_BUFFER_SIZE && Align4(n + 8) < r
  {
    hide Align4;
    assert rp + 4 <= r;
  }

  lemma ModAdvance(r: nat, p: nat, slot: nat)
    requires p < r && slot < r
    ensures Mod(p + slot, r) == Advance(r, p, slot)
  {
  }

  lemma MultiplesOf4(a: nat, b: nat)
    requires a % 4 == 0 && b % 4 == 0
    ensures (a + b) % 4 == 0 && (a - b) % 4 == 0
  {
  }

  /** Likewise for the device's own write position. */
  lemma NextWritePosition(r: nat, wp: nat, n: nat)
    requires 0 < r && r % 4 == 0 && wp % 4 == 0 && wp < r && n + 11 < r
    ensures Mod(Align4(wp + n + 8), r) == Advance(r, wp, Align4(n + 8))
    ensures Advance(r, wp, Align4(n + 8)) % 4 == 0 && Advance(r, wp, Align4(n + 8)) < r
  {
    hide Align4, Mod;
    var a := Align4(n + 8);
    Align4Masked(n + 8);
    Align4Shift(wp, n + 8);
    ModAdvance(r, wp, a);
    MultiplesOf4(wp, a);
    MultiplesOf4(wp + a, r);
  }

  // ---------------------------------------------------------------- what the node makes of the frames

  function HandleAll(n: NodeState, fs: seq<Frame>): NodeState {
    if fs == [] then n else After(HandleAll(n, Init(fs)), Last(fs))
  }

  function AnswerAll(n: NodeState, fs: seq<Frame>): seq<Frame> {
    if fs == [] then [] else AnswerAll(n, Init(fs)) + Replies(HandleAll(n, Init(fs)), Last(fs))
  }

  lemma HandleOneMore(n: NodeState, fs: seq<Frame>, f: Frame)
    ensures HandleAll(n, fs + [f]) == After(HandleAll(n, fs), f)
    ensures AnswerAll(n, fs + [f]) == AnswerAll(n, fs) + Replies(HandleAll(n, fs), f)
  {
    assert Init(fs + [f]) == fs;
  }

  // ---------------------------------------------------------------- the ring invariant

  /** The positions and, for the proof, every frame the device took, those handed over, those
      pending, and whether the write position has come round at least once. */
  datatype Ring = Ring(r: nat, maxFrame: nat, rp: nat, wp: nat,
                       received: seq<Frame>, delivered: seq<Frame>, pending: seq<Frame>, wrapped: bool)

  predicate Geometry(g: Ring) {
    && g.r % 4 == 0 && 14 <= g.maxFrame && g.maxFrame + 11 < g.r && g.r + g.maxFrame + 7 < RX_BUFFER_SIZE
    && g.rp < g.r && g.wp < g.r && g.rp % 4 == 0 && g.wp % 4 == 0
  }

  /** What every state of an orderly run satisfies, whatever is in memory: the frames taken are
      those delivered followed by those pending, which take up the ring from the read position to
      the write position. */
  ghost predicate RunOk(g: Ring) {
    && Geometry(g)
    && g.received == g.delivered + g.pending
    && Used(g.pending) < g.r && End(g.r, g.rp, g.pending) == g.wp
    && forall k :: 0 <= k < |g.pending| ==> 14 <= |g.pending[k]| <= g.maxFrame
  }

  /** And the pending frames are intact in memory. */
  ghost predicate RingOk(mem: seq<uint8>, g: Ring, ip: uint32) {
    && RunOk(g) && |mem| == RX_BUFFER_SIZE
    && Intact(mem, g.r, g.rp, g.pending)
    && forall k :: 0 <= k < |g.pending| ==> Readable(g.pending[k], ip)
  }

  /** Until the write position first comes round, nothing from there on has been written. */
  ghost predicate Blank(mem: seq<uint8>, g: Ring) {
    !g.wrapped ==> g.rp <= g.wp && forall i :: g.wp <= i < |mem| ==> mem[i] == 0
  }

  /** The oldest pending frame lies at the read position. */
  lemma OldestFacts(mem: seq<uint8>, g: Ring, ip: uint32)
    requires RingOk(mem, g, ip) && g.pending != []
    ensures Present(mem, g.rp, g.pending[0]) && 14 <= |g.pending[0]| <= g.maxFrame && Readable(g.pending[0], ip)
  {
  }

  ghost predicate Unchanged(before: seq<uint8>, after: seq<uint8>, lo: nat, hi: nat) {
    |before| == |after| && forall i :: 0 <= i < |before| && (i < lo || hi <= i) ==> after[i] == before[i]
  }

  /** The ring after the device stored `f` at the write position. */
  function Taken(g: Ring, f: Frame): Ring
    requires Geometry(g)
  {
    g.(wp := Advance(g.r, g.wp, Slot(f)), received := g.received + [f], pending := g.pending + [f],
       wrapped := g.wrapped || g.wp + Slot(f) >= g.r)
  }

  lemma TakenOk(before: seq<uint8>, after: seq<uint8>, g: Ring, ip: uint32, f: Frame)
    requires RingOk(before, g, ip) && Used(g.pending) + Slot(f) < g.r
    requires 14 <= |f| <= g.maxFrame && Readable(f, ip)
    requires Present(after, g.wp, f) && Unchanged(before, after, g.wp, g.wp + Slot(f))
    ensures RingOk(after, Taken(g, f), ip)
    ensures Blank(before, g) ==> Blank(after, Taken(g, f))
  {
    hide Readable, Align4, Used, End, Intact, Present;
    TakenIntact(before, after, g, f);
    EndAppend(g.r, g.rp, g.pending, f);
    UsedAppend(g.pending, f);
    NextWritePosition(g.r, g.wp, |f|);
  }

  lemma TakenIntact(before: seq<uint8>, after: seq<uint8>, g: Ring, f: Frame)
    requires Geometry(g) && Used(g.pending) + Slot(f) < g.r && End(g.r, g.rp, g.pending) == g.wp
    requires Intact(before, g.r, g.rp, g.pending)
    requires Present(after, g.wp, f) && Unchanged(before, after, g.wp, g.wp + Slot(f))
    ensures Intact(after, g.r, g.rp, g.pending + [f])
  {
    EndPosition(g.r, g.rp, g.pending);
    hide Used, End, Align4, Present;
    IntactFrame(before, after, g.r, g.rp, g.pending, g.wp, g.wp + Slot(f), g.r - Used(g.pending));
    IntactAppend(after, g.r, g.rp, g.pending, f);
  }

  /** The ring after the oldest frame was handed over. */
  function Given(g: Ring): Ring
    requires g.pending != []
  {
    g.(rp := Advance(g.r, g.rp, Slot(g.pending[0])), delivered := g.delivered + [g.pending[0]],
       pending := g.pending[1..])
  }

  /** Whatever happened to the oldest frame's own bytes, the frames behind it are intact. */
  lemma GivenOk(before: seq<uint8>, after: seq<uint8>, g: Ring, ip: uint32)
    requires RingOk(before, g, ip) && g.pending != []
    requires Unchanged(before, after, g.rp + 4, g.rp + 4 + |g.pending[0]|)
    ensures RingOk(after, Given(g), ip)
    ensures Blank(before, g) ==> Blank(after, Given(g))
  {
    hide Readable, Align4, Intact, Present;
    var f, rest := g.pending[0], g.pending[1..];
    NextWritePosition(g.r, g.rp, |f|);
    GivenIntact(before, after, g);
    EndPosition(g.r, g.rp, g.pending);
    hide Used, End;
    assert forall k :: 0 <= k < |rest| ==> rest[k] == g.pending[k + 1];
  }

  lemma GivenIntact(before: seq<uint8>, after: seq<uint8>, g: Ring)
    requires Geometry(g) && g.pending != [] && Used(g.pending) < g.r
    requires Intact(before, g.r, g.rp, g.pending)
    requires Unchanged(before, after, g.rp + 4, g.rp + 4 + |g.pending[0]|)
    ensures Intact(after, g.r, Advance(g.r, g.rp, Slot(g.pending[0])), g.pending[1..])
  {
    hide Align4, Present;
    var f, rest := g.pending[0], g.pending[1..];
    IntactFrame(before, after, g.r, Advance(g.r, g.rp, Slot(f)), rest, g.rp, g.rp + Slot(f), Slot(f));
  }

  /** What the ring does with a frame it is offered. */
  function ArriveStep(g: Ring, f: Frame): Ring
    requires Geometry(g)
  {
    if Used(g.pending) + Slot(f) < g.r then Taken(g, f) else g
  }

  /** What one poll of the driver does to the ring, unless it is misled by what an earlier frame
      left behind (see RxRuns). */
  function PollStep(g: Ring): Ring {
    if g.pending != [] && g.wp + 16 != g.rp then Given(g) else g
  }

  // ---------------------------------------------------------------- whole runs

  /** The device is offered a frame, with the status it will report and the CRC; the driver polls. */
  datatype Event = Arrive(f: Frame, status: uint16, crc: seq<uint8>) | PollOnce

  /** Every frame offered is an Ethernet frame no longer than the largest one. */
  ghost predicate Offered(g: Ring, events: seq<Event>) {
    forall k :: 0 <= k < |events| && events[k].Arrive? ==> 14 <= |events[k].f| <= g.maxFrame
  }

  function EventStep(g: Ring, e: Event): Ring
    requires Geometry(g)
  {
    match e
    case Arrive(f, _, _) => ArriveStep(g, f)
    case PollOnce => PollStep(g)
  }

  /** The frames the device takes at the event. */
  function Took(g: Ring, e: Event): seq<Frame> {
    if e.Arrive? && Used(g.pending) + Slot(e.f) < g.r then [e.f] else []
  }

  lemma EventTakesAndGives(g: Ring, e: Event)
    requires Geometry(g)
    ensures EventStep(g, e).received == g.received + Took(g, e)
    ensures g.delivered <= EventStep(g, e).delivered
    ensures EventStep(g, e).r == g.r && EventStep(g, e).maxFrame == g.maxFrame
    ensures g.wrapped ==> EventStep(g, e).wrapped
  {
  }

  lemma EventKeepsRunOk(g: Ring, e: Event)
    requires RunOk(g) && (e.Arrive? ==> 14 <= |e.f| <= g.maxFrame)
    ensures RunOk(EventStep(g, e))
  {
    if e.Arrive? {
      ArriveKeepsRunOk(g, e.f);
    } else if g.pending != [] {
      NextWritePosition(g.r, g.rp, |g.pending[0]|);
    }
  }

  lemma ArriveKeepsRunOk(g: Ring, f: Frame)
    requires RunOk(g) && 14 <= |f| <= g.maxFrame
    ensures RunOk(ArriveStep(g, f))
  {
    if Used(g.pending) + Slot(f) < g.r {
      hide Used, End;
      EndAppend(g.r, g.rp, g.pending, f);
      UsedAppend(g.pending, f);
      NextWritePosition(g.r, g.wp, |f|);
    }
  }

  ghost function RunEvents(g: Ring, events: seq<Event>): (r: Ring)
    requires RunOk(g) && Offered(g, events)
    ensures RunOk(r) && r.r == g.r && r.maxFrame == g.maxFrame
    decreases events
  {
    if events == [] then g
    else
      var e := events[0];
      EventKeepsRunOk(g, e);
      var h := EventStep(g, e);
      assert forall k :: 0 <= k < |events[1..]| ==> events[1..][k] == events[k + 1];
      RunEvents(h, events[1..])
  }

  /** The arriving frames for which the ring has room, in order. */
  ghost function Accepted(g: Ring, events: seq<Event>): seq<Frame>
    requires RunOk(g) && Offered(g, events)
    decreases events
  {
    if events == [] then []
    else
      var e := events[0];
      EventKeepsRunOk(g, e);
      var h := EventStep(g, e);
      assert forall k :: 0 <= k < |events[1..]| ==> events[1..][k] == events[k + 1];
      Took(g, e) + Accepted(h, events[1..])
  }

  /** The driver has given up: frames are pending but it sees none. */
  predicate Stalled(g: Ring) {
    g.pending != [] && g.wp + 16 == g.rp
  }

  /** Every poll of the run finds a frame pending. */
  ghost predicate PollsFind(g: Ring, events: seq<Event>)
    requires RunOk(g) && Offered(g, events)
    decreases events
  {
    events == []
    || (var e := events[0];
        EventKeepsRunOk(g, e);
        var h := EventStep(g, e);
        assert forall k :: 0 <= k < |events[1..]| ==> events[1..][k] == events[k + 1];
        (e.PollOnce? ==> g.pending != []) && PollsFind(h, events[1..]))
  }

  /** The device takes exactly the frames it has room for, and a ring that has come round stays so. */
  lemma {:induction false} RunTakes(g: Ring, events: seq<Event>)
    requires RunOk(g) && Offered(g, events)
    ensures var h := RunEvents(g, events);
            && h.received == g.received + Accepted(g, events) && g.delivered <= h.delivered
            && (g.wrapped ==> h.wrapped)
    decreases events
  {
    hide Geometry, Used, End, EventStep, Took;
    if events != [] {
      var e, rest := events[0], events[1..];
      EventKeepsRunOk(g, e);
      EventTakesAndGives(g, e);
      assert forall k :: 0 <= k < |rest| ==> rest[k] == events[k + 1];
      RunTakes(EventStep(g, e), rest);
    }
  }

  lemma SlotAtLeast24(f: Frame)
    requires |f| >= 14
    ensures Slot(f) >= 24
  {
    Align4Masked(|f| + 8);
  }

  /** Handing over one frame frees enough room that the driver cannot stall next. */
  lemma NeverStallsAfterDelivery(g: Ring)
    requires RunOk(g) && g.pending != [] && !Stalled(g)
    ensures !Stalled(PollStep(g))
  {
    var f, h := g.pending[0], PollStep(g);
    SlotAtLeast24(f);
    EndPosition(g.r, g.rp, g.pending);
    EventKeepsRunOk(g, PollOnce);
    EndPosition(h.r, h.rp, h.pending);
  }

  /** A ring of `r` bytes right after initialisation. */
  function Fresh(r: nat, maxFrame: nat): Ring {
    Ring(r, maxFrame, 0, 0, [], [], [], false)
  }

  /** A frame received without error; its CRC is never looked at. */
  function Offer(f: Frame): Event {
    Arrive(f, 1, Zeros(4))
  }

  /** `k` frames of `big` bytes and one of `small`. */
  function Burst(k: nat, big: nat, small: nat): seq<Event> {
    if k == 0 then [Offer(Zeros(small))] else [Offer(Zeros(big))] + Burst(k - 1, big, small)
  }

  lemma SlotOfZeros(n: nat)
    ensures Slot(Zeros(n)) == (n + 11) / 4 * 4
  {
    Align4Masked(n + 8);
  }

  lemma {:induction false} BurstStalls(g: Ring, k: nat, big: nat, small: nat)
    requires RunOk(g) && g.r == 8192 && g.maxFrame == 1514 && g.rp == 1508
    requires big == 1500 && small == 628
    requires k <= 5 && Used(g.pending) == (5 - k) * 1508
    ensures Offered(g, Burst(k, big, small)) && PollsFind(g, Burst(k, big, small))
    ensures Stalled(RunEvents(g, Burst(k, big, small)))
    decreases k
  {
    var n := if k == 0 then small else big;
    var f := Zeros(n);
    var h := ArriveStep(g, f);
    assert Slot(f) == if k == 0 then 636 else 1508 by {
      SlotOfZeros(n);
    }
    assert h == Taken(g, f);
    assert Used(h.pending) == Used(g.pending) + Slot(f) by {
      UsedAppend(g.pending, f);
    }
    EventKeepsRunOk(g, Offer(f));
    if k == 0 {
      SixteenFree(h);
      assert Burst(k, big, small)[1..] == [];
    } else {
      BurstStalls(h, k - 1, big, small);
      assert Burst(k, big, small)[1..] == Burst(k - 1, big, small);
    }
  }

  lemma SixteenFree(g: Ring)
    requires RunOk(g) && g.pending != [] && g.r == 8192 && g.rp == 1508 && Used(g.pending) == 8176
    ensures Stalled(g)
  {
    EndPosition(g.r, g.rp, g.pending);
  }

  lemma RunCons(g: Ring, e: Event, rest: seq<Event>)
    requires RunOk(g) && (e.Arrive? ==> 14 <= |e.f| <= g.maxFrame) && Offered(g, rest)
    ensures Offered(g, [e] + rest)
    ensures var h := EventStep(g, e);
            && RunOk(h) && h.maxFrame == g.maxFrame && RunEvents(g, [e] + rest) == RunEvents(h, rest)
            && (PollsFind(g, [e] + rest) <==> (e.PollOnce? ==> g.pending != []) && PollsFind(h, rest))
  {
    EventKeepsRunOk(g, e);
    assert ([e] + rest)[1..] == rest;
  }

  /** One frame of `big` bytes taken and polled, then five more and one of `small`. */
  function StallEvents(big: nat, small: nat): seq<Event> {
    [Offer(Zeros(big))] + ([PollOnce] + Burst(5, big, small))
  }

  /** On the 8K ring, 1500 and 628 bytes leave exactly 16 bytes free in the end (the lengths are
      named so that they stay symbolic in the proof). */
  lemma StallEventsStall(big: nat, small: nat)
    requires big == 1500 && small == 628
    ensures var g, events := Fresh(8192, 1514), StallEvents(big, small);
            RunOk(g) && Offered(g, events) && PollsFind(g, events) && Stalled(RunEvents(g, events))
  {
    var g, f := Fresh(8192, 1514), Zeros(big);
    var rest := Burst(5, big, small);
    FirstFrameGone(g, f);
    var h := ArriveStep(g, f);
    var i := PollStep(h);
    BurstStalls(i, 5, big, small);
    assert Offered(h, rest) && Offered(g, [PollOnce] + rest);
    RunCons(h, PollOnce, rest);
    RunCons(g, Offer(f), [PollOnce] + rest);
  }

  lemma FirstFrameGone(g: Ring, f: Frame)
    requires g == Fresh(8192, 1514) && |f| == 1500
    ensures RunOk(g) && RunOk(ArriveStep(g, f)) && ArriveStep(g, f).maxFrame == 1514
    ensures var i := PollStep(ArriveStep(g, f));
            && ArriveStep(g, f).pending != [] && RunOk(i) && i.pending == []
            && i.rp == 1508 && i.r == 8192 && i.maxFrame == 1514
  {
    assert Slot(f) == 1508 by {
      Align4Masked(|f| + 8);
    }
    var h := ArriveStep(g, f);
    EventKeepsRunOk(g, Offer(f));
    assert h == g.(wp := 1508, received := [f], pending := [f]);
    EventKeepsRunOk(h, PollOnce);
  }
}
