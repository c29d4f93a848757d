/** The RTL8139 receive path: the device's ring memory and pointers, and the driver that polls them
    and hands the frames to the node (rtl8139.c:523-563). */
module Receive {
  import opened Bytes
  import opened Arp
  import opened Frames
  import opened Network
  import opened RxRing
  import opened RxRuns

  class Nic {
    const ringSize: nat     // the device's ring size
    const maxFrame: nat     // the largest frame on the wire
    const rxBuffer: array<uint8>
    const node: Node
    var rp: nat
    var wp: nat

    ghost var received: seq<Frame>    // taken by the device
    ghost var delivered: seq<Frame>   // handed over by the driver
    ghost var pending: seq<Frame>
    ghost var wrapped: bool

    ghost function State(): Ring
      reads this
    {
      Ring(ringSize, maxFrame, rp, wp, received, delivered, pending, wrapped)
    }

    ghost predicate Valid()
      reads this, node, node.tx, node.tx.buffer, node.tx.tsad, node.tx.tsd
    {
      node.Valid() && Geometry(State()) && rxBuffer.Length == RX_BUFFER_SIZE
    }

    /** The ring with its memory, and the node. */
    ghost function Now(): Machine
      requires node.arp.entries.Length == ARP_CACHE_SIZE
      reads this, rxBuffer, node, node.arp.entries, node.tx
    {
      Machine(rxBuffer[..], State(), node.State(), node.Sent())
    }

    /** The allocated memory may hold anything. */
    constructor (r: nat, max: nat, n: Node, contents: seq<uint8>)
      requires n.Valid() && n.Sent() == [] && |contents| == RX_BUFFER_SIZE
      requires r % 4 == 0 && 14 <= max && max + 11 < r && r + max + 7 < RX_BUFFER_SIZE
      ensures Valid() && node == n && fresh(rxBuffer)
      ensures Now() == Initial(contents, r, max, n.State()) && InOrder(Now()) && Fed(Now(), n.State())
    {
      ringSize, maxFrame, node := r, max, n;
      rxBuffer := new uint8[RX_BUFFER_SIZE](i requires 0 <= i < RX_BUFFER_SIZE => contents[i]);
      rp, wp := 0, 0;
      received, delivered, pending, wrapped := [], [], [], false;
      new;
      assert rxBuffer[..] == contents;
    }

    /** The device is offered a frame. */
    method DeviceReceive(f: Frame, status: uint16, crc: seq<uint8>) returns (taken: bool)
      requires Valid() && Proper(State(), node.ipAddr, Arrive(f, status, crc))
      modifies this, rxBuffer
      ensures Valid() && Now() == Arrived(old(Now()), Arrive(f, status, crc))
      ensures taken <==> DeviceTakes(ringSize, old(rp), old(wp), f)
    {
      hide Readable, Mod, Align4, Advance, Splice, Image, DeviceTakes;
      ghost var g := State();
      taken := DeviceTakes(ringSize, rp, wp, f);
      if taken {
        Store(rxBuffer, wp, Le16(status) + Le16(|f| + 4) + f + crc);
        ImageIs(f, status, crc);
        NextWritePosition(ringSize, wp, |f|);
        wrapped := wrapped || wp + Slot(f) >= ringSize;
        wp := Mod(Align4(wp + |f| + 8), ringSize);
        received, pending := received + [f], pending + [f];
        assert State() == Taken(g, f);
      }
    }

    /** check_rx_buffer: one poll of the driver. */
    method Poll()
      requires Valid() && PollSafe(Now())
      modifies this, rxBuffer, node, node.arp.entries, node.tx, node.tx.buffer, node.tx.tsad, node.tx.tsd
      ensures Valid() && Now() == Polled(old(Now()))
    {
      hide Readable, After, Replies, LeftInBuffer, Splice, Mod, NextOffset, CaprWritten;
      CaprRoundTrip(rp);
      var capr, cbr := Capr(rp), wp;
      if BytesAvail(capr, cbr) > 0 {
        var offset := (capr as int + 16) % 0x1_0000;
        if offset >= RX_BUFFER_SIZE {
          offset := offset - RX_BUFFER_SIZE;
        }
        var header := rxBuffer[offset..offset + 4];
        var status, size := Load16(header, 0), Load16(header, 2);
        if status % 2 == 1 {
          HandOver(offset, size);
        }
      }
    }

    /** The body of check_rx_buffer for what lies at `offset`. */
    method HandOver(offset: nat, size: uint16)
      requires Valid() && DriverReads(Now()) && PollSafe(Now())
      requires offset == rp && size == Load16(rxBuffer[..], rp + 2)
      modifies this, rxBuffer, node, node.arp.entries, node.tx, node.tx.buffer, node.tx.tsad, node.tx.tsd
      ensures Valid() && Now() == Polled(old(Now()))
    {
      hide Readable, After, Replies, LeftInBuffer, Splice, Mod, BytesAvail, Capr, NextOffset, CaprWritten;
      ghost var m, f := Now(), FrameAt(rxBuffer[..], rp);
      assert rxBuffer[offset + 4..offset + 4 + (size - 4)] == f;
      node.HandleNetworkPacket(rxBuffer, offset + 4, size - 4);
      SpanReplaced(m.mem, rxBuffer[..], offset + 4, LeftInBuffer(m.node, f));
      PositionAligned(m.ring, f);
      UpdateCapr(offset, size);
      delivered, pending := delivered + [f], if pending == [] then [] else pending[1..];
      assert State() == HandedOver(m.ring, f);
    }

    /** The driver's new offset and the device's reaction to the CAPR write (rtl8139.c:557-559). */
    method UpdateCapr(offset: nat, size: uint16)
      requires ringSize > 0
      modifies this`rp
      ensures rp == CaprWritten(ringSize, NextOffset(offset, size))
    {
      var next := (offset + size + 4 + 3) / 4 * 4 % 0x1_0000;
      if next >= RX_BUFFER_SIZE {
        next := next - RX_BUFFER_SIZE + 16;
      }
      rp := Mod(((next - 16) % 0x1_0000 + 16) % 0x1_0000, ringSize);
    }

    /** Any interleaving of the device and the driver. */
    method Process(events: seq<Event>)
      requires Valid() && IsRun(Now(), events)
      modifies this, rxBuffer, node, node.arp.entries, node.tx, node.tx.buffer, node.tx.tsad, node.tx.tsd
      ensures Valid() && Now() == Run(old(Now()), events)
      ensures forall start :: old(Fed(Now(), start)) ==> Fed(Now(), start)
      ensures old(InOrder(Now())) && NeverStale(old(Now()), events) ==>
                && InOrder(Now()) && delivered <= received && received[|delivered|..] == pending
                && Offered(old(State()), events) && received == old(received) + Accepted(old(State()), events)
    {
      hide Step, Enabled, Fed, InOrder, Stale, NeverStale, Offered, Accepted;
      ghost var m := Now();
      forall start | Fed(m, start) ensures Fed(Run(m, events), start) {
        NodeIsFed(m, events, start);
      }
      if InOrder(m) && NeverStale(m, events) {
        CleanRun(m, events);
      }
      assert events[0..] == events;
      for i := 0 to |events|
        invariant Valid() && IsRun(Now(), events[i..]) && Run(Now(), events[i..]) == Run(m, events)
      {
        ghost var rest := events[i..];
        assert rest[0] == events[i] && rest[1..] == events[i + 1..];
        EventEnabled(Now(), events[i]);
        match events[i]
        case Arrive(f, status, crc) =>
          var _ := DeviceReceive(f, status, crc);
        case PollOnce =>
          Poll();
      }
    }
  }

  lemma EventEnabled(m: Machine, e: Event)
    requires Enabled(m, e)
    ensures Proper(m.ring, m.node.ip, e) && Shape(m)
    ensures if e.PollOnce? then PollSafe(m) && Step(m, e) == Polled(m) else Step(m, e) == Arrived(m, e)
  {
  }

  lemma ImageIs(f: Frame, status: uint16, crc: seq<uint8>)
    requires |f| + 4 < 0x1_0000
    ensures Image(f, status, crc) == Le16(status) + Le16(|f| + 4) + f + crc
  {
  }

  lemma SpanReplaced(before: seq<uint8>, after: seq<uint8>, p: nat, t: seq<uint8>)
    requires |before| == |after| && p + |t| <= |before|
    requires after[p..p + |t|] == t && after[..p] == before[..p] && after[p + |t|..] == before[p + |t|..]
    ensures after == Splice(before, p, t)
  {
    assert after == after[..p] + after[p..p + |t|] + after[p + |t|..];
  }

  /** Wherever the driver's arithmetic leads, the device ends up at a multiple of 4 in the ring. */
  lemma PositionAligned(g: Ring, f: Frame)
    requires Geometry(g) && |f| + 4 < 0x1_0000
    ensures Geometry(HandedOver(g, f))
  {
    hide NextOffset, CaprWritten;
    OffsetMultiple(g.rp, |f| + 4);
    CaprMultiple(g.r, NextOffset(g.rp, |f| + 4));
  }

  lemma OffsetMultiple(p: nat, size: uint16)
    ensures NextOffset(p, size) % 4 == 0
  {
  }

  lemma CaprMultiple(r: nat, v: uint16)
    requires r > 0 && r % 4 == 0 && v % 4 == 0
    ensures CaprWritten(r, v) % 4 == 0
  {
    hide Mod;
    CaprRoundTrip(v);
    ModKeepsMultiple(v, r);
  }

  lemma {:induction false} ModKeepsMultiple(x: nat, r: nat)
    requires r > 0 && x % 4 == 0 && r % 4 == 0
    ensures Mod(x, r) % 4 == 0
  {
    if x >= r {
      ModKeepsMultiple(x - r, r);
    }
  }
}
