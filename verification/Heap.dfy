/** The bump allocator (memory.c:5-18) and the alignment of the receive buffer it serves
    (rtl8139.c:52, 86-100). */
module Heap {
  import opened Bytes
  import opened RxRing

  /** (size + 3) & ~3 on 32 bits. */
  function Rounded(size: uint32): uint32 {
    (size + 3) % 0x1_0000_0000 / 4 * 4
  }

  lemma RxRounded()
    ensures Rounded(RX_ALLOCATION) == RX_ALLOCATION == 32784
  {
  }

  datatype Region = Region(start: uint32, size: uint32)

  class Heap {
    var heapEnd: uint32
    ghost const base: uint32
    ghost var requests: seq<uint32>   // the sizes asked for, oldest first

    ghost predicate Valid()
      reads this
    {
      heapEnd == EndAfter(base, requests)
    }

    constructor (kernelEnd: uint32)
      ensures Valid() && heapEnd == base == kernelEnd && requests == []
    {
      heapEnd, base, requests := kernelEnd, kernelEnd, [];
    }

    /** kmalloc; both additions wrap silently. */
    method Kmalloc(size: uint32) returns (addr: uint32)
      requires Valid()
      modifies this
      ensures Valid() && requests == old(requests) + [size]
      ensures addr == old(heapEnd) && heapEnd == (addr + Rounded(size)) % 0x1_0000_0000
      ensures Regions(base, requests) == old(Regions(base, requests)) + [Region(addr, size)]
    {
      var rounded := Rounded(size);
      addr := heapEnd;
      heapEnd := (heapEnd + rounded) % 0x1_0000_0000;
      requests := requests + [size];
      assert Init(requests) == old(requests);
    }

    /** The allocations of rtl8139_init: the buffer is allocated twice; the device gets the second
        one's address rounded up to 16. */
    method AllocateRxBuffer() returns (rxBuffer: uint32, dma: uint32)
      requires Valid() && heapEnd + 2 * RX_ALLOCATION < 0x1_0000_0000
      modifies this
      ensures Valid() && requests == old(requests) + [RX_ALLOCATION] + [RX_ALLOCATION]
      ensures rxBuffer == EndAfter(base, old(requests) + [RX_ALLOCATION]) && dma == DmaAddress(rxBuffer)
      ensures rxBuffer == old(heapEnd) + RX_ALLOCATION && heapEnd == rxBuffer + RX_ALLOCATION
      ensures dma % 16 == 0 && rxBuffer <= dma && dma + RX_BUFFER_SIZE <= heapEnd
      ensures dma == rxBuffer <==> old(heapEnd) % 16 == 0
    {
      hide EndAfter, Regions, Rounded, DmaAddress;
      RxRounded();
      rxBuffer := Kmalloc(RX_ALLOCATION);
      rxBuffer := Kmalloc(RX_ALLOCATION);
      dma := AlignForDevice(rxBuffer);
      WindowInside(rxBuffer);
    }

    /** Round up to 16 (rtl8139.c:94-98). */
    static method AlignForDevice(rxBuffer: uint32) returns (dma: uint32)
      ensures dma == DmaAddress(rxBuffer)
    {
      dma := rxBuffer;
      if dma % 16 != 0 {
        dma := (dma + 16) % 0x1_0000_0000 / 16 * 16;
      }
    }
  }

  /** What rtl8139_init asks for: the buffer and 16 bytes to align it. */
  const RX_ALLOCATION: uint32 := RX_BUFFER_SIZE + 16

  /** The address given to the device for the buffer at `rxBuffer` (rtl8139.c:94-98). */
  function DmaAddress(rxBuffer: uint32): uint32 {
    if rxBuffer % 16 == 0 then rxBuffer else (rxBuffer + 16) % 0x1_0000_0000 / 16 * 16
  }

  /** The device's window is 16-aligned and lies inside the allocation; it starts where the driver
      reads exactly when the allocation is 16-aligned. */
  lemma WindowInside(rxBuffer: uint32)
    requires rxBuffer + RX_ALLOCATION < 0x1_0000_0000
    ensures var dma := DmaAddress(rxBuffer);
            && dma % 16 == 0 && rxBuffer <= dma && dma + RX_BUFFER_SIZE <= rxBuffer + RX_ALLOCATION
            && (dma == rxBuffer <==> rxBuffer % 16 == 0)
  {
  }

  // ---------------------------------------------------------------- any sequence of allocations

  /** `size` rounded up to a multiple of 4. */
  function Up4(size: nat): nat {
    (size + 3) / 4 * 4
  }

  /** The bytes a sequence of requests takes up. */
  function Total(sizes: seq<uint32>): nat {
    if sizes == [] then 0 else Total(Init(sizes)) + Up4(Last(sizes))
  }

  /** heap_end after the requests `sizes`. */
  function EndAfter(base: uint32, sizes: seq<uint32>): uint32 {
    if sizes == [] then base else (EndAfter(base, Init(sizes)) + Rounded(Last(sizes))) % 0x1_0000_0000
  }

  /** The regions handed out. */
  function Regions(base: uint32, sizes: seq<uint32>): seq<Region> {
    if sizes == [] then []
    else Regions(base, Init(sizes)) + [Region(EndAfter(base, Init(sizes)), Last(sizes))]
  }

  lemma RoundedIsUp4(size: uint32)
    ensures Up4(size) % 4 == 0 && size <= Up4(size) < size + 4
    ensures Up4(size) < 0x1_0000_0000 ==> Rounded(size) == Up4(size)
  {
  }

  /** As long as nothing wraps, heap_end is the base plus everything requested. */
  lemma {:induction false} EndIsTotal(base: uint32, sizes: seq<uint32>)
    requires base + Total(sizes) < 0x1_0000_0000
    ensures EndAfter(base, sizes) == base + Total(sizes)
  {
    hide Up4, Rounded;
    if sizes != [] {
      RoundedIsUp4(Last(sizes));
      EndIsTotal(base, Init(sizes));
    }
  }

  predicate Inside(r: Region, base: nat, end: nat) {
    base <= r.start && r.start + r.size <= end
  }

  /** As long as nothing wraps, the regions follow one another without overlap inside the heap,
      each of the size asked for. */
  lemma {:induction false} RegionsDisjoint(base: uint32, sizes: seq<uint32>)
    requires base + Total(sizes) < 0x1_0000_0000
    ensures var rs := Regions(base, sizes);
            && |rs| == |sizes|
            && (forall k :: 0 <= k < |rs| ==> rs[k].size == sizes[k] && Inside(rs[k], base, base + Total(sizes)))
            && (forall j, k :: 0 <= j < k < |rs| ==> rs[j].start + rs[j].size <= rs[k].start)
  {
    hide Up4, Rounded, EndAfter;
    if sizes != [] {
      RoundedIsUp4(Last(sizes));
      RegionsDisjoint(base, Init(sizes));
      EndIsTotal(base, Init(sizes));
    }
  }

  /** And without waste: the first starts at the base, and each of the others less than 4 bytes after
      the one before it. */
  lemma {:induction false} RegionsTight(base: uint32, sizes: seq<uint32>)
    requires base + Total(sizes) < 0x1_0000_0000
    ensures var rs := Regions(base, sizes);
            && |rs| == |sizes|
            && (rs == [] ==> Total(sizes) == 0)
            && (rs != [] ==> rs[0].start == base && base + Total(sizes) < Last(rs).start + Last(rs).size + 4)
            && (forall k :: 0 < k < |rs| ==> rs[k].start < rs[k - 1].start + rs[k - 1].size + 4)
  {
    hide Up4, Rounded, EndAfter;
    if sizes != [] {
      RoundedIsUp4(Last(sizes));
      RegionsTight(base, Init(sizes));
      EndIsTotal(base, Init(sizes));
    }
  }

  lemma {:induction false} TotalAligned(sizes: seq<uint32>)
    ensures Total(sizes) % 4 == 0
  {
    if sizes != [] {
      TotalAligned(Init(sizes));
      RoundedIsUp4(Last(sizes));
    }
  }

  /** From a 4-aligned base every region is 4-aligned. */
  lemma {:induction false} RegionsAligned(base: uint32, sizes: seq<uint32>)
    requires base + Total(sizes) < 0x1_0000_0000 && base % 4 == 0
    ensures |Regions(base, sizes)| == |sizes|
    ensures forall k :: 0 <= k < |sizes| ==> Regions(base, sizes)[k].start % 4 == 0
  {
    hide Up4, Rounded, EndAfter;
    if sizes != [] {
      RegionsAligned(base, Init(sizes));
      EndIsTotal(base, Init(sizes));
      TotalAligned(Init(sizes));
    }
  }

  /** After any allocations `sizes` from a 16-aligned base, the driver reads the receive buffer at
      the address given to the device exactly when those allocations, rounded, add up to a multiple
      of 16. */
  lemma DeviceAndDriverAgree(base: uint32, sizes: seq<uint32>)
    requires base % 16 == 0 && base + Total(sizes) + 2 * RX_ALLOCATION < 0x1_0000_0000
    ensures var rxBuffer := EndAfter(base, sizes + [RX_ALLOCATION]);
            DmaAddress(rxBuffer) == rxBuffer <==> Total(sizes) % 16 == 0
  {
    hide EndAfter, DmaAddress;
    TotalAppend(sizes, RX_ALLOCATION);
    hide Total;
    EndIsTotal(base, sizes + [RX_ALLOCATION]);
    WindowInside(base + Total(sizes) + RX_ALLOCATION);
    MultipleOf16(base, Total(sizes));
  }

  lemma TotalAppend(sizes: seq<uint32>, size: uint32)
    ensures Total(sizes + [size]) == Total(sizes) + Up4(size)
  {
    assert Init(sizes + [size]) == sizes;
  }

  lemma MultipleOf16(base: uint32, total: nat)
    requires base % 16 == 0
    ensures (base + total + RX_ALLOCATION) % 16 == 0 <==> total % 16 == 0
  {
  }
}
