/** The transmit side of the RTL8139 driver (rtl8139.c:14-15, 220-370): four slots used in turn. */
module Transmit {
  import opened Bytes

  const TX_BUFFER_SIZE := 1536

  class TxRing {
    const buffer: array2<uint8>
    const tsad: array<int>   // which slot each descriptor address register points at
    const tsd: array<int>    // the length written to each transmit status register
    var current: int
    ghost var accepted: seq<seq<uint8>>

    /** Slot `j` still holds the packet `p` and its descriptor announces it. */
    ghost predicate SlotHolds(j: nat, p: seq<uint8>)
      requires j < 4 && tsd.Length == tsad.Length == 4
      requires buffer.Length0 == 4 && buffer.Length1 == TX_BUFFER_SIZE
      reads buffer, tsad, tsd
    {
      && |p| <= TX_BUFFER_SIZE && tsd[j] == |p| && tsad[j] == j
      && forall i :: 0 <= i < |p| ==> buffer[j, i] == p[i]
    }

    /** The last four accepted packets are all present, the k-th in slot k mod 4. */
    ghost predicate Valid()
      reads this, buffer, tsad, tsd
    {
      && tsd != tsad && tsd.Length == tsad.Length == 4
      && buffer.Length0 == 4 && buffer.Length1 == TX_BUFFER_SIZE
      && current == |accepted| % 4
      && forall k :: 0 <= k < |accepted| && |accepted| - 4 <= k ==> SlotHolds(k % 4, accepted[k])
    }

    constructor ()
      ensures Valid() && accepted == []
      ensures fresh(this) && fresh(buffer) && fresh(tsad) && fresh(tsd)
    {
      buffer := new uint8[4, TX_BUFFER_SIZE]((_, _) => 0);
      tsad := new int[4](_ => 0);
      tsd := new int[4](_ => 0);
      current := 0;
      accepted := [];
    }

    /** rtl8139_send_packet up to the descriptor write: oversized packets change nothing, every
        other packet goes to slot k mod 4 when it is the k-th accepted one. */
    method SendPacket(data: array<uint8>, off: nat, length: nat)
      requires Valid() && off + length <= data.Length
      modifies this, buffer, tsad, tsd
      ensures Valid()
      ensures accepted == if length <= TX_BUFFER_SIZE then old(accepted) + [old(data[off..off + length])]
                          else old(accepted)
      ensures length > TX_BUFFER_SIZE ==> unchanged(this) && unchanged(buffer) && unchanged(tsad) && unchanged(tsd)
      ensures forall j, i :: 0 <= j < 4 && 0 <= i < TX_BUFFER_SIZE && (j != old(current) || length <= i)
                ==> buffer[j, i] == old(buffer[j, i])
    {
      if length > TX_BUFFER_SIZE {
        return;
      }
      ghost var packet := data[off..off + length];
      for i := 0 to length
        invariant current == old(current)
        invariant forall k :: 0 <= k < i ==> buffer[current, k] == packet[k]
        invariant forall j, k :: 0 <= j < 4 && 0 <= k < TX_BUFFER_SIZE && (j != current || i <= k)
                    ==> buffer[j, k] == old(buffer[j, k])
        invariant unchanged(this) && unchanged(tsad) && unchanged(tsd)
      {
        buffer[current, i] := data[off + i];
      }
      tsad[current] := current;
      tsd[current] := length;
      assert SlotHolds(current, packet);
      forall k | 0 <= k < |accepted| && |accepted| - 3 <= k ensures SlotHolds(k % 4, accepted[k]) {
        assert k % 4 != current;
        assert old(SlotHolds(k % 4, accepted[k]));
      }
      current := (current + 1) % 4;
      accepted := accepted + [packet];
    }
  }
}
