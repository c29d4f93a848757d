# AIMiniOS: a verified model of the network stack, the console and the allocator

AIMiniOS is a small x86 kernel with an RTL8139 driver, ARP, ICMP echo, an earlier TCP kept as
`tcp.c.bak`, a VGA text terminal and a serial console.  This project models the parts of it that
compute something and proves what they are for.

The code is modelled in its own form: the ARP cache, the transmit slots, the receive ring, the
terminal, the serial port, the heap and the TCP connection are classes whose methods update fields
and arrays in place with the source's loops; the packet builders overwrite byte buffers field by
field with little-endian stores and `htons`/`htonl`.  Each method is proved against a function on
values, and the theorems are about those functions.

| file | what it holds |
|---|---|
| `Bytes.dfy` | machine integers, byte order, `memcpy`, `memset`, `memcmp` |
| `Checksum.dfy` | `network_checksum`, `tcp_checksum` and the arithmetic modulo 65535 behind them (sections 1 and 2 of RFC 1071) |
| `Arp.dfy` | the sixteen-slot cache and the theorem about every history of updates |
| `Transmit.dfy` | the four transmit slots |
| `Frames.dfy` | frames on the wire, and what one received frame does to a node, as functions |
| `Network.dfy` | the node: the code of `network.c` and `arp.c`, proved against `Frames.dfy` |
| `Ping.dfy` | echo request, reply and display end to end, and section 3 of RFC 1624 |
| `Wire.dfy` | the node on the wire: which frames, byte by byte, it answers, learns from and displays, and the bytes it sends |
| `Lan.dfy` | any number of nodes on a lossy, duplicating, reordering wire ("Packet Reception" of RFC 826) |
| `RxRing.dfy` | the receive ring: geometry, registers and bookkeeping |
| `RxRuns.dfy` | runs of the ring with its memory: what the driver reads is what lies at the read position |
| `Receive.dfy` | the code of the device and the driver, proved against `RxRuns.dfy` |
| `Numerals.dfy` | numbers and dotted quads as text, and reading them back |
| `Terminal.dfy` | the terminal as a 25-row window over an unbounded page |
| `Serial.dfy` | the serial printers |
| `Heap.dfy` | the bump allocator and the alignment of the receive buffer |
| `Tcp.dfy` | one connection of `tcp.c.bak`: its segments and its receive stream |
| `TcpWire.dfy` | the same on the wire: segments with options and padding as any peer sends them, acknowledgements as any peer checks them |

## Main results

- **Checksums.** `network_checksum` is the complement of the one's-complement sum for every buffer up
  to 131074 bytes, and no longer bound would do.  Summing byte-swapped words, as `tcp_checksum` does,
  gives the same checksum for every header and every data length.  Every header and segment the
  kernel builds verifies.
- **ARP cache.** After any history of updates, slots 1 to 15 hold the 2nd to 16th distinct addresses,
  slot 0 the last address that is none of those, and each slot the latest MAC of its address.
- **The wire.** In every state of every run, with frames lost, duplicated, reordered, padded or
  overheard, each ARP packet in flight and each cache entry names the true owner.  From nothing, an
  address exchange followed by a ping makes the pinging node display `hello,world`.  Deliveries are
  bounded by the frames injected, so there are no packet storms.
- **Bytes.** The theorems on frames are also stated without the model's own readers and builders: an ARP
  or echo request given by its bytes is answered, whomever it was sent to, with the bytes shown; every
  frame that is none of the kinds listed changes nothing; requests, replies and acknowledgements are
  written out byte by byte, and their checksums verify as a receiver computes them.
- **Receive ring.** Over every interleaving of arriving frames and polls, across any number of wraps
  and although an ARP reply is built in place inside the ring, the frames handed over are at every
  point a prefix of the frames received, in order, once each and unchanged, exactly when no poll
  finds the ring empty with the status bit of an old frame still set.
- **Terminal.** After any text, the screen is the last 25 rows of the text laid out on an unbounded
  page, and the cursor is that page's cursor.
- **Numbers.** The printers of the terminal and of the serial port print the same canonical digits,
  which read back as the number; every address survives printing and `ip_str_to_int`.
- **TCP.** Facing a peer that sends in order, with any options and in pieces of any size, the callback gets exactly the peer's stream, and each
  segment is acknowledged by exactly what it completes.

## What the code does not do

Where a natural expectation fails, the exact condition is proved.

- The driver believes the ring to be empty exactly when the write position is 16 bytes short of the
  read position (`DriverSeesNothing`).  If frames are pending then, it never recovers
  (`StallIsPermanent`), and this happens on the 8K ring with ordinary frames (`StallReachable`).  From
  every other state polling delivers everything (`PollsDrain`).
- A poll of the empty ring does nothing exactly when the status bit left at the read position is clear
  (`EmptyPollExact`); otherwise what lies there is handed over, and first in, first out fails
  (`FirstInFirstOut`).  The kernel polls in a loop (kernel.c:241, 280), so empty polls are ordinary.
  None is misled when every poll finds a frame (`CleanWhenPollsFind`), nor on zeroed memory before the
  first wrap (`CleanBeforeWrap`).  When polled frames go exactly once round the ring, the next poll
  hands the first one over again (`LapReplays`): on the 8K ring eight frames of 1016 bytes do
  (`ReplayReachable`).
- A TCP data segment is delivered whatever its sequence number, so a retransmitted segment reaches the
  callback again each time (`RetransmissionsDelivered`); the connection stays in step exactly when the
  number is the expected one (`DataStep`).  The acknowledgement of a FIN covers the data that came
  with it exactly when there was none (`FinStep`).
- The address given to the device equals the buffer the driver reads exactly when the heap is
  16-aligned at that point (`AllocateRxBuffer`); `kernel_end` is page-aligned (link.ld:57).
- The name `RTL8139_RCR_RBLEN_32K` and the driver's constant say 32K, but the value programmed
  (rtl8139.h:41) selects 8K in the device.  The ring size is therefore a parameter, small enough that
  the driver's own wrap (rtl8139.c:558) is never taken for a received frame; with 32K it would land 16 bytes
  past the wrapped position.
- The comment at rtl8139.c:86 promises a 16-aligned receive buffer; only the address given to the
  device is aligned, not the pointer the driver reads through.

## Model

| member | source | states |
|---|---|---|
| Bytes.HtonsInverse | byteorder.h:7-13 | `htons` undoes itself, so `ntohs` may be the same function |
| Bytes.HtonlInverse | byteorder.h:15-24 | `htonl` undoes itself, so `ntohl` may be the same function |
| Bytes.HtonsStored | byteorder.h:7-9 | storing `htons(x)` on a little-endian machine leaves `x` in network order |
| Bytes.HtonlStored | byteorder.h:15-20 | storing `htonl(x)` on a little-endian machine leaves `x` in network order |
| Bytes.NtohlLoaded | byteorder.h:22-24 | loading a field and applying `ntohl` yields the number whose network-order bytes it holds |
| Bytes.NetworkOrder | byteorder.h:7-20 | the most significant byte of a field comes first on the wire |
| Bytes.Memcpy | memory.c:34-41 | the destination span becomes the source's old bytes, or, when it starts inside the source, the bytes before it repeated; nothing else changes |
| Bytes.Memset | memory.c:26-32 | the span is filled, everything else is kept |
| Bytes.Memcmp | memory.c:43-54 | zero exactly for equal spans, otherwise the difference of the first two bytes that differ |
| Checksum.NetworkChecksum | network.c:168-189 | for every buffer the complement of the folded sum modulo 2^32, and up to 131074 bytes the RFC 1071 checksum |
| Checksum.ComplementFolded | network.c:183-188 | the carry loop ends and leaves the one's-complement value of the sum |
| Checksum.FoldLoopTwoRounds | network.c:183-186 | two rounds always suffice, and 2^32-1 needs both |
| Checksum.AccumulatorExact | network.c:169-181 | the 32-bit accumulator holds the sum of every buffer of a length exactly when the length is at most 131074, where 2^32-1 is reached |
| Checksum.VerifiesIff | network.c:168-189 | a buffer checksums to 0 exactly when its sum is a multiple of 65535 and some byte is not 0; to 0xFFFF exactly when all are 0 |
| Checksum.WordSumByBytes | network.c:173-181 | the sum counts bytes at even offsets once and at odd offsets 256 times |
| Checksum.StoredChecksumVerifies | network.c:411-417 | zeroing a field, computing and storing the checksum in it makes the span verify |
| Checksum.ErrorDetection | network.c:168-189 | overwriting an aligned word of a verifying buffer goes unnoticed exactly when old and new word are congruent modulo 65535 and something nonzero remains |
| Checksum.SplitChecksum | network.c:168-189 | the checksum of a buffer split at an even offset follows from those of its parts |
| Checksum.ByteOrderIndependence | tcp.c.bak:247-290 | summing byte-swapped words and swapping the result is summing the words as they are |
| Checksum.AddSwappedWords | tcp.c.bak:261-277 | the three summing loops add the byte-swapped words of their part |
| Checksum.PseudoHeaderLength | tcp.c.bak:251-258 | the length field counts the 20-byte header and the data |
| Checksum.TcpChecksum | tcp.c.bak:247-290 | for every header and data length, odd or even, `htons` of the result is the RFC 1071 checksum of addresses, protocol, segment length, header and data |
| Arp.ArpCache.Clear | arp.c:25-30 | every slot becomes invalid and keeps everything else |
| Arp.ArpCache.GetMac | arp.c:140-155 | the MAC of the first valid slot with the address, or none |
| Arp.ArpCache.Update | arp.c:158-191 | the slot of the address, else the first free slot, else slot 0 is overwritten, and nothing else |
| Arp.UpdatedFound | arp.c:140-191 | whatever the cache held, an updated address is found with its new MAC |
| Arp.CacheHistory | arp.c:158-191 | slots 1 to 15 hold the 2nd to 16th distinct addresses of the whole history, slot 0 the last address not among them, every slot the latest MAC |
| Arp.LookupAfterHistory | arp.c:140-191 | a hit is never stale, and exactly the settled addresses and the last other one hit |
| Arp.CacheIsMap | arp.c:140-191 | with at most sixteen distinct addresses the cache is the unbounded map |
| Arp.SeventeenthEvicts | arp.c:185-187 | the seventeenth distinct address takes the place of the first and of no other |
| Transmit.TxRing.constructor | rtl8139.c:14-15 | no packet accepted, slot 0 next |
| Transmit.TxRing.SendPacket | rtl8139.c:294-370 | an oversized packet changes nothing; the k-th accepted one goes to slot k mod 4, touching only its bytes, and the last four are always present with their lengths |
| Frames.FieldsAsLoaded | byteorder.h:7-24 | reading a field by its bytes is `ntohs` or `ntohl` of the little-endian load |
| Network.Node.SendArpRequest | arp.c:33-70 | exactly one frame is sent, the ARP request for the target |
| Network.Node.ResolveMac | arp.c:194-216 | our own MAC for our own address, else the cache's answer |
| Network.Node.SendEchoRequest | network.c:444-540 | nothing is sent when the MAC is unknown, else exactly the echo request to it |
| Network.Node.HandleNetworkPacket | network.c:68-96 | new state, frames sent and bytes left in the buffer are those the received frame calls for; memory outside the packet is untouched |
| Network.Node.HandleArpPacket | arp.c:73-137 | a valid ARP packet updates the cache; a request for us becomes its own reply in place and is sent |
| Network.Node.HandleIpPacket | network.c:99-165 | short packets, packets for others and other protocols have no effect |
| Network.Node.HandleIcmpPacket | network.c:218-357 | an echo request is answered, an echo reply displayed, everything else ignored |
| Network.Node.SendEchoReply | network.c:360-441 | exactly one 54-byte frame is sent, the answer to the request |
| Network.PutEthHeader | network.c:470-474 | the header in network order |
| Network.PutArpBody | arp.c:51-65 | the ARP body in network order, behind what was there |
| Network.BuildEchoRequest | network.c:466-509 | the buffer's first 54 bytes are the sealed echo request |
| Network.PutIpHeader | network.c:476-505 | the header in network order with a zero checksum |
| Network.SealHeaders | network.c:504-509 | both checksums are filled in and nothing else changes in the 54 bytes |
| Network.SwapMacs | network.c:377-381 | source and destination MAC exchanged, the rest kept |
| Network.EditIpHeader | network.c:383-416 | addresses exchanged, total length 40, checksum 0, every other byte kept |
| Network.EditIcmp | network.c:395-405 | an echo reply with the request's identifier and sequence and the greeting |
| Network.RewriteEcho | network.c:366-417 | the edits together turn the copy of a request into its sealed answer |
| Network.RewriteArp | arp.c:118-131 | the field-by-field edits turn a request into its reply inside the same buffer |
| Network.ReadMessage | network.c:306-319 | the displayed text: up to the first zero, a dot for each unprintable byte |
| Ping.RequestVerifies | network.c:504-509 | both headers of every echo request verify |
| Ping.ReplyVerifies | network.c:411-417 | both headers of every answer verify, whatever the request |
| Ping.RequestFields | network.c:470-502 | every field of a padded request but the checksums, where the receiver reads it |
| Ping.ReplyFields | network.c:377-409 | every field of a padded reply but the checksums, in terms of the request |
| Ping.MessageUpToZero | network.c:306-319 | printable text up to a zero byte is displayed unchanged |
| Ping.PingAnswered | network.c:68-165 | for any two nodes and any padding the request makes the peer send one 54-byte frame, addresses exchanged, identifier and sequence kept, both headers verifying |
| Ping.PingRoundTrip | network.c:264-320 | that reply, padded or not, takes the echo-reply branch, sends nothing and shows exactly `hello,world` |
| Ping.ReplyHeaderChecksum | network.c:383-417 | if the incoming header verifies, the new checksum differs from the old exactly by the total-length change modulo 65535; with length 40 it is the old one up to 0x0000/0xFFFF |
| Wire.ArpLearned | arp.c:89-112 | any Ethernet and IPv4 ARP packet is learned from, whomever it asks |
| Wire.ArpRequestAnswered | arp.c:114-136 | a request for our address is answered whoever it was sent to, by exactly these bytes, padding kept, unless longer than a transmit slot |
| Wire.ArpSilent | arp.c:115 | every other ARP packet is left alone and not answered |
| Wire.EchoAnswered | network.c:264-428 | an echo request is answered by exactly these 54 bytes, the IP header copied but for length, checksum and exchanged addresses |
| Wire.EchoRequestBytes | network.c:470-512 | the echo request, byte by byte |
| Wire.ArpRequestBytes | arp.c:43-65 | the ARP request, byte by byte |
| Wire.EchoDisplayed | network.c:283-320 | an echo reply for us is displayed and nothing is sent |
| Wire.MessageExact | network.c:306-319 | what is displayed, character by character, with or without a zero byte |
| Wire.NothingElse | network.c:68-165 | no other frame is learned from, displayed, answered or changed |
| Wire.ReadableBytes | network.c:218-261 | which frames the handlers can be handed |
| Wire.ResolveExact | arp.c:194-216 | our own MAC for our own address, any other by the whole history of the cache |
| Lan.ArpReplyParts | arp.c:118-131 | every field of the reply in terms of the request |
| Lan.ArpRequestRead | arp.c:38-65 | a receiver reads the request as built, addressed to everyone |
| Lan.ArpReplyRead | arp.c:114-131 | the in-place reply is an ARP reply naming the replying node |
| Lan.ArpRoundTrip | arp.c:33-137 | a request makes the target learn the asker and send one reply to it, which makes the asker learn the target and send nothing |
| Lan.AskThenPing | network.c:444-540 | from empty knowledge, the address exchange and then a ping end in the greeting being displayed |
| Lan.RepliesTruthful | arp.c:114-137 | every answer to a truthful frame is truthful |
| Lan.StepKeepsInv | arp.c:73-137 | each step of the network keeps every sender pair in flight and every cache entry true |
| Lan.RunsAreTruthful | arp.c:33-137 | so in every state of every run, with loss, duplication, reordering and eavesdropping |
| Lan.ResolvedIsOwner | arp.c:194-216 | with distinct addresses whatever resolves is the owner's MAC |
| Lan.PingAfterAnyRun | network.c:444-540 | after any run a ping that resolves goes to the owner and is answered and displayed |
| Lan.DeliveriesReadable | network.c:68-165 | no node is ever handed a frame outside what its handlers can read |
| Lan.OnlyTargetReplies | network.c:264-283 | only the node a request is for answers, once, never with a request |
| Lan.AtMostOneAnswer | arp.c:114-136 | a delivery to any set of nodes causes at most one frame, and only in answer to a request |
| Lan.DeliverDecreases | arp.c:114-136 | consuming a frame strictly decreases twice the requests plus the others |
| Lan.NoPacketStorm | network.c:68-165 | over any run deliveries are bounded by what was on the wire plus twice what was injected |
| RxRing.Align4Masked | rtl8139.c:557 | the mask yields the next multiple of four |
| RxRing.CaprRoundTrip | rtl8139.c:539 | adding 16 to what CAPR reads gives the read position in 16 bits |
| RxRing.DriverSeesNothing | rtl8139.c:529-538 | the computed number of bytes is 0 exactly when the write position is 16 short of the read position |
| RxRing.TakesWhileRoom | rtl8139.c:122-131 | the device's rule on its two registers takes a frame exactly when it does not fill the ring |
| RxRing.NextReadPosition | rtl8139.c:557-559 | the value written to CAPR makes the device's read position the next slot, and the driver's own wrap is not taken |
| RxRing.TakenOk | rtl8139.c:122-131 | storing a frame keeps every pending frame intact and appends it |
| RxRing.GivenOk | rtl8139.c:543-559 | whatever was done to the oldest frame's bytes, the rest stay intact in order |
| RxRing.RunTakes | rtl8139.c:122-131 | over any run the device receives exactly the frames there is room for, in order |
| RxRing.NeverStallsAfterDelivery | rtl8139.c:529-538 | handing over a frame frees enough room that the driver does not stall next |
| RxRuns.DecisionExact | rtl8139.c:529-547 | the driver reads exactly when it is not 16 bytes behind and a frame is pending or the old status bit is set |
| RxRuns.PollPending | rtl8139.c:543-559 | a poll that finds a frame pending hands over exactly that frame, from memory, and leaves the rest intact |
| RxRuns.ArrivalStored | rtl8139.c:122-131 | the device's register rule and the bytes it writes append the frame exactly when it does not fill the ring |
| RxRuns.EmptyPollExact | rtl8139.c:543-554 | a poll of the empty ring does nothing exactly when the old status bit is clear; otherwise it hands over what was not received |
| RxRuns.ReadingPoll | rtl8139.c:539-559 | what every poll that reads does, misled or not, from memory and size field: the bytes handed over, the span that may change, the next position with both wraps |
| RxRuns.CleanStep | rtl8139.c:523-563 | any step but a misled poll keeps the ring in order and does what the bookkeeping says |
| RxRuns.FirstInFirstOut | rtl8139.c:523-563 | over every run of the ring with its memory, the frames handed over are at every point a prefix of those received exactly when no poll is misled |
| RxRuns.CleanRun | rtl8139.c:523-563 | then what was not handed over is pending and intact, and what was received are the frames there was room for |
| RxRuns.CleanWhenPollsFind | rtl8139.c:523-563 | no poll is misled when every poll finds a frame pending |
| RxRuns.CleanBeforeWrap | rtl8139.c:543-547 | no poll is misled on zeroed memory before the write position first comes round |
| RxRuns.NodeIsFed | rtl8139.c:554 | in every run, misled or not, the node's state and answers are what the frames handed over call for |
| RxRuns.PollsDrain | rtl8139.c:523-563 | unless stalled, as many polls as pending frames deliver all of them |
| RxRuns.StallIsPermanent | rtl8139.c:529-538 | from a stalled state no run changes anything: ring, memory or node |
| RxRuns.StallReachable | rtl8139.c:529-538 | a concrete run of the 8K ring, from any memory contents, that ends stalled |
| RxRuns.WholeLap | rtl8139.c:543-559 | polled frames that go exactly once round the ring leave the first one at the read position |
| RxRuns.LapReplays | rtl8139.c:538-554 | then the next poll hands the first frame over again, so first in, first out fails |
| RxRuns.ReplayReachable | rtl8139.c:538-554 | a concrete run of the 8K ring, from any memory contents, that hands a frame over twice |
| Receive.Nic.constructor | rtl8139.c:86-100 | an empty ring in order, whatever the allocated memory holds |
| Receive.Nic.DeviceReceive | rtl8139.c:122-131 | one arrival changes ring and memory as the device's rule says |
| Receive.Nic.Poll | rtl8139.c:523-563 | one poll does exactly what registers and memory call for, on an empty ring too |
| Receive.Nic.HandOver | rtl8139.c:548-559 | what lies at the read position, CRC stripped, is handled inside the ring |
| Receive.Nic.UpdateCapr | rtl8139.c:557-559 | the driver's 16-bit arithmetic and the device's reaction to the write |
| Receive.Nic.Process | rtl8139.c:523-563 | any interleaving of arrivals and polls on the objects is the run of the model, so the node gets the received frames in order, once each, unless a poll is misled |
| Numerals.DigitCharacters | serial.c:230 | the digit characters |
| Numerals.DigitsReadBack | serial.c:108-119 | the digits printed read back as the number, in every base |
| Numerals.NoLeadingZero | terminal.c:125-128 | only 0 is printed with a leading zero |
| Numerals.Canonical | serial.c:202-253 | a digit string without a leading zero is what its value prints as |
| Numerals.BufferBounds | serial.c:109-118 | at most 10 decimal digits for 32 bits and at most 31 digits for 31 bits in any base |
| Numerals.BinaryNeeds31 | serial.c:231-250 | base 2 needs 31 digits, so the 32-byte buffer is tight |
| Numerals.PushDigits | terminal.c:130-136 | the pushed characters are the number's digits, last one first |
| Numerals.ScanPrinted | ipv4.c:4 | a conversion reads exactly the number printed and leaves the rest |
| Numerals.BitOrBits | ipv4.c:5 | a bit of the or of two numbers is set exactly when it is set in one of them |
| Numerals.QuadParsed | ipv4.c:2-6 | any four numbers with dots, whatever follows: each shifted into place modulo 2^32 and or-ed |
| Numerals.QuadOnly | ipv4.c:4 | nothing else sets all four numbers |
| Numerals.DottedQuadText | network.c:206-215 | the dots of a printed address |
| Numerals.DottedQuadRoundTrip | ipv4.c:2-6 | `ip_str_to_int` of a printed address is its `htonl` |
| Terminal.VgaEntryBits | terminal.c:15-24 | the cell is what the shifts and ors of make_color and make_vgaentry compute, sign extension included |
| Terminal.CellHolds | terminal.c:20-24 | the cell holds the character, white on black |
| Terminal.ScreenText | terminal.c:42-85 | row y shows line y, or one of the last 25 lines once they no longer fit |
| Terminal.CutAt80 | terminal.c:68-70 | line k of a paragraph is its characters 80k to 80k+79 |
| Terminal.HexCharacters | terminal.c:147-159 | the lower-case digit characters and the prefix |
| Terminal.FeedShows | terminal.c:47-61 | a row shift is what a new line does to the window over the page |
| Terminal.CellShows | terminal.c:65-66 | the cell written is the page's next character, and no other cell changes |
| Terminal.LinesAfterNewline | terminal.c:46-48 | what follows a newline is laid out as on a new page |
| Terminal.LinesOfParagraph | terminal.c:68-70 | text without a newline is cut every 80 characters |
| Terminal.Terminal.constructor | terminal.c:230-242 | a blank screen, nothing written |
| Terminal.Terminal.Clear | terminal.c:27-39 | a blank screen, cursor at the origin |
| Terminal.Terminal.Scroll | terminal.c:51-59 | the nested loops move every row up by one and blank the last |
| Terminal.Terminal.LineFeed | terminal.c:47-61 | next row, or a scroll on the last one |
| Terminal.Terminal.PutChar | terminal.c:42-85 | screen and cursor stay the window over the text with the character appended |
| Terminal.Terminal.WriteString | terminal.c:88-92 | the whole string is appended to the text |
| Terminal.Terminal.WriteDec | terminal.c:124-141 | the canonical decimal is appended |
| Terminal.Terminal.WriteHex | terminal.c:143-165 | "0x" and the canonical lower-case hexadecimal are appended |
| Terminal.Terminal.PrintIp | network.c:206-215 | the dotted quad is appended |
| Serial.ExpandedAppend | serial.c:61-66 | a string goes out character by character |
| Serial.ExpandedCharacter | serial.c:55-57 | a newline goes out followed by a carriage return, any other character alone |
| Serial.SignedReadBack | serial.c:202-206 | a minus sign exactly for negative numbers, and the rest reads as the magnitude |
| Serial.Serial.Putc | serial.c:47-58 | a carriage return follows a newline, nothing follows anything else |
| Serial.Serial.WriteString | serial.c:61-66 | the string goes out with its newlines expanded |
| Serial.Serial.WriteDec | serial.c:108-119 | the backward fill of the 12-byte buffer prints the canonical decimal |
| Serial.Serial.WriteInt | serial.c:202-253 | sign and canonical digits in every base from 2 to 16, within the 32-byte buffer |
| Serial.Serial.FillDigits | serial.c:230-250 | fill and in-place reversal leave the digits and the terminating zero |
| Serial.ReversePrefix | serial.c:220-225 | the swap loop reverses the prefix and keeps the rest |
| Serial.Serial.PrintIp | serial.c:122-199 | the same dotted quad as the terminal's |
| Serial.Serial.PrintOctet | serial.c:126-141 | the canonical decimal of an octet |
| Heap.Heap.Kmalloc | memory.c:9-18 | the old end is returned and the next region recorded there, with 32-bit wrap |
| Heap.WindowInside | rtl8139.c:94-98 | the device's window is 16-aligned, inside the allocation, and starts at it exactly when it is 16-aligned |
| Heap.Heap.AllocateRxBuffer | rtl8139.c:52-100 | the 16-aligned window lies inside its 32784 bytes, and equals the driver's buffer exactly when the heap was 16-aligned |
| Heap.EndIsTotal | memory.c:9-18 | below 2^32 the heap end is the base plus everything requested, rounded |
| Heap.RegionsDisjoint | memory.c:9-18 | below 2^32 the regions are in order, disjoint, inside the heap and as large as asked for |
| Heap.RegionsTight | memory.c:9-18 | each region starts less than 4 bytes after the one before it, the first at the base |
| Heap.RegionsAligned | memory.c:9-18 | from a 4-aligned base every region is 4-aligned |
| Heap.DeviceAndDriverAgree | rtl8139.c:88-100 | after any earlier allocations from a 16-aligned base, the address given to the device is the driver's buffer exactly when those allocations add up to a multiple of 16 |
| Tcp.WrapIs | tcp.c.bak:467 | the 32-bit sums of the model are sums modulo 2^32 |
| Tcp.SegmentVerifies | tcp.c.bak:414-442 | in every segment built both checksums verify, the TCP one over addresses, protocol 6, length 20 and the header |
| Tcp.SegmentChecked | tcp.c.bak:251-258 | and as the receiver checks it, from the fields of the frame alone |
| Tcp.AckFrameFacts | tcp.c.bak:403-446 | an acknowledgement names both ends, both numbers, only the ACK flag and the window, and verifies |
| Tcp.Connection.HandlePacket | tcp.c.bak:348-577 | connection, delivered bytes and frames sent after any packet in any state |
| Tcp.Connection.HandleData | tcp.c.bak:459-513 | pushed data goes to the callback, if any, and is acknowledged by its own number |
| Tcp.Connection.FindData | tcp.c.bak:460-463 | the 16-bit length arithmetic finds exactly the payload |
| Tcp.Connection.SendAck | tcp.c.bak:403-446 | exactly the acknowledgement of the current fields is sent |
| Tcp.PutTcpHeader | tcp.c.bak:429-438 | the header in network order with a zero checksum |
| Tcp.SealIpAndTcp | tcp.c.bak:426-442 | both checksums are filled in and nothing else changes |
| Tcp.HandshakeInStep | tcp.c.bak:395-450 | a SYN+ACK puts the connection in step with the peer's stream and is acknowledged |
| Tcp.DataStep | tcp.c.bak:459-513 | data is delivered whatever its number; the connection stays in step exactly when the number is the expected one |
| Tcp.OldSegment | tcp.c.bak:459-467 | a segment received before is delivered again and moves nothing |
| Tcp.OldSegments | tcp.c.bak:459-467 | so any number of times in a row |
| Tcp.RetransmissionsDelivered | tcp.c.bak:459-467 | an in-order segment with any number of retransmissions is delivered that many times more and counted once |
| Tcp.FinStep | tcp.c.bak:515-565 | the FIN is acknowledged with the connection's new number, which covers the data that came with it exactly when there was none |
| Tcp.Inert | tcp.c.bak:366-391 | once reset or past the FIN, no further segments make the connection deliver or send anything |
| Tcp.ResetIsFinal | tcp.c.bak:387-391 | a reset in any state closes the connection at once and for good, without an answer |
| Tcp.StreamReceived | tcp.c.bak:456-513 | from any point on, an in-order peer's stream is delivered exactly, `ack_num` covers it modulo 2^32, and there is one acknowledgement for each piece, which covers exactly what that piece completes |
| Tcp.ConnectionReceives | tcp.c.bak:393-513 | the same from the handshake on, which is acknowledged first |
| TcpWire.OnWireReads | tcp.c.bak:348-463 | of any segment, whatever its options and padding, the receiver reads addresses, ports, numbers, flags, window and data as sent |
| TcpWire.IgnoredOrReset | tcp.c.bak:366-391 | segments of other peers have no effect, a reset clears the connection |
| TcpWire.HandshakeOnWire | tcp.c.bak:395-453 | a SYN+ACK sets both numbers from the peer's and is acknowledged with them; anything else only updates the window |
| TcpWire.EstablishedOnWire | tcp.c.bak:456-566 | pushed data is delivered and acknowledged without the options, a FIN by its number alone |
| TcpWire.WindowOnly | tcp.c.bak:568-576 | in every other state only the window changes |
| TcpWire.AckBytes | tcp.c.bak:403-446 | the acknowledgement, byte by byte, with both checksums verifying as a receiver computes them |
| TcpWire.StreamOnWire | tcp.c.bak:456-513 | whatever options, padding and foreign segments there are, the pushed bytes are delivered in order and each pushed segment is acknowledged with the number after its last byte |

## Left out

- Network.Node.HandleNetworkPacket: requires an ICMP packet for us to have at least 42 bytes and an echo request at most 1500; the code reads and copies such packets without these checks, which beyond them is undefined in C.
- Network.Node.HandleArpPacket: the reply's stores are proved field by field, but a frame over 1536 bytes is rewritten and then dropped by the driver, which the sent frames show as no reply.
- Network.EditIpHeader: groups the edits of the IP header although the source edits the ICMP header between them; the spans are disjoint, so only the order of independent stores is lost.
- Network.Node.HandleIcmpPacket: records the displayed message of an echo reply, not the banners around it, nor the serial log.
- Receive.Nic.Poll: requires that a stale frame, if one is read, lies inside the buffer and is one the code can be handed; otherwise the driver reads past its buffer, which is undefined in C.
- RxRuns.FirstInFirstOut: is about runs without such reads past the buffer; a poll that finds a frame pending never makes one.
- RxRuns.CleanBeforeWrap: needs the buffer to be zero at the start, which the code does not ensure: neither kmalloc (memory.c:9-18) nor rtl8139_init clears it; on other contents EmptyPollExact applies from the first poll on.
- Receive.Nic.DeviceReceive: is an assumption about the device, whose documentation is not part of the repository: contiguous storage past the end (WRAP is set), slots padded to four bytes, a frame of at least 14 bytes taken when the ring is empty or stays partly free, ring size and largest frame together below 32K.
- Transmit.TxRing.SendPacket: stops after the descriptor write; the wait that follows indexes its register with `(current_tx_buffer - 1) % 4`, negative after slot 3 (rtl8139.c:377), so nothing is claimed about completion.
- Serial.Serial.WriteInt: excludes the smallest int, whose negation is undefined in C, and bases outside 2 to 16, for which the digit table has no entry.
- Numerals.DottedQuadRoundTrip: `sscanf`'s leading whitespace and signs are not modelled, and a number over 32 bits counts as not read.
- Tcp.Connection.HandlePacket: one connection instead of the pool, which indexes extended records through a base pointer (tcp.c.bak:55), and packets whose IP total length covers the headers and lies within the packet when they push data.
- Tcp.SegmentVerifies: covers the layout every sender shares; the methods model only the acknowledgements, not SYN, RST, FIN and data sending.
- Heap.RegionsDisjoint: holds while the heap stays below 2^32; the wrap itself is in Kmalloc.
- The transmission queue, retransmission timers, congestion fields and receive queue of tcp.c.bak: timers have no clock and queue allocation always fails.
- The live tcp.c, http.c and kernel.c: printing stubs and a polling script.
- Port I/O, PCI, GDT, IDT, interrupts, delays and boot code.
- The fixed-width hexadecimal printers and `terminal_writeint`: nibble by nibble, or the same loops as serial_write_int; `print_hex`, whose terminator is overwritten (terminal.c:100-105).
- `make_color`: the model has the one colour in use; `char` is signed, so bytes from 128 up fill the attribute byte.
- IP options, fragmentation, UDP, and the contents of stack buffers before they are written.
