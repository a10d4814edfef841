# Selective-Repeat ARQ sender and receiver

A Dafny model of `sr.c`, the Selective-Repeat ARQ protocol of a network emulator
assignment, with proofs about it. Side A (the sender) frames application messages
into numbered packets and keeps a window of unacknowledged packets. It retransmits
them when its single timer expires. Side B (the receiver) buffers packets that
arrive out of order, acknowledges each one, and hands the payloads up to the
application in sequence order.

Both sides are event handlers over module-level state. Each side is modelled as a
class:

- `SenderSide.Sender` holds `base`, `nextseqnum`, the ring `sndBuffer` and the
  `acked` flags.
- `ReceiverSide.Receiver` holds `expectedseqnum`, the ring `rcvBuffer` and the
  `received` flags.
- Each handler is a method that updates these fields and arrays in place.
- The three loops that walk the ring are `while` loops with invariants: the
  slide of `base`, the retransmission loop and the delivery loop.
- The loops of `A_init` and `B_init` that clear the flags are `for` loops.
- The checksum loop (`sr.c:20-22`) is the recursive function `Sum`.
- The fixed 20-byte copy loops (`sr.c:47-49`, `sr.c:142-144`) become
  whole-payload values.
- Each ring-walking loop is proved against a specification function:
  - `RunLength`: the run of set flags a slide or delivery passes;
  - `Retransmission`: the packets a timeout resends;
  - `Deliveries`: the payloads a delivery hands up.
- Properties of those functions are proved as lemmas.

The handlers call into the emulator: `tolayer3`, `tolayer5`, `starttimer` and
`stoptimer`. Each side records those calls in a ghost `trace` of `Event`s, in the
order they are made, and the handlers' contracts state exactly what is appended.

Files:

- `window.dfy` (module `Window`): C's remainder, ring distance, `in_window`, and
  runs of set flags.
- `packets.dfy` (module `Packets`): the packet record, the additive checksum, and
  the data and ACK packets the handlers build.
  - The datatype `Packet` is `struct pkt` (`sr.h:14-19`).
  - Data packets carry acknum 0 (`sr.c:46`), not `NOTINUSE` (`sr.h:11`), and
    the model does the same.
- `sender.dfy` (module `SenderSide`): side A.
- `receiver.dfy` (module `ReceiverSide`): side B.
- `scenarios.dfy` (module `Scenarios`): three short runs on concrete sequence
  numbers, checked statically:
  - packets 2, 0, 1 arriving at a receiver;
  - a sender that fills its window, has a message refused, takes an ACK and
    times out;
  - a sender whose window wraps, so that it ends up with more than `W` packets
    outstanding and overwrites one that was never acknowledged.

Points where the model settles something the source leaves open:

- **Window parameters.** `sr.c` uses `WINDOW_SIZE`, which `sr.h` does not define.
  `sr.h` defines `WINDOWSIZE 6` and `SEQSPACE 7` (`sr.h:9-10`), which break its own
  rule "must be <= SEQSPACE/2". The window size `W` and the sequence space `N` are
  therefore constructor parameters, with `1 <= W` and `2 * W <= N`.
- **C remainder.** Every `%` of the source is C's truncating remainder. `CRem`
  models it: for a negative dividend the result is negative or zero.
  - The window test of `A_output` (`sr.c:41`) applies it to `nextseqnum - base`,
    which is negative whenever the window has wrapped past `N - 1`. In that case
    the test always passes, so the model does not claim that at most `W` packets
    are outstanding (`WindowTestAsWritten`, `WrappedWindowOverfills`). The run
    `Scenarios.WindowOverfills` reaches this through the handlers alone. With
    `W = 2` and `N = 4` it leaves three packets outstanding, and two more
    messages then overwrite a packet that was never acknowledged.
  - Every other `%` of the source has a non-negative dividend, where C's
    remainder and the Euclidean one agree. The incoming `acknum` and `seqnum`
    can be any `int`, so they go through `CRem`.
- **Out-of-range numbers.** The wrap branch of `in_window` admits numbers outside
  `[0, N)`, including negative ones, whose remainder would then index an array at
  a negative position (`InWindowAdmitsNegative`). Each input handler requires
  exactly that this does not happen: either the packet is dropped, or the
  remainder of its number is not negative. Numbers `>= N` are allowed and modelled.
- **Slot indexing.** Slots are indexed by the number modulo `N` (`SEQSPACE`), as
  the code does, not by the window size.
- **Where the code departs from the usual statement of the Selective-Repeat
  protocol, the model follows the code:**
  - packets behind the receive window are dropped silently, with no re-ACK;
  - `A_input` sets the acked flag of an in-window ACK unconditionally;
  - `A_output` reports nothing to its caller when it refuses a message;
  - the timer is stopped and started again after every in-window ACK whenever
    `base != nextseqnum`, whether or not `base` moved (`sr.c:91-94`), despite
    the comment at `sr.c:90`. So an ACK for a later packet postpones the
    timeout of the oldest one.
- **Flags.** The `int` flags `acked` and `received` only ever hold 0 or 1, so they
  are `array<bool>`.
- **Initial state.** The constructor is the static zero initialisation of the
  module-level state. `Init` is `A_init`/`B_init`, which reset the counters and
  flags but leave the packet buffers as they are.

## Model

| member | source | states |
|---|---|---|
| Window.CRem | sr.c:41 | C's `%` with a positive divisor: the result lies strictly between -n and n, takes the sign of the dividend, is the dividend itself for a dividend in [0, n), and is congruent to it modulo n |
| Window.InWindowIff | sr.c:31-37 | for a start and a number in [0, N) and 1 <= W <= N, `in_window` holds exactly when (s - start) mod N < W, equivalently when s is fewer than W steps ahead of start round the ring |
| Window.InWindowAdmitsNegative | sr.c:31-37 | the wrap branch accepts numbers outside [0, N): with N = 8, W = 4 and start 6, both -1 (whose C remainder is -1) and 10 pass, while 2 does not |
| Window.InWindow | sr.c:31-37 | in_window, with the last number of the window computed by C's `%`; for a window inside the ring, start and the number W - 1 slots after it pass and the number W slots after it does not |
| Window.RunLength | sr.c:85-88 | the number of consecutive set flags met going forward from a slot, at most N: every flag before it is set and the next one, if any, is clear |
| Window.RunLengthUnique | sr.c:85-88 | that count is the only one with this property, so a loop that stops at the first clear flag has run exactly RunLength steps |
| Window.SlotIsMod | sr.c:87 | stepping k places forward from a slot is (from + k) mod N |
| Window.DistIsMod | sr.c:33-36 | the forward distance between two slots is (to - from) mod N |
| Packets.Sum | sr.c:20-22 | the payload sum accumulated by the checksum loop stays within the range of 20 signed bytes |
| Packets.ComputeChecksum | sr.c:16-24 | compute_checksum: seqnum + acknum plus the payload bytes, so the result lies within 20 signed bytes of seqnum + acknum |
| Packets.IsCorrupted | sr.c:26-29 | is_corrupted: the stored checksum differs from the recomputed one, so a packet that passes has a checksum within 20 signed bytes of seqnum + acknum |
| Packets.ChecksumIgnoresChecksumField | sr.c:16-24 | compute_checksum does not read the checksum field: changing it leaves the result unchanged |
| Packets.Stamp | sr.c:50 | setting the checksum field to compute_checksum yields a packet that is_corrupted does not flag, with header and payload unchanged |
| Packets.DataPacket | sr.c:45-50 | the packet A_output builds carries the sequence number, acknum 0, the message as payload and checksum seqnum + payload sum, and passes the corruption check |
| Packets.AckPacket | sr.c:140-145 | the ACK B_input builds has seqnum 0, acknum equal to the received number, a zero payload and checksum equal to that number, and passes the corruption check; it depends on the number alone, so duplicates get identical ACKs |
| Packets.SumUpdate | sr.c:20-22 | replacing one payload byte changes the sum by exactly the difference |
| Packets.ChecksumDetectsByteChange | sr.c:16-29 | a packet that passed the check fails it once any single payload byte changes |
| Packets.OffsettingChangesUndetected | sr.c:16-29 | the additive checksum misses two byte changes that cancel: raising one byte and lowering another yields a different packet that still passes |
| SenderSide.WindowTestAsWritten | sr.c:41 | for base and nextseqnum in [0, N) the test passes exactly when nextseqnum < base or fewer than W packets are outstanding |
| SenderSide.WrappedWindowOverfills | sr.c:41 | with W = 4 and N = 8, base 6 and nextseqnum 2 already have 4 packets outstanding and the test still admits another |
| SenderSide.Unacked | sr.c:103-104 | the slots the retransmission loop finds unacknowledged: at most count of them, all in range and with a clear acked flag |
| SenderSide.UnackedMembers | sr.c:103-104 | a slot is among them exactly when its flag is clear and it lies fewer than count steps past base |
| SenderSide.UnackedInOrder | sr.c:103 | they come in strictly increasing distance from base, so no slot is resent twice in one timeout |
| SenderSide.Retransmission | sr.c:103-107 | what a timeout sends while visiting count slots from base: at most count events, each a Send of a buffered packet |
| SenderSide.RetransmissionIsUnacked | sr.c:103-107 | the i-th packet a timeout sends is the buffered packet of the i-th unacknowledged slot, and nothing else is sent |
| SenderSide.Sender.constructor | sr.c:6-9 | initial sender state: base and nextseqnum 0, every acked flag clear, every buffered packet zero, empty trace |
| SenderSide.Sender.Init | sr.c:111-119 | A_init: base and nextseqnum 0 and every acked flag clear; nothing is sent |
| SenderSide.Sender.Output | sr.c:39-65 | when the C remainder of nextseqnum - base is at least W, nothing changes and nothing is sent; otherwise the data packet goes in slot nextseqnum with its flag cleared, every other slot and base stay, the timer starts iff base == nextseqnum, exactly that packet is sent, and nextseqnum advances by one modulo N |
| SenderSide.Sender.Input | sr.c:68-96 | a corrupted or out-of-window ACK changes nothing and touches no timer; otherwise the acked flag of acknum is set, base moves forward over the whole run of acked slots from base, those flags are cleared and no others, the timer is stopped and started again iff base != nextseqnum, and nextseqnum stays |
| SenderSide.Sender.SlideBase | sr.c:85-88 | the slide loop ends after RunLength steps (at most N), with base that many slots further on, exactly the flags it passed cleared, and the flag at base clear |
| SenderSide.Sender.TimerInterrupt | sr.c:100-109 | a timeout sends, in ring order from base up to but not including nextseqnum, exactly the buffered packets whose acked flag is clear, then starts the timer; no sender state changes |
| ReceiverSide.Deliveries | sr.c:154-158 | the definition of the payloads a delivery pass hands to the application, slot by slot from expectedseqnum: one Deliver event per slot passed and nothing else; its closed form is DeliveriesInOrder |
| ReceiverSide.DeliveriesInOrder | sr.c:154-158 | the k-th delivered payload is the one buffered k slots past expectedseqnum: in increasing sequence order, each slot once, with no gap |
| ReceiverSide.DeliveriesStep | sr.c:155 | one more loop iteration appends the payload of the next slot to what has been delivered |
| ReceiverSide.Receiver.constructor | sr.c:11-14 | initial receiver state: expectedseqnum 0, every received flag clear, every buffered packet zero, empty trace |
| ReceiverSide.Receiver.Init | sr.c:162-169 | B_init: expectedseqnum 0 and every received flag clear; nothing is sent |
| ReceiverSide.Receiver.Input | sr.c:121-160 | a corrupted or out-of-window packet changes nothing and gets no ACK; otherwise the packet is stored only if its slot is empty (a duplicate never overwrites the first copy), exactly one ACK for its sequence number is sent, and then the run of received slots from expectedseqnum is delivered in order, its flags cleared, and expectedseqnum moved past it |
| ReceiverSide.Receiver.DeliverRun | sr.c:154-158 | the delivery loop ends after RunLength steps (at most N), having handed up the buffered payloads of exactly those slots in order, cleared their flags and no others, and left the flag at expectedseqnum clear |

## Left out

- Debug output: the `printf` calls (`sr.c:56`, `sr.c:82`, `sr.c:151`) only print.
- The emulator: `emulator.h` is not part of this model. Its functions `tolayer3`, `tolayer5`, `starttimer` and `stoptimer` appear only as events appended to each side's ghost trace, not as I/O or timing.
- Timing: `RTT` (a floating-point constant) and the `TIMEOUT` value are not modelled; only whether a timer is started or stopped is recorded.
- `B_output` and `B_timerinterrupt` (`sr.c:172-178`) have empty bodies and are not modelled.
- End to end: no claim that the delivered stream equals the submitted stream over a lossy, duplicating, reordering channel. That needs a model of the channel and of how events interleave; the model proves what each handler does instead.
- Integer width: `compute_checksum` sums into a C `int`, and the model uses unbounded integers. With 20 signed bytes the payload part cannot overflow (`Packets.Sum`), but a sequence or ACK number near the `int` limits could.
- `Packets.Byte`: the payload is C `char`, taken to be signed; on a platform where `char` is unsigned the bytes range over 0..255 and the checksums differ.
- Flags: the `int` arrays `acked` and `received` are `bool` arrays, since the code only stores 0 and 1 in them.
- `SenderSide.Sender.Input`, `ReceiverSide.Receiver.Input`: these require that an accepted ACK or packet does not have a negative C remainder, which the C code would use as an array index (undefined behaviour). The source does not check this.
