// Short runs of the handlers on concrete sequence numbers, checked statically.

module Scenarios {
  import opened Window
  import opened Packets
  import opened SenderSide
  import opened ReceiverSide

  /** A receiver with window 3 on 6 sequence numbers. */
  ghost predicate Small(b: Receiver)
    reads b, b.received
  {
    b.Valid() && b.W == 3 && b.N == 6
  }

  /** Packet 2 arrives first: it is buffered and acknowledged, nothing is delivered. */
  method ArrivalOf2(b: Receiver, p2: Packet)
    requires Small(b) && !IsCorrupted(p2) && p2.seqnum == 2
    requires b.expectedseqnum == 0 && b.received[..] == [false, false, false, false, false, false]
    modifies b, b.rcvBuffer, b.received
    ensures Small(b) && b.expectedseqnum == 0
    ensures b.received[..] == [false, false, true, false, false, false] && b.rcvBuffer[2] == p2
    ensures b.trace == old(b.trace) + [Send(AckPacket(p2.seqnum))]
  {
    ghost var f := b.received[..];
    ghost var buf := b.rcvBuffer[..];
    RunLengthUnique(f[2 := true], 0, 0);
    assert InWindow(0, 2, 3, 6);
    b.Input(p2);
    assert Deliveries(buf[2 := p2], 0, 0) == [];
  }

  /** Packet 0 arrives next: it is acknowledged and delivered; 2 waits for 1. */
  method ArrivalOf0(b: Receiver, p0: Packet, p2: Packet)
    requires Small(b) && !IsCorrupted(p0) && p0.seqnum == 0
    requires b.expectedseqnum == 0 && b.received[..] == [false, false, true, false, false, false] && b.rcvBuffer[2] == p2
    modifies b, b.rcvBuffer, b.received
    ensures Small(b) && b.expectedseqnum == 1
    ensures b.received[..] == [false, false, true, false, false, false] && b.rcvBuffer[2] == p2
    ensures b.trace == old(b.trace) + [Send(AckPacket(p0.seqnum)), Deliver(p0.payload)]
  {
    ghost var f := b.received[..];
    ghost var buf := b.rcvBuffer[..];
    RunLengthUnique(f[0 := true], 0, 1);
    assert InWindow(0, 0, 3, 6);
    b.Input(p0);
    assert Deliveries(buf[0 := p0], 0, 1) == [Deliver(p0.payload)];
  }

  /** Packet 1 arrives last: it is acknowledged, then 1 and 2 are delivered in order. */
  method ArrivalOf1(b: Receiver, p1: Packet, p2: Packet)
    requires Small(b) && !IsCorrupted(p1) && p1.seqnum == 1
    requires b.expectedseqnum == 1 && b.received[..] == [false, false, true, false, false, false] && b.rcvBuffer[2] == p2
    modifies b, b.rcvBuffer, b.received
    ensures Small(b) && b.expectedseqnum == 3
    ensures b.received[..] == [false, false, false, false, false, false]
    ensures b.trace == old(b.trace) + [Send(AckPacket(p1.seqnum)), Deliver(p1.payload), Deliver(p2.payload)]
  {
    ghost var f := b.received[..];
    ghost var buf := b.rcvBuffer[..];
    RunLengthUnique(f[1 := true], 1, 2);
    assert InWindow(1, 1, 3, 6);
    b.Input(p1);
    assert Deliveries(buf[1 := p1], 1, 2) == [Deliver(p1.payload), Deliver(p2.payload)];
  }

  /**
   * Uncorrupted packets numbered 2, 0 and 1 arrive in that order. Every
   * arrival is acknowledged at once; nothing is delivered until 0 arrives,
   * then 0, and on the arrival of 1 both 1 and 2, in sequence order.
   */
  method ReceiveOutOfOrder(p0: Packet, p1: Packet, p2: Packet)
    requires !IsCorrupted(p0) && !IsCorrupted(p1) && !IsCorrupted(p2)
    requires p0.seqnum == 0 && p1.seqnum == 1 && p2.seqnum == 2
  {
    var b := new Receiver(3, 6);
    assert b.received[..] == [false, false, false, false, false, false];
    ArrivalOf2(b, p2);
    ArrivalOf0(b, p0, p2);
    ArrivalOf1(b, p1, p2);
    assert b.trace == [Send(AckPacket(p2.seqnum)), Send(AckPacket(p0.seqnum)), Deliver(p0.payload),
                       Send(AckPacket(p1.seqnum)), Deliver(p1.payload), Deliver(p2.payload)];
  }

  /** A sender with window 2 on 4 sequence numbers. */
  ghost predicate Narrow(a: Sender)
    reads a, a.acked
  {
    a.Valid() && a.W == 2 && a.N == 4
  }

  /** Two messages fill the window: the first starts the timer, both are sent. */
  method FillWindow(a: Sender, m0: Payload, m1: Payload)
    requires Narrow(a) && a.base == 0 && a.nextseqnum == 0
    modifies a, a.sndBuffer, a.acked
    ensures Narrow(a) && a.base == 0 && a.nextseqnum == 2
    ensures a.sndBuffer[1] == DataPacket(1, m1) && !a.acked[1]
    ensures a.trace == old(a.trace) + [StartTimer, Send(DataPacket(0, m0)), Send(DataPacket(1, m1))]
  {
    a.Output(m0);
    a.Output(m1);
  }

  /** With two packets outstanding a third message is refused and nothing changes. */
  method RefuseWhenFull(a: Sender, m2: Payload)
    requires Narrow(a) && a.base == 0 && a.nextseqnum == 2
    modifies a, a.sndBuffer, a.acked
    ensures a.base == 0 && a.nextseqnum == 2 && a.trace == old(a.trace)
    ensures a.sndBuffer[..] == old(a.sndBuffer[..]) && a.acked[..] == old(a.acked[..])
  {
    a.Output(m2);
  }

  /**
   * An uncorrupted ACK for 0 slides base to 1; the timer is stopped and
   * started again for packet 1, still outstanding. A message then fits.
   */
  method AckThenSend(a: Sender, ack: Packet, m1: Payload, m2: Payload)
    requires Narrow(a) && a.base == 0 && a.nextseqnum == 2
    requires a.sndBuffer[1] == DataPacket(1, m1) && !a.acked[1]
    requires !IsCorrupted(ack) && ack.acknum == 0
    modifies a, a.sndBuffer, a.acked
    ensures Narrow(a) && a.base == 1 && a.nextseqnum == 3
    ensures a.sndBuffer[1] == DataPacket(1, m1) && a.sndBuffer[2] == DataPacket(2, m2)
    ensures !a.acked[1] && !a.acked[2]
    ensures a.trace == old(a.trace) + [StopTimer, StartTimer, Send(DataPacket(2, m2))]
  {
    ghost var f := a.acked[..];
    assert InWindow(0, 0, 2, 4);
    RunLengthUnique(f[0 := true], 0, 1);
    a.Input(ack);
    assert a.base == 1;
    a.Output(m2);
  }

  /** The timeout resends the two unacknowledged packets, 1 then 2, and restarts the timer. */
  method TimeoutResends(a: Sender, m1: Payload, m2: Payload)
    requires Narrow(a) && a.base == 1 && a.nextseqnum == 3
    requires a.sndBuffer[1] == DataPacket(1, m1) && a.sndBuffer[2] == DataPacket(2, m2)
    requires !a.acked[1] && !a.acked[2]
    modifies a
    ensures a.trace == old(a.trace) + [Send(DataPacket(1, m1)), Send(DataPacket(2, m2)), StartTimer]
  {
    a.TimerInterrupt();
    assert Retransmission(a.sndBuffer[..], a.acked[..], 1, 2) == [Send(DataPacket(1, m1)), Send(DataPacket(2, m2))];
  }

  /**
   * Messages m0, m1, m2 offered in turn to a fresh sender: m2 is refused
   * until the ACK for 0 arrives, and a later timeout resends exactly the
   * packets still outstanding.
   */
  method SendThroughFullWindow(m0: Payload, m1: Payload, m2: Payload, ack: Packet)
    requires !IsCorrupted(ack) && ack.acknum == 0
  {
    var a := new Sender(2, 4);
    FillWindow(a, m0, m1);
    RefuseWhenFull(a, m2);
    AckThenSend(a, ack, m1, m2);
    TimeoutResends(a, m1, m2);
    assert a.trace == [StartTimer, Send(DataPacket(0, m0)), Send(DataPacket(1, m1)),
                       StopTimer, StartTimer, Send(DataPacket(2, m2)),
                       Send(DataPacket(1, m1)), Send(DataPacket(2, m2)), StartTimer];
  }

  /** Two messages go out from a fresh window: slots 0 and 1 are outstanding. */
  method SendTwo(a: Sender, m0: Payload, m1: Payload)
    requires Narrow(a) && a.base == 0 && a.nextseqnum == 0
    requires a.acked[..] == [false, false, false, false]
    modifies a, a.sndBuffer, a.acked
    ensures Narrow(a) && a.base == 0 && a.nextseqnum == 2
    ensures a.acked[..] == [false, false, false, false]
  {
    a.Output(m0);
    a.Output(m1);
  }

  /** ACKs for 0 and then 1 slide base up to nextseqnum: nothing is outstanding. */
  method AckBoth(a: Sender, ack0: Packet, ack1: Packet)
    requires Narrow(a) && a.base == 0 && a.nextseqnum == 2
    requires a.acked[..] == [false, false, false, false]
    requires !IsCorrupted(ack0) && ack0.acknum == 0 && !IsCorrupted(ack1) && ack1.acknum == 1
    modifies a, a.acked
    ensures Narrow(a) && a.base == 2 && a.nextseqnum == 2
    ensures a.acked[..] == [false, false, false, false]
  {
    ghost var f := a.acked[..];
    assert InWindow(0, 0, 2, 4);
    RunLengthUnique(f[0 := true], 0, 1);
    a.Input(ack0);
    assert a.base == 1;
    ghost var g := a.acked[..];
    assert g == [false, false, false, false];
    assert InWindow(1, 1, 2, 4);
    RunLengthUnique(g[1 := true], 1, 1);
    a.Input(ack1);
  }

  /**
   * Three messages offered with base 2 and nothing outstanding are all
   * accepted: the third passes the test because the C remainder of
   * 0 - 2 is negative. Three packets (2, 3, 0) are then outstanding in a
   * window of 2.
   */
  method OverfillAfterWrap(a: Sender, m2: Payload, m3: Payload, m4: Payload)
    requires Narrow(a) && a.base == 2 && a.nextseqnum == 2
    requires a.acked[..] == [false, false, false, false]
    modifies a, a.sndBuffer, a.acked
    ensures Narrow(a) && a.base == 2 && a.nextseqnum == 1
    ensures Dist(a.base, a.nextseqnum, a.N) == 3 && Dist(a.base, a.nextseqnum, a.N) > a.W
    ensures a.sndBuffer[2] == DataPacket(2, m2)
    ensures a.acked[..] == [false, false, false, false]
  {
    a.Output(m2);
    a.Output(m3);
    assert CRem(0 - 2, 4) == -2;
    a.Output(m4);
  }

  /**
   * Two more messages are still accepted; the second is written into slot
   * 2, overwriting packet 2 although it was never acknowledged.
   */
  method OverwriteUnacked(a: Sender, m2: Payload, m5: Payload, m6: Payload)
    requires Narrow(a) && a.base == 2 && a.nextseqnum == 1
    requires a.sndBuffer[2] == DataPacket(2, m2)
    requires a.acked[..] == [false, false, false, false]
    modifies a, a.sndBuffer, a.acked
    ensures a.base == 2 && a.nextseqnum == 3
    ensures a.sndBuffer[2] == DataPacket(2, m6) && !a.acked[2]
  {
    assert CRem(1 - 2, 4) == -1;
    a.Output(m5);
    a.Output(m6);
  }

  /**
   * From a fresh sender with window 2 on 4 numbers, the handlers alone reach
   * a state with 3 packets outstanding, and then lose an unacknowledged
   * packet: the window test of A_output does not bound the window once
   * nextseqnum has wrapped behind base.
   */
  method WindowOverfills(m0: Payload, m1: Payload, m2: Payload, m3: Payload, m4: Payload,
                         m5: Payload, m6: Payload, ack0: Packet, ack1: Packet)
    requires !IsCorrupted(ack0) && ack0.acknum == 0 && !IsCorrupted(ack1) && ack1.acknum == 1
    requires m6 != m2
  {
    var a := new Sender(2, 4);
    assert a.acked[..] == [false, false, false, false];
    SendTwo(a, m0, m1);
    AckBoth(a, ack0, ack1);
    OverfillAfterWrap(a, m2, m3, m4);
    assert Dist(a.base, a.nextseqnum, a.N) > a.W;
    OverwriteUnacked(a, m2, m5, m6);
    assert a.sndBuffer[2] != DataPacket(2, m2) && !a.acked[2];
  }
}
