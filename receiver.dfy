// Side B of the Selective-Repeat protocol: the handlers B_init and B_input
// over the receiver's module-level state.

module ReceiverSide {
  import opened Window
  import opened Packets

  /**
   * The payloads the delivery loop of B_input hands to tolayer5 when it
   * passes `count` slots starting at `from`, in passing order.
   */
  function Deliveries(buf: seq<Packet>, from: int, count: nat): (r: seq<Event>)
    requires 0 <= from < |buf| && count <= |buf|
    ensures |r| == count
    ensures forall i :: 0 <= i < |r| ==> r[i].Deliver?
    decreases count
  {
    if count == 0 then []
    else Deliveries(buf, from, count - 1) + [Deliver(buf[Slot(from, count - 1, |buf|)].payload)]
  }

  /**
   * The k-th delivery is the payload buffered for the sequence number k
   * steps past `from`: payloads go up in increasing sequence order, each
   * slot once, with no gap.
   */
  lemma {:induction false} DeliveriesInOrder(buf: seq<Packet>, from: int, count: nat)
    requires 0 <= from < |buf| && count <= |buf|
    ensures |Deliveries(buf, from, count)| == count
    ensures forall k :: 0 <= k < count ==>
              Deliveries(buf, from, count)[k] == Deliver(buf[Slot(from, k, |buf|)].payload)
  {
    if count > 0 {
      DeliveriesInOrder(buf, from, count - 1);
    }
  }

  lemma DeliveriesStep(buf: seq<Packet>, from: int, k: nat, t0: seq<Event>, t: seq<Event>)
    requires 0 <= from < |buf| && k < |buf|
    requires t == t0 + Deliveries(buf, from, k)
    ensures t + [Deliver(buf[Slot(from, k, |buf|)].payload)] == t0 + Deliveries(buf, from, k + 1)
  {
  }

  class Receiver {
    /** The window size (WINDOW_SIZE). */
    const W: int
    /** The size of the sequence-number space (SEQSPACE). */
    const N: int
    var expectedseqnum: int
    const rcvBuffer: array<Packet>
    const received: array<bool>
    /** The calls made into the emulator (tolayer3 for ACKs, tolayer5), oldest first. */
    ghost var trace: seq<Event>

    ghost predicate Valid()
      reads this, received
    {
      1 <= W && 2 * W <= N &&
      rcvBuffer.Length == N && received.Length == N &&
      0 <= expectedseqnum < N &&
      !received[expectedseqnum]
    }

    /** The receiver's static state at program start: expectedseqnum 0, both arrays zero-filled. */
    constructor (w: int, n: int)
      requires 1 <= w && 2 * w <= n
      ensures Valid() && fresh(rcvBuffer) && fresh(received)
      ensures W == w && N == n && expectedseqnum == 0
      ensures forall i :: 0 <= i < n ==> !received[i] && rcvBuffer[i] == ZERO_PACKET
      ensures trace == []
    {
      W, N := w, n;
      expectedseqnum := 0;
      rcvBuffer := new Packet[n](_ => ZERO_PACKET);
      received := new bool[n](_ => false);
      trace := [];
    }

    /** B_init: expectedseqnum back to 0 and every received flag cleared; the buffered packets stay. */
    method Init()
      requires Valid()
      modifies this, received
      ensures Valid()
      ensures expectedseqnum == 0
      ensures forall i :: 0 <= i < N ==> !received[i]
      ensures trace == old(trace)
    {
      expectedseqnum := 0;
      for i := 0 to N
        modifies received
        invariant forall j :: 0 <= j < i ==> !received[j]
      {
        received[i] := false;
      }
    }

    /**
     * B_input: an uncorrupted packet whose seqnum passes the window test is
     * buffered unless its slot already holds one, is acknowledged with
     * AckPacket(seqnum) whether or not it was a duplicate, and then the run
     * of buffered packets starting at expectedseqnum is delivered in order.
     * A corrupted or out-of-window packet changes nothing and gets no ACK.
     * The caller must not hand in a packet that would index the arrays with
     * a negative C remainder.
     */
    method Input(p: Packet)
      requires Valid()
      requires IsCorrupted(p) || !InWindow(expectedseqnum, p.seqnum, W, N) || CRem(p.seqnum, N) >= 0
      modifies this, rcvBuffer, received
      ensures Valid()
      ensures IsCorrupted(p) || !InWindow(old(expectedseqnum), p.seqnum, W, N) ==>
                expectedseqnum == old(expectedseqnum) && rcvBuffer[..] == old(rcvBuffer[..]) &&
                received[..] == old(received[..]) && trace == old(trace)
      ensures !IsCorrupted(p) && InWindow(old(expectedseqnum), p.seqnum, W, N) ==>
                var s := CRem(p.seqnum, N);
                var buf := if old(received[s]) then old(rcvBuffer[..]) else old(rcvBuffer[..])[s := p];
                var flags := old(received[..])[s := true];
                var run := RunLength(flags, old(expectedseqnum));
                rcvBuffer[..] == buf &&
                expectedseqnum == Slot(old(expectedseqnum), run, N) &&
                (forall j :: 0 <= j < N ==> received[j] == (flags[j] && Dist(old(expectedseqnum), j, N) >= run)) &&
                trace == old(trace) + [Send(AckPacket(p.seqnum))] + Deliveries(buf, old(expectedseqnum), run)
    {
      if IsCorrupted(p) {
        return;
      }
      var sn := p.seqnum;
      if InWindow(expectedseqnum, sn, W, N) {
        if !received[CRem(sn, N)] {
          rcvBuffer[CRem(sn, N)] := p;
          received[CRem(sn, N)] := true;
        }
        var ack := AckPacket(sn);
        trace := trace + [Send(ack)];
        DeliverRun();
      }
    }

    /**
     * The loop of B_input that hands the buffered payloads up to the
     * application while the slot at expectedseqnum holds a packet, clearing
     * each slot it passes. It stops after at most N steps, at the first
     * empty slot.
     */
    method DeliverRun()
      requires rcvBuffer.Length == N && received.Length == N && 0 <= expectedseqnum < N
      modifies this`expectedseqnum, this`trace, received
      ensures var run := RunLength(old(received[..]), old(expectedseqnum));
              expectedseqnum == Slot(old(expectedseqnum), run, N) &&
              (forall j :: 0 <= j < N ==> received[j] == (old(received[j]) && Dist(old(expectedseqnum), j, N) >= run)) &&
              trace == old(trace) + Deliveries(rcvBuffer[..], old(expectedseqnum), run)
      ensures !received[expectedseqnum]
    {
      ghost var e0 := expectedseqnum;
      ghost var flags := received[..];
      ghost var buf := rcvBuffer[..];
      ghost var t0 := trace;
      ghost var run := RunLength(flags, e0);
      ghost var steps := 0;
      ModBelow(expectedseqnum, N);
      while received[expectedseqnum % N]
        invariant 0 <= steps <= run
        invariant expectedseqnum == Slot(e0, steps, N)
        invariant forall j :: 0 <= j < N ==> received[j] == (flags[j] && Dist(e0, j, N) >= steps)
        invariant trace == t0 + Deliveries(buf, e0, steps)
        decreases N - steps
      {
        ModBelow(expectedseqnum, N);
        assert steps < N;
        DistAfter(e0, steps, N);
        var i := expectedseqnum % N;
        assert i == Slot(e0, steps, N);
        DeliveriesStep(buf, e0, steps, t0, trace);
        trace := trace + [Deliver(rcvBuffer[i].payload)];
        received[i] := false;
        Advance(e0, steps, N);
        expectedseqnum := (expectedseqnum + 1) % N;
        steps := steps + 1;
      }
      ModBelow(expectedseqnum, N);
      if steps < N {
        DistAfter(e0, steps, N);
      }
      assert steps == run;
      assert rcvBuffer[..] == buf;
    }
  }
}
