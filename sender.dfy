// Side A of the Selective-Repeat protocol: the handlers A_init, A_output,
// A_input and A_timerinterrupt over the sender's module-level state.

module SenderSide {
  import opened Window
  import opened Packets

  /**
   * The slots among the `count` sequence numbers starting at `from` whose
   * acked flag is clear, in the order the retransmission loop visits them.
   */
  function Unacked(acked: seq<bool>, from: int, count: nat): (r: seq<int>)
    requires 0 <= from < |acked| && count <= |acked|
    ensures |r| <= count
    ensures forall i :: 0 <= i < |r| ==> 0 <= r[i] < |acked| && !acked[r[i]]
    decreases count
  {
    if count == 0 then []
    else
      var s := Slot(from, count - 1, |acked|);
      Unacked(acked, from, count - 1) + (if acked[s] then [] else [s])
  }

  /** A slot is retransmitted exactly when it is unacknowledged and fewer than `count` steps past `from`. */
  lemma {:induction false} UnackedMembers(acked: seq<bool>, from: int, count: nat, s: int)
    requires 0 <= from < |acked| && count <= |acked|
    ensures s in Unacked(acked, from, count) <==>
              0 <= s < |acked| && !acked[s] && Dist(from, s, |acked|) < count
  {
    var n := |acked|;
    if count > 0 {
      UnackedMembers(acked, from, count - 1, s);
      var t := Slot(from, count - 1, n);
      DistAfter(from, count - 1, n);
      if 0 <= s < n {
        StepDist(from, s, n);
      }
    }
  }

  /** Retransmissions go out in increasing distance from `from`, so no slot is sent twice. */
  lemma {:induction false} UnackedInOrder(acked: seq<bool>, from: int, count: nat)
    requires 0 <= from < |acked| && count <= |acked|
    ensures forall i, j :: 0 <= i < j < |Unacked(acked, from, count)| ==>
              Dist(from, Unacked(acked, from, count)[i], |acked|) < Dist(from, Unacked(acked, from, count)[j], |acked|)
  {
    var n := |acked|;
    if count > 0 {
      UnackedInOrder(acked, from, count - 1);
      var prev := Unacked(acked, from, count - 1);
      var t := Slot(from, count - 1, n);
      var r := Unacked(acked, from, count);
      assert r == prev + (if acked[t] then [] else [t]);
      DistAfter(from, count - 1, n);
      forall i, j | 0 <= i < j < |r|
        ensures Dist(from, r[i], n) < Dist(from, r[j], n)
      {
        assert r[i] == prev[i];
        if j == |prev| {
          assert r[j] == t;
          UnackedMembers(acked, from, count - 1, prev[i]);
        } else {
          assert r[j] == prev[j];
          assert Dist(from, prev[i], n) < Dist(from, prev[j], n);
        }
      }
    }
  }

  /**
   * The packets A_timerinterrupt hands to tolayer3 when it visits the
   * `count` slots starting at `from`: each buffered packet whose acked flag
   * is clear, in visiting order.
   */
  function Retransmission(buf: seq<Packet>, acked: seq<bool>, from: int, count: nat): (r: seq<Event>)
    requires |buf| == |acked| && 0 <= from < |acked| && count <= |acked|
    ensures |r| <= count
    ensures forall i :: 0 <= i < |r| ==> r[i].Send? && r[i].pkt in buf
    decreases count
  {
    if count == 0 then []
    else
      var s := Slot(from, count - 1, |acked|);
      Retransmission(buf, acked, from, count - 1) + (if acked[s] then [] else [Send(buf[s])])
  }

  /** The i-th retransmitted packet is the buffered packet of the i-th unacknowledged slot. */
  lemma {:induction false} RetransmissionIsUnacked(buf: seq<Packet>, acked: seq<bool>, from: int, count: nat)
    requires |buf| == |acked| && 0 <= from < |acked| && count <= |acked|
    ensures |Retransmission(buf, acked, from, count)| == |Unacked(acked, from, count)|
    ensures forall i :: 0 <= i < |Unacked(acked, from, count)| ==>
              Retransmission(buf, acked, from, count)[i] == Send(buf[Unacked(acked, from, count)[i]])
  {
    if count > 0 {
      RetransmissionIsUnacked(buf, acked, from, count - 1);
    }
  }

  /**
   * As written, the window test of A_output compares the C remainder of
   * nextseqnum - base with W. For sequence numbers in range it passes
   * exactly when nextseqnum is behind base (the window wraps past N - 1)
   * or fewer than W numbers are outstanding.
   */
  lemma WindowTestAsWritten(base: int, next: int, w: int, n: int)
    requires 0 <= base < n && 0 <= next < n && 1 <= w
    ensures CRem(next - base, n) < w <==> next < base || next - base < w
  {
    if next >= base {
      ModBelow(next - base, n);
    }
  }

  /**
   * Under wraparound the test does not bound the window: with W = 4 and
   * N = 8, base = 6 and nextseqnum = 2 already have 4 packets (6, 7, 0, 1)
   * outstanding, and the test still admits a fifth.
   */
  lemma WrappedWindowOverfills()
    ensures Dist(6, 2, 8) == 4 && CRem(2 - 6, 8) < 4
  {
  }

  class Sender {
    /** The window size (WINDOW_SIZE). */
    const W: int
    /** The size of the sequence-number space (SEQSPACE). */
    const N: int
    var base: int
    var nextseqnum: int
    const sndBuffer: array<Packet>
    const acked: array<bool>
    /** The calls made into the emulator (tolayer3, starttimer, stoptimer), oldest first. */
    ghost var trace: seq<Event>

    ghost predicate Valid()
      reads this, acked
    {
      1 <= W && 2 * W <= N &&
      sndBuffer.Length == N && acked.Length == N &&
      0 <= base < N && 0 <= nextseqnum < N &&
      !acked[base]
    }

    /** The sender's static state at program start: both counters 0, both arrays zero-filled. */
    constructor (w: int, n: int)
      requires 1 <= w && 2 * w <= n
      ensures Valid() && fresh(sndBuffer) && fresh(acked)
      ensures W == w && N == n && base == 0 && nextseqnum == 0
      ensures forall i :: 0 <= i < n ==> !acked[i] && sndBuffer[i] == ZERO_PACKET
      ensures trace == []
    {
      W, N := w, n;
      base, nextseqnum := 0, 0;
      sndBuffer := new Packet[n](_ => ZERO_PACKET);
      acked := new bool[n](_ => false);
      trace := [];
    }

    /** A_init: both counters back to 0 and every acked flag cleared; the buffered packets stay. */
    method Init()
      requires Valid()
      modifies this, acked
      ensures Valid()
      ensures base == 0 && nextseqnum == 0
      ensures forall i :: 0 <= i < N ==> !acked[i]
      ensures trace == old(trace)
    {
      base := 0;
      nextseqnum := 0;
      for i := 0 to N
        modifies acked
        invariant forall j :: 0 <= j < i ==> !acked[j]
      {
        acked[i] := false;
      }
    }

    /**
     * A_output: when the C remainder of nextseqnum - base is below W, frame
     * the message as packet nextseqnum, store it in its slot with the acked
     * flag cleared, start the timer if nothing was outstanding, send it and
     * advance nextseqnum; otherwise drop the message and change nothing.
     */
    method Output(message: Payload)
      requires Valid()
      modifies this, sndBuffer, acked
      ensures Valid()
      ensures CRem(old(nextseqnum) - old(base), N) >= W ==>
                base == old(base) && nextseqnum == old(nextseqnum) &&
                sndBuffer[..] == old(sndBuffer[..]) && acked[..] == old(acked[..]) &&
                trace == old(trace)
      ensures CRem(old(nextseqnum) - old(base), N) < W ==>
                var p := DataPacket(old(nextseqnum), message);
                base == old(base) && nextseqnum == (old(nextseqnum) + 1) % N &&
                sndBuffer[..] == old(sndBuffer[..])[old(nextseqnum) := p] &&
                acked[..] == old(acked[..])[old(nextseqnum) := false] &&
                trace == old(trace) + (if old(base) == old(nextseqnum) then [StartTimer] else []) + [Send(p)]
    {
      if CRem(nextseqnum - base, N) < W {
        var packet := DataPacket(nextseqnum, message);
        ModBelow(nextseqnum, N);
        sndBuffer[nextseqnum % N] := packet;
        acked[nextseqnum % N] := false;
        if base == nextseqnum {
          trace := trace + [StartTimer];
        }
        trace := trace + [Send(packet)];
        nextseqnum := (nextseqnum + 1) % N;
      }
    }

    /**
     * A_input: an uncorrupted ACK whose acknum passes the window test sets
     * that slot's acked flag; base then moves past every acknowledged slot,
     * clearing each flag it passes, and the timer is stopped and started
     * again unless nothing is outstanding. Anything else changes nothing.
     * The caller must not hand in an ACK that would index acked with a
     * negative C remainder.
     */
    method Input(p: Packet)
      requires Valid()
      requires IsCorrupted(p) || !InWindow(base, p.acknum, W, N) || CRem(p.acknum, N) >= 0
      modifies this, acked
      ensures Valid() && nextseqnum == old(nextseqnum)
      ensures IsCorrupted(p) || !InWindow(old(base), p.acknum, W, N) ==>
                base == old(base) && acked[..] == old(acked[..]) && trace == old(trace)
      ensures !IsCorrupted(p) && InWindow(old(base), p.acknum, W, N) ==>
                var flags := old(acked[..])[CRem(p.acknum, N) := true];
                var run := RunLength(flags, old(base));
                base == Slot(old(base), run, N) &&
                (forall j :: 0 <= j < N ==> acked[j] == (flags[j] && Dist(old(base), j, N) >= run)) &&
                trace == old(trace) + [StopTimer] + (if base != nextseqnum then [StartTimer] else [])
    {
      if IsCorrupted(p) {
        return;
      }
      var acknum := p.acknum;
      if InWindow(base, acknum, W, N) {
        acked[CRem(acknum, N)] := true;
        SlideBase();
        trace := trace + [StopTimer];
        if base != nextseqnum {
          trace := trace + [StartTimer];
        }
      }
    }

    /**
     * The loop of A_input that moves base forward while the slot at base is
     * acknowledged, clearing each flag it passes. It stops after at most N
     * steps, at the first slot whose flag is clear.
     */
    method SlideBase()
      requires acked.Length == N && 0 <= base < N
      modifies this`base, acked
      ensures var run := RunLength(old(acked[..]), old(base));
              base == Slot(old(base), run, N) &&
              forall j :: 0 <= j < N ==> acked[j] == (old(acked[j]) && Dist(old(base), j, N) >= run)
      ensures !acked[base]
    {
      ghost var base0 := base;
      ghost var flags := acked[..];
      ghost var run := RunLength(flags, base0);
      ghost var steps := 0;
      ModBelow(base, N);
      while acked[base % N]
        invariant 0 <= steps <= run
        invariant base == Slot(base0, steps, N)
        invariant forall j :: 0 <= j < N ==> acked[j] == (flags[j] && Dist(base0, j, N) >= steps)
        decreases N - steps
      {
        ModBelow(base, N);
        assert steps < N;
        DistAfter(base0, steps, N);
        acked[base % N] := false;
        Advance(base0, steps, N);
        base := (base + 1) % N;
        steps := steps + 1;
      }
      ModBelow(base, N);
      if steps < N {
        DistAfter(base0, steps, N);
      }
    }

    /**
     * A_timerinterrupt: resend, going forward from base up to but not
     * including nextseqnum, every buffered packet whose acked flag is clear,
     * then start the timer again. No sender state changes.
     */
    method TimerInterrupt()
      requires Valid()
      modifies this
      ensures Valid() && base == old(base) && nextseqnum == old(nextseqnum)
      ensures trace == old(trace) + Retransmission(sndBuffer[..], acked[..], base, Dist(base, nextseqnum, N)) + [StartTimer]
    {
      ghost var count := Dist(base, nextseqnum, N);
      ghost var t0 := trace;
      ghost var buf, flags := sndBuffer[..], acked[..];
      ghost var k := 0;
      StepDist(base, nextseqnum, N);
      var i := base;
      while i != nextseqnum
        invariant base == old(base) && nextseqnum == old(nextseqnum)
        invariant 0 <= k <= count
        invariant i == Slot(base, k, N)
        invariant trace == t0 + Retransmission(buf, flags, base, k)
        decreases count - k
      {
        ModBelow(i, N);
        ghost var sent := Retransmission(buf, flags, base, k);
        if !acked[i % N] {
          trace := trace + [Send(sndBuffer[i % N])];
          assert trace == t0 + (sent + [Send(buf[i])]);
        }
        Advance(base, k, N);
        i := (i + 1) % N;
        k := k + 1;
      }
      DistAfter(base, k, N);
      trace := trace + [StartTimer];
    }
  }
}
