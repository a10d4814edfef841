// Sequence-number arithmetic on the ring of N sequence numbers: C's remainder,
// forward distance, the receive/send window test and runs of set flags.

module Window {

  lemma ModBelow(x: int, n: int)
    requires 0 <= x < n
    ensures x % n == x
  {
  }

  lemma ModWrap(x: int, n: int)
    requires 0 < n <= x < 2 * n
    ensures x % n == x - n
  {
  }

  lemma ModNeg(x: int, n: int)
    requires 0 < n && -n <= x < 0
    ensures x % n == x + n
  {
  }

  lemma MulAtLeast(d: int, n: int)
    requires d >= 1 && n > 0
    ensures d * n >= n
  {
  }

  /** Euclidean remainder is the only remainder in [0, n) of a given quotient. */
  lemma ModUnique(a: int, q: int, r: int, n: int)
    requires n > 0 && 0 <= r < n && a == q * n + r
    ensures a % n == r
  {
    var q', r' := a / n, a % n;
    assert a == q' * n + r';
    assert (q - q') * n == r' - r;
    if q - q' >= 1 {
      MulAtLeast(q - q', n);
    } else if q' - q >= 1 {
      MulAtLeast(q' - q, n);
    }
  }

  /**
   * The `%` operator of C on `int` with a positive divisor: the quotient is
   * truncated toward zero, so the remainder has the sign of the dividend.
   * It agrees with the mathematical remainder modulo n.
   */
  function CRem(a: int, n: int): (r: int)
    requires n > 0
    ensures -n < r < n
    ensures 0 <= a ==> 0 <= r
    ensures a <= 0 ==> r <= 0
    ensures 0 <= a < n ==> r == a
    ensures r % n == a % n
  {
    if a >= 0 then
      PosRem(a, n);
      a % n
    else
      NegRem(-a, n);
      -((-a) % n)
  }

  lemma PosRem(a: int, n: int)
    requires a >= 0 && n > 0
    ensures (a % n) % n == a % n
    ensures a < n ==> a % n == a
  {
    ModBelow(a % n, n);
    if a < n {
      ModBelow(a, n);
    }
  }

  /** Negating a number negates its remainder, modulo n. */
  lemma NegRem(m: int, n: int)
    requires m >= 0 && n > 0
    ensures (-(m % n)) % n == (-m) % n
  {
    var q, t := m / n, m % n;
    assert m == q * n + t;
    if t == 0 {
      ModUnique(-m, -q, 0, n);
      ModBelow(0, n);
    } else {
      ModUnique(-t, -1, n - t, n);
      ModUnique(-m, -q - 1, n - t, n);
    }
  }

  /**
   * The slot k steps forward from `from` on a ring of n slots, that is
   * (from + k) mod n (see SlotIsMod), written without `%`.
   */
  function Slot(from: int, k: int, n: int): (r: int)
    requires 0 <= from < n && 0 <= k <= n
    ensures 0 <= r < n
  {
    if from + k < n then from + k else from + k - n
  }

  /**
   * How many steps forward round the ring it takes to get from `from` to
   * `to`, that is (to - from) mod n (see DistIsMod), written without `%`.
   */
  function Dist(from: int, to: int, n: int): (d: int)
    requires 0 <= from < n && 0 <= to < n
    ensures 0 <= d < n
  {
    if from <= to then to - from else to - from + n
  }

  lemma SlotIsMod(from: int, k: int, n: int)
    requires 0 <= from < n && 0 <= k <= n
    ensures Slot(from, k, n) == (from + k) % n
  {
    if from + k < n {
      ModBelow(from + k, n);
    } else {
      ModWrap(from + k, n);
    }
  }

  lemma DistIsMod(from: int, to: int, n: int)
    requires 0 <= from < n && 0 <= to < n
    ensures Dist(from, to, n) == (to - from) % n
  {
    if from <= to {
      ModBelow(to - from, n);
    } else {
      ModNeg(to - from, n);
    }
  }

  /** Stepping k < n places forward from `from` lands at distance k. */
  lemma DistAfter(from: int, k: int, n: int)
    requires 0 <= from < n && 0 <= k < n
    ensures Dist(from, Slot(from, k, n), n) == k
  {
  }

  /** Stepping forward by the distance from `from` to `to` lands on `to`. */
  lemma StepDist(from: int, to: int, n: int)
    requires 0 <= from < n && 0 <= to < n
    ensures Slot(from, Dist(from, to, n), n) == to
  {
  }

  /** One more `(x + 1) % n` step after k < n steps from `from` is step k + 1. */
  lemma Advance(from: int, k: int, n: int)
    requires 0 <= from < n && 0 <= k < n
    ensures (Slot(from, k, n) + 1) % n == Slot(from, k + 1, n)
  {
    if Slot(from, k, n) + 1 < n {
      ModBelow(Slot(from, k, n) + 1, n);
    } else {
      ModWrap(n, n);
    }
  }

  /**
   * in_window: is `s` one of the w sequence numbers starting at `start`?
   * The last number of the window is computed with C's remainder; when it
   * is below `start` the window wraps past N - 1 and the test becomes a
   * disjunction.
   */
  function InWindow(start: int, s: int, w: int, n: int): (r: bool)
    requires n > 0
    ensures 1 <= w <= n && 0 <= start < n && s == start ==> r
    ensures 1 <= w <= n && 0 <= start < n && s == Slot(start, w - 1, n) ==> r
    ensures 1 <= w < n && 0 <= start < n && s == Slot(start, w, n) ==> !r
  {
    LastOfWindow(start, w, n);
    var last := CRem(start + w - 1, n);
    if start <= last then s >= start && s <= last
    else s >= start || s <= last
  }

  /** The last number of a window of w numbers from `start`, as in_window computes it. */
  lemma LastOfWindow(start: int, w: int, n: int)
    requires n > 0
    ensures 1 <= w <= n && 0 <= start < n ==> CRem(start + w - 1, n) == Slot(start, w - 1, n)
  {
    if 1 <= w <= n && 0 <= start < n {
      SlotIsMod(start, w - 1, n);
    }
  }

  /** For sequence numbers in range, the window test is "fewer than w steps ahead of start". */
  lemma InWindowIff(start: int, s: int, w: int, n: int)
    requires 1 <= w <= n && 0 <= start < n && 0 <= s < n
    ensures InWindow(start, s, w, n) <==> (s - start) % n < w
    ensures InWindow(start, s, w, n) <==> Dist(start, s, n) < w
  {
    if start + w - 1 < n {
      ModBelow(start + w - 1, n);
    } else {
      ModWrap(start + w - 1, n);
    }
    DistIsMod(start, s, n);
  }

  /**
   * The wrap branch of the window test also admits numbers outside [0, n):
   * with n = 8, w = 4 and start = 6, the number -1 is "in the window",
   * and its C remainder, a negative array index, is -1.
   */
  lemma InWindowAdmitsNegative()
    ensures InWindow(6, -1, 4, 8) && CRem(-1, 8) == -1
    ensures InWindow(6, 10, 4, 8) && CRem(10, 8) == 2 && !InWindow(6, 2, 4, 8)
  {
  }

  function RunFrom(flags: seq<bool>, from: int, k: nat): (r: nat)
    requires 0 <= from < |flags| && k <= |flags|
    ensures k <= r <= |flags|
    ensures forall j :: k <= j < r ==> flags[Slot(from, j, |flags|)]
    ensures r < |flags| ==> !flags[Slot(from, r, |flags|)]
    decreases |flags| - k
  {
    if k == |flags| || !flags[Slot(from, k, |flags|)] then k
    else RunFrom(flags, from, k + 1)
  }

  /**
   * The number of consecutive set flags met going forward round the ring
   * from slot `from`, at most one full turn: the number of iterations of a
   * loop that clears the flag at its position and steps forward while that
   * flag is set.
   */
  function RunLength(flags: seq<bool>, from: int): (r: nat)
    requires 0 <= from < |flags|
    ensures r <= |flags|
    ensures forall j :: 0 <= j < r ==> flags[Slot(from, j, |flags|)]
    ensures r < |flags| ==> !flags[Slot(from, r, |flags|)]
  {
    RunFrom(flags, from, 0)
  }

  /**
   * The run length is the only count r such that the r flags after `from`
   * are set and the next one, if any, is clear.
   */
  lemma RunLengthUnique(flags: seq<bool>, from: int, r: nat)
    requires 0 <= from < |flags| && r <= |flags|
    requires forall j :: 0 <= j < r ==> flags[Slot(from, j, |flags|)]
    requires r < |flags| ==> !flags[Slot(from, r, |flags|)]
    ensures RunLength(flags, from) == r
  {
  }
}
