/** The argument schedule produced by `CustomArguments`, as values.

    `CustomArguments(b, start, end, threshold1, threshold2)` registers benchmark sizes in
    three phases, each a counter loop that appends its counter to the benchmark:
      1. `for (i = start; i < threshold1 && i <= end; i += s1)`
      2. `for (i = threshold1; i <= threshold2 && i <= end; i += s2)`
      3. `for (i = threshold2 * 2; i <= end; i *= k)`
    This module describes what each loop appends, what its counter holds when it stops,
    and proves the properties a caller relies on: every size is at most `end`, each phase
    strictly increases, the phases join into a strictly increasing schedule when the
    thresholds are ordered, and, on unbounded integers, the guard of the geometric phase
    never fails when it starts at a non-positive value not above `end` (on a C++ `int` only
    a start of 0 loops forever; a negative start ends in signed overflow). */
module ArgSchedule {
  import opened CInt

  function Min(a: int, b: int): (r: int) {
    if a <= b then a else b
  }

  function Max(a: int, b: int): (r: int) {
    if a <= b then b else a
  }

  lemma MulAssoc(a: int, b: int, c: int)
    ensures a * b * c == a * (b * c)
  {
  }

  /** k to the power n. */
  function Pow(k: int, n: nat): (r: int) {
    if n == 0 then 1 else k * Pow(k, n - 1)
  }

  lemma Assoc(a: seq<int>, b: seq<int>, c: seq<int>)
    ensures a + (b + c) == (a + b) + c
  {
  }

  predicate StrictlyIncreasing(s: seq<int>) {
    forall j, l :: 0 <= j < l < |s| ==> s[j] < s[l]
  }

  // ---------------------------------------------------------------------------
  // Linear phases: `for (i = from; i <= limit; i += s)`
  // ---------------------------------------------------------------------------

  /** The counters appended by `for (i = from; i <= limit; i += s) b->Arg(i);`. */
  function Linear(from: int, limit: int, s: int): (r: seq<int>)
    requires s > 0
    decreases limit - from
  {
    if from <= limit then [from] + Linear(from + s, limit, s) else []
  }

  /** The counter of that loop once its guard fails. */
  function LinearExit(from: int, limit: int, s: int): (r: int)
    requires s > 0
    decreases limit - from
  {
    if from <= limit then LinearExit(from + s, limit, s) else from
  }

  /** The j-th appended value is from + j*s. */
  lemma {:induction false} LinearAt(from: int, limit: int, s: int, j: int)
    requires s > 0
    requires 0 <= j < |Linear(from, limit, s)|
    ensures Linear(from, limit, s)[j] == from + j * s
    decreases limit - from
  {
    if j > 0 {
      LinearAt(from + s, limit, s, j - 1);
      assert (j - 1) * s + s == j * s;
    }
  }

  lemma MulAtLeast(d: int, s: int)
    requires d >= 1 && s > 0
    ensures d * s >= s
  {
  }

  lemma DivUnique(a: int, s: int, q: int, r: int)
    requires s > 0 && 0 <= r < s && a == q * s + r
    ensures a / s == q
  {
    var q', r' := a / s, a % s;
    assert a == q' * s + r' && 0 <= r' < s;
    var d := q - q';
    assert d * s == q * s - q' * s;
    assert d * s == r' - r;
    if d >= 1 {
      MulAtLeast(d, s);
    } else if d <= -1 {
      MulAtLeast(-d, s);
    }
  }

  lemma DivStep(x: int, s: int)
    requires x >= 0 && s > 0
    ensures (x + s) / s == x / s + 1
  {
    var q, r := x / s, x % s;
    assert (q + 1) * s == q * s + s;
    DivUnique(x + s, s, q + 1, r);
  }

  /** The number of values a linear phase appends. */
  lemma {:induction false} LinearLength(from: int, limit: int, s: int)
    requires s > 0
    ensures |Linear(from, limit, s)| == if from > limit then 0 else (limit - from) / s + 1
    decreases limit - from
  {
    if from <= limit {
      LinearLength(from + s, limit, s);
      if from + s <= limit {
        DivStep(limit - from - s, s);
      }
    }
  }

  /** A linear phase is exactly the arithmetic progression from, from + s, ...
      of as many terms as there are values in [from, limit] on that grid. */
  lemma LinearClosedForm(from: int, limit: int, s: int)
    requires s > 0
    ensures Linear(from, limit, s) == seq(|Linear(from, limit, s)|, j => from + j * s)
  {
    var r := Linear(from, limit, s);
    forall j | 0 <= j < |r|
      ensures r[j] == from + j * s
    {
      LinearAt(from, limit, s, j);
    }
  }

  /** A linear phase stays in [from, limit] and strictly increases. */
  lemma {:induction false} LinearIncreasing(from: int, limit: int, s: int)
    requires s > 0
    ensures forall j :: 0 <= j < |Linear(from, limit, s)| ==>
              from <= Linear(from, limit, s)[j] <= limit
    ensures StrictlyIncreasing(Linear(from, limit, s))
    decreases limit - from
  {
    if from <= limit {
      LinearIncreasing(from + s, limit, s);
      var r, rest := Linear(from, limit, s), Linear(from + s, limit, s);
      assert r == [from] + rest;
      forall j | 0 < j < |r|
        ensures from < r[j] <= limit
      {
        assert r[j] == rest[j - 1];
      }
      forall j, l | 0 <= j < l < |r|
        ensures r[j] < r[l]
      {
        assert r[l] == rest[l - 1];
        if j > 0 {
          assert r[j] == rest[j - 1];
        }
      }
    }
  }

  /** The exit value of the counter is the value after the last one appended: it is above
      the limit and at most one step above it, and it is never below the start. */
  lemma {:induction false} LinearExitAfter(from: int, limit: int, s: int)
    requires s > 0
    ensures LinearExit(from, limit, s) == from + |Linear(from, limit, s)| * s
    ensures LinearExit(from, limit, s) > limit
    ensures LinearExit(from, limit, s) >= from
    ensures from <= limit ==> LinearExit(from, limit, s) <= limit + s
    decreases limit - from
  {
    if from <= limit {
      LinearExitAfter(from + s, limit, s);
      var n := |Linear(from + s, limit, s)|;
      assert from + s + n * s == from + (n + 1) * s;
    }
  }

  // ---------------------------------------------------------------------------
  // Geometric phase: `for (i = from; i <= end; i *= k)`
  // ---------------------------------------------------------------------------

  /** The geometric loop stops exactly when it starts above `end` or at a positive value.
      Otherwise, on unbounded integers, its counter satisfies `from * k^n <= from <= end` for
      every n (GeometricNeverStops); on a C++ `int` a start of 0 loops forever and a
      negative start ends in signed overflow (NegativeStartOverflows). */
  predicate GeometricStops(from: int, end: int) {
    from > end || from > 0
  }

  /** The counters appended by `for (i = from; i <= end; i *= k) b->Arg(i);`. */
  function Geometric(from: int, end: int, k: int): (r: seq<int>)
    requires k >= 2 && GeometricStops(from, end)
    decreases end - from
  {
    if from <= end then [from] + Geometric(from * k, end, k) else []
  }

  /** The counter of that loop once its guard fails. */
  function GeometricExit(from: int, end: int, k: int): (r: int)
    requires k >= 2 && GeometricStops(from, end)
    decreases end - from
  {
    if from <= end then GeometricExit(from * k, end, k) else from
  }

  /** One iteration of the geometric loop: the counter grows, the loop still stops, the
      value is appended in front of what the rest of the loop appends, and the next
      counter is at most the exit value. */
  lemma GeometricStep(i: int, end: int, k: int)
    requires k >= 2 && GeometricStops(i, end) && i <= end
    ensures i * k > i && GeometricStops(i * k, end)
    ensures Geometric(i, end, k) == [i] + Geometric(i * k, end, k)
    ensures GeometricExit(i * k, end, k) == GeometricExit(i, end, k)
    ensures i * k <= GeometricExit(i, end, k)
  {
    GeometricExitAfter(i * k, end, k);
  }

  /** The n-th appended value is from * k^n. */
  lemma {:induction false} GeometricAt(from: int, end: int, k: int, n: int)
    requires k >= 2 && GeometricStops(from, end)
    requires 0 <= n < |Geometric(from, end, k)|
    ensures Geometric(from, end, k)[n] == from * Pow(k, n)
    decreases end - from
  {
    if n > 0 {
      GeometricAt(from * k, end, k, n - 1);
      MulAssoc(from, k, Pow(k, n - 1));
    }
  }

  /** Every appended value is in [from, end], the phase strictly increases, and it appends
      something only when it starts at a positive value. */
  lemma {:induction false} GeometricIncreasing(from: int, end: int, k: int)
    requires k >= 2 && GeometricStops(from, end)
    ensures forall j :: 0 <= j < |Geometric(from, end, k)| ==>
              from <= Geometric(from, end, k)[j] <= end
    ensures |Geometric(from, end, k)| > 0 ==> from > 0
    ensures StrictlyIncreasing(Geometric(from, end, k))
    decreases end - from
  {
    if from <= end {
      GeometricIncreasing(from * k, end, k);
      var r := Geometric(from, end, k);
      var rest := Geometric(from * k, end, k);
      assert r == [from] + rest;
      assert from < from * k;
      forall j, l | 0 <= j < l < |r|
        ensures r[j] < r[l]
      {
        if j > 0 {
          assert r[j] == rest[j - 1] && r[l] == rest[l - 1];
        } else {
          assert r[l] == rest[l - 1];
        }
      }
    }
  }

  /** The exit value of the counter is from * k^(number of appended values), the first
      power above `end`. */
  lemma {:induction false} GeometricExitAfter(from: int, end: int, k: int)
    requires k >= 2 && GeometricStops(from, end)
    ensures GeometricExit(from, end, k) == from * Pow(k, |Geometric(from, end, k)|)
    ensures GeometricExit(from, end, k) > end
    ensures GeometricExit(from, end, k) >= from
    decreases end - from
  {
    if from <= end {
      GeometricExitAfter(from * k, end, k);
      MulAssoc(from, k, Pow(k, |Geometric(from * k, end, k)|));
    }
  }

  /** The exit value of a linear loop is a value the loop itself computes: the start if
      nothing is appended, otherwise the last appended value plus one step (`i += s`). */
  lemma LinearExitComputed(from: int, limit: int, s: int)
    requires s > 0
    ensures |Linear(from, limit, s)| == 0 ==> LinearExit(from, limit, s) == from
    ensures |Linear(from, limit, s)| > 0 ==>
              LinearExit(from, limit, s) == Linear(from, limit, s)[|Linear(from, limit, s)| - 1] + s
  {
    var n := |Linear(from, limit, s)|;
    LinearExitAfter(from, limit, s);
    if n > 0 {
      LinearAt(from, limit, s, n - 1);
      assert (n - 1) * s + s == n * s;
    }
  }

  /** The exit value of the geometric loop is a value the loop itself computes: the start if
      nothing is appended, otherwise the last appended value times k (`i *= k`). */
  lemma GeometricExitComputed(from: int, end: int, k: int)
    requires k >= 2 && GeometricStops(from, end)
    ensures |Geometric(from, end, k)| == 0 ==> GeometricExit(from, end, k) == from
    ensures |Geometric(from, end, k)| > 0 ==>
              GeometricExit(from, end, k) == Geometric(from, end, k)[|Geometric(from, end, k)| - 1] * k
  {
    var n := |Geometric(from, end, k)|;
    GeometricExitAfter(from, end, k);
    if n > 0 {
      GeometricAt(from, end, k, n - 1);
      var p := Pow(k, n - 1);
      assert Pow(k, n) == k * p;
      MulAssoc(from, p, k);
      assert p * k == k * p;
    }
  }

  /** On unbounded integers, when the counter starts at or below end but is not positive, the
      guard `i <= end` holds after every number n of multiplications, because
      `from * k^n <= from <= end`. On a C++ `int` this is an endless loop only from 0. */
  lemma {:induction false} GeometricNeverStops(from: int, end: int, k: int, n: nat)
    requires from <= 0 && from <= end && k >= 1
    ensures from * Pow(k, n) <= end
  {
    PowAtLeastOne(k, n);
    var p := Pow(k, n);
    assert from * p == from + from * (p - 1);
    assert from * (p - 1) <= 0;
  }

  lemma {:induction false} PowAtLeastOne(k: int, n: nat)
    requires k >= 1
    ensures Pow(k, n) >= 1
  {
    if n > 0 {
      PowAtLeastOne(k, n - 1);
      assert k * Pow(k, n - 1) >= Pow(k, n - 1);
    }
  }

  lemma {:induction false} PowAtLeastPowTwo(k: int, n: nat)
    requires k >= 2
    ensures Pow(k, n) >= Pow(2, n) >= 1
  {
    if n > 0 {
      PowAtLeastPowTwo(k, n - 1);
      assert k * Pow(k, n - 1) >= 2 * Pow(k, n - 1);
    }
  }

  lemma {:induction false} PowAdd(k: int, a: nat, b: nat)
    ensures Pow(k, a + b) == Pow(k, a) * Pow(k, b)
    decreases a
  {
    if a > 0 {
      PowAdd(k, a - 1, b);
      MulAssoc(k, Pow(k, a - 1), Pow(k, b));
    }
  }

  lemma PowTwo32()
    ensures Pow(2, 32) == 0x1_0000_0000
  {
    assert Pow(2, 4) == 16;
    PowAdd(2, 4, 4);
    PowAdd(2, 8, 8);
    PowAdd(2, 16, 16);
  }

  /** GeometricNeverStops is about unbounded integers. On a C++ `int` only a start of 0
      really loops forever: from a negative start the counter leaves the range of `int`
      (signed overflow) by the 32nd multiplication. */
  lemma NegativeStartOverflows(from: int, k: int)
    requires from < 0 && k >= 2
    ensures from * Pow(k, 32) < MIN
  {
    PowAtLeastPowTwo(k, 32);
    var p := Pow(k, 32);
    PowTwo32();
    assert from * p <= -1 * p by {
      assert from * p - (-1) * p == (from + 1) * p;
    }
  }

  /** Multiplying by 4 visits every other value that multiplying by 2 visits: the values
      from * 4^n are the values from * 2^(2n), and there are half as many, rounded up. */
  lemma {:induction false} GeometricEveryOther(from: int, end: int)
    requires GeometricStops(from, end)
    ensures |Geometric(from, end, 4)| == (|Geometric(from, end, 2)| + 1) / 2
    ensures forall n :: 0 <= n < |Geometric(from, end, 4)| ==>
              2 * n < |Geometric(from, end, 2)| &&
              Geometric(from, end, 4)[n] == Geometric(from, end, 2)[2 * n]
    decreases end - from
  {
    if from <= end {
      var g4, g2 := Geometric(from, end, 4), Geometric(from, end, 2);
      if from * 2 <= end {
        GeometricEveryOther(from * 4, end);
        var t4, t2 := Geometric(from * 4, end, 4), Geometric(from * 4, end, 2);
        assert g4 == [from] + t4;
        assert Geometric(from * 2, end, 2) == [from * 2] + t2;
        assert g2 == [from] + ([from * 2] + t2);
        forall n | 0 <= n < |g4|
          ensures 2 * n < |g2| && g4[n] == g2[2 * n]
        {
          if n > 0 {
            assert g4[n] == t4[n - 1];
            assert g2[2 * n] == t2[2 * (n - 1)];
          }
        }
      } else {
        assert g2 == [from];
        assert g4 == [from];
      }
    }
  }

  // ---------------------------------------------------------------------------
  // The three phases together
  // ---------------------------------------------------------------------------

  /** Phase 1: `i < threshold1 && i <= end` is `i <= Min(threshold1 - 1, end)` on integers. */
  function Phase1(start: int, end: int, threshold1: int, s1: int): (r: seq<int>)
    requires s1 > 0
  {
    Linear(start, Min(threshold1 - 1, end), s1)
  }

  /** Phase 2: `i <= threshold2 && i <= end` is `i <= Min(threshold2, end)`. */
  function Phase2(end: int, threshold1: int, threshold2: int, s2: int): (r: seq<int>)
    requires s2 > 0
  {
    Linear(threshold1, Min(threshold2, end), s2)
  }

  /** Whether the geometric phase, which starts at `threshold2 * 2`, terminates. */
  predicate Stops(end: int, threshold2: int) {
    GeometricStops(2 * threshold2, end)
  }

  function Phase3(end: int, threshold2: int, k: int): (r: seq<int>)
    requires k >= 2 && Stops(end, threshold2)
  {
    Geometric(2 * threshold2, end, k)
  }

  /** All sizes registered, in registration order. */
  function Schedule(start: int, end: int, threshold1: int, threshold2: int,
                    s1: int, s2: int, k: int): (r: seq<int>)
    requires s1 > 0 && s2 > 0 && k >= 2 && Stops(end, threshold2)
  {
    Phase1(start, end, threshold1, s1) + Phase2(end, threshold1, threshold2, s2)
      + Phase3(end, threshold2, k)
  }

  /** The exact condition under which no loop overflows an `int`: the start value of phase 3
      fits, and so do the counters that make the guards of phases 2 and 3 fail. Phase 1
      cannot overflow: its counter stays below `threshold1` before each increment by 1. */
  predicate NoOverflow(end: int, threshold1: int, threshold2: int, s2: int, k: int)
    requires s2 > 0 && k >= 2 && Stops(end, threshold2)
  {
    Fits(2 * threshold2)
    && Fits(LinearExit(threshold1, Min(threshold2, end), s2))
    && Fits(GeometricExit(2 * threshold2, end, k))
  }

  /** Simple sufficient bounds for NoOverflow: the last phase-2 value plus one step fits,
      and `end * k` fits. */
  lemma NoOverflowFromBounds(end: int, threshold1: int, threshold2: int, s2: int, k: int)
    requires s2 > 0 && k >= 2 && Stops(end, threshold2)
    requires Fits(end) && Fits(threshold1) && Fits(2 * threshold2)
    requires Min(threshold2, end) + s2 <= MAX
    requires end * k <= MAX
    ensures NoOverflow(end, threshold1, threshold2, s2, k)
  {
    LinearExitAfter(threshold1, Min(threshold2, end), s2);
    if 2 * threshold2 <= end {
      GeometricExitBound(2 * threshold2, end, k);
      GeometricExitAfter(2 * threshold2, end, k);
    }
  }

  /** The geometric counter's exit value overshoots `end` by at most a factor k. */
  lemma {:induction false} GeometricExitBound(from: int, end: int, k: int)
    requires k >= 2 && GeometricStops(from, end) && from <= end
    ensures GeometricExit(from, end, k) <= end * k
    decreases end - from
  {
    if from * k <= end {
      GeometricExitBound(from * k, end, k);
    } else {
      assert from * k <= end * k;
    }
  }

  /** Each phase's values lie in its own window and never exceed `end`. */
  lemma PhaseBounds(start: int, end: int, threshold1: int, threshold2: int,
                    s1: int, s2: int, k: int)
    requires s1 > 0 && s2 > 0 && k >= 2 && Stops(end, threshold2)
    ensures forall x :: x in Phase1(start, end, threshold1, s1) ==>
              start <= x < threshold1 && x <= end
    ensures forall x :: x in Phase2(end, threshold1, threshold2, s2) ==>
              threshold1 <= x <= threshold2 && x <= end
    ensures forall x :: x in Phase3(end, threshold2, k) ==> 2 * threshold2 <= x <= end
  {
    LinearIncreasing(start, Min(threshold1 - 1, end), s1);
    LinearIncreasing(threshold1, Min(threshold2, end), s2);
    GeometricIncreasing(2 * threshold2, end, k);
  }

  /** No registered size exceeds `end`. */
  lemma ScheduleAtMostEnd(start: int, end: int, threshold1: int, threshold2: int,
                          s1: int, s2: int, k: int)
    requires s1 > 0 && s2 > 0 && k >= 2 && Stops(end, threshold2)
    ensures forall x :: x in Schedule(start, end, threshold1, threshold2, s1, s2, k) ==> x <= end
  {
    PhaseBounds(start, end, threshold1, threshold2, s1, s2, k);
  }

  /** Number of sizes phase 1 registers, and when it registers none. */
  lemma Phase1Count(start: int, end: int, threshold1: int)
    ensures |Phase1(start, end, threshold1, 1)| == Max(0, Min(threshold1 - 1, end) - start + 1)
    ensures Phase1(start, end, threshold1, 1) == [] <==> start >= threshold1 || start > end
  {
    LinearLength(start, Min(threshold1 - 1, end), 1);
  }

  /** Number of sizes phase 2 registers, and when it registers none. */
  lemma Phase2Count(end: int, threshold1: int, threshold2: int, s2: int)
    requires s2 > 0
    ensures |Phase2(end, threshold1, threshold2, s2)| ==
            if threshold1 > Min(threshold2, end) then 0
            else (Min(threshold2, end) - threshold1) / s2 + 1
    ensures Phase2(end, threshold1, threshold2, s2) == [] <==>
            threshold1 > threshold2 || threshold1 > end
  {
    LinearLength(threshold1, Min(threshold2, end), s2);
  }

  lemma ConcatIncreasing(a: seq<int>, b: seq<int>)
    requires StrictlyIncreasing(a) && StrictlyIncreasing(b)
    requires forall j, l :: 0 <= j < |a| && 0 <= l < |b| ==> a[j] < b[l]
    ensures StrictlyIncreasing(a + b)
  {
  }

  /** With a positive `threshold2` and `threshold1 <= 2 * threshold2`, the sizes are strictly
      increasing across all three phases, so no size is registered twice. */
  lemma ScheduleIncreasing(start: int, end: int, threshold1: int, threshold2: int,
                           s1: int, s2: int, k: int)
    requires s1 > 0 && s2 > 0 && k >= 2
    requires threshold2 > 0 && threshold1 <= 2 * threshold2
    ensures StrictlyIncreasing(Schedule(start, end, threshold1, threshold2, s1, s2, k))
    ensures var r := Schedule(start, end, threshold1, threshold2, s1, s2, k);
            forall j, l :: 0 <= j < |r| && 0 <= l < |r| && j != l ==> r[j] != r[l]
  {
    var p1 := Phase1(start, end, threshold1, s1);
    var p2 := Phase2(end, threshold1, threshold2, s2);
    var p3 := Phase3(end, threshold2, k);
    LinearIncreasing(start, Min(threshold1 - 1, end), s1);
    LinearIncreasing(threshold1, Min(threshold2, end), s2);
    GeometricIncreasing(2 * threshold2, end, k);
    ConcatIncreasing(p1, p2);
    forall j, l | 0 <= j < |p1 + p2| && 0 <= l < |p3|
      ensures (p1 + p2)[j] < p3[l]
    {
      if j < |p1| {
        assert (p1 + p2)[j] == p1[j];
      } else {
        assert (p1 + p2)[j] == p2[j - |p1|];
      }
    }
    ConcatIncreasing(p1 + p2, p3);
    var r := Schedule(start, end, threshold1, threshold2, s1, s2, k);
    assert r == (p1 + p2) + p3;
    forall j, l | 0 <= j < |r| && 0 <= l < |r| && j != l
      ensures r[j] != r[l]
    {
      if j < l {
        assert r[j] < r[l];
      } else {
        assert r[l] < r[j];
      }
    }
  }
}
