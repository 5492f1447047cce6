/** Slot reservation for calls to a rate-limited host (`providers.py`, `_RateLimiter`). */
module RateLimiter {

  function Max(a: real, b: real): real { if a >= b then a else b }

  /** `k` intervals of length `m`. */
  function Times(k: int, m: real): real {
    k as real * m
  }

  /** The start times reserved by callers that take the lock at these clock readings. */
  function Starts(nows: seq<real>, m: real): (starts: seq<real>)
    ensures |starts| == |nows|
  {
    if nows == [] then []
    else
      var before := Starts(nows[..|nows| - 1], m);
      before + [Max(nows[|nows| - 1], NextSlot(before, m))]
  }

  /** The first slot not yet taken after these starts. */
  function NextSlot(starts: seq<real>, m: real): real {
    if starts == [] then 0.0 else starts[|starts| - 1] + m
  }

  class Limiter {
    const minInterval: real
    var nextSlot: real
    ghost var arrivals: seq<real>

    constructor (minInterval: real)
      ensures this.minInterval == minInterval && arrivals == [] && Valid()
    {
      this.minInterval := minInterval;
      nextSlot := 0.0;
      arrivals := [];
    }

    ghost predicate Valid()
      reads this
    {
      nextSlot == NextSlot(Starts(arrivals, minInterval), minInterval)
    }

    /** `wait`: reserves a slot under the lock; the caller then sleeps for `delay` when that is positive. */
    method Wait(now: real) returns (start: real, delay: real)
      requires Valid()
      modifies this
      ensures Valid()
      ensures arrivals == old(arrivals) + [now]
      ensures Starts(arrivals, minInterval) == Starts(old(arrivals), minInterval) + [start]
      ensures delay == start - now >= 0.0
    {
      assert (arrivals + [now])[..|arrivals|] == arrivals;
      start := Max(now, nextSlot);
      nextSlot := start + minInterval;
      arrivals := arrivals + [now];
      delay := start - now;
    }
  }

  /** Everybody who reserves before caller `i` is served as if nobody came after. */
  lemma {:induction false} StartsPrefix(nows: seq<real>, m: real, k: nat)
    requires k <= |nows|
    ensures Starts(nows[..k], m) == Starts(nows, m)[..k]
  {
    if k == |nows| {
      assert nows[..k] == nows;
    } else {
      StartsPrefix(nows[..|nows| - 1], m, k);
      assert nows[..|nows| - 1][..k] == nows[..k];
    }
  }

  lemma StartsAt(nows: seq<real>, m: real, i: nat)
    requires i < |nows|
    ensures Starts(nows, m)[i] == Max(nows[i], if i == 0 then 0.0 else Starts(nows, m)[i - 1] + m)
  {
    StartsPrefix(nows, m, i + 1);
    StartsPrefix(nows, m, i);
    assert nows[..i + 1][..i] == nows[..i];
    assert Starts(nows, m)[i] == Starts(nows[..i + 1], m)[i];
  }

  // ----- the max-plus closed form -----

  /** The start that caller `j`'s reading alone would force on caller `i`. */
  function Forced(nows: seq<real>, m: real, i: nat, j: nat): real
    requires j <= i < |nows|
  {
    nows[j] + Times(i - j, m)
  }

  /** Caller `i` starts at the largest of the times forced by the callers up to `i`, clocks starting at zero. */
  lemma {:induction false} ClosedForm(nows: seq<real>, m: real, i: nat)
    requires i < |nows| && nows[0] >= 0.0
    ensures forall j: nat :: j <= i ==> Starts(nows, m)[i] >= Forced(nows, m, i, j)
    ensures exists j: nat :: j <= i && Starts(nows, m)[i] == Forced(nows, m, i, j)
  {
    StartsAt(nows, m, i);
    if i == 0 {
      assert Starts(nows, m)[0] == Forced(nows, m, 0, 0);
    } else {
      ClosedForm(nows, m, i - 1);
      forall j: nat | j < i ensures Forced(nows, m, i, j) == Forced(nows, m, i - 1, j) + m {
        OneMore(nows, m, i, j);
      }
      if Starts(nows, m)[i] == nows[i] {
        assert Starts(nows, m)[i] == Forced(nows, m, i, i);
      } else {
        var j: nat :| j <= i - 1 && Starts(nows, m)[i - 1] == Forced(nows, m, i - 1, j);
        assert Starts(nows, m)[i] == Forced(nows, m, i, j);
      }
    }
  }

  lemma OneMore(nows: seq<real>, m: real, i: nat, j: nat)
    requires j < i < |nows|
    ensures Forced(nows, m, i, j) == Forced(nows, m, i - 1, j) + m
  {
    TimesNext((i - 1 - j) as real, (i - j) as real, m);
  }

  // ----- the schedule is the earliest possible -----

  /** A schedule that starts nobody before arrival and keeps consecutive starts `m` apart. */
  ghost predicate Feasible(schedule: seq<real>, nows: seq<real>, m: real) {
    && |schedule| == |nows|
    && (forall i :: 0 <= i < |nows| ==> schedule[i] >= nows[i])
    && (forall i :: 0 < i < |nows| ==> schedule[i] >= schedule[i - 1] + m)
  }

  lemma StartsFeasible(nows: seq<real>, m: real)
    ensures Feasible(Starts(nows, m), nows, m)
  {
    forall i | 0 <= i < |nows|
      ensures Starts(nows, m)[i] >= nows[i]
      ensures i > 0 ==> Starts(nows, m)[i] >= Starts(nows, m)[i - 1] + m
    {
      StartsAt(nows, m, i);
    }
  }

  /** No feasible schedule lets any caller start earlier. */
  lemma {:induction false} StartsEarliest(nows: seq<real>, m: real, schedule: seq<real>, i: nat)
    requires Feasible(schedule, nows, m) && i < |nows| && nows[0] >= 0.0
    ensures Starts(nows, m)[i] <= schedule[i]
  {
    StartsAt(nows, m, i);
    if i > 0 {
      StartsEarliest(nows, m, schedule, i - 1);
    }
  }

  // ----- how many starts a window holds -----

  function CountIn(starts: seq<real>, a: real, width: real): nat {
    if starts == [] then 0
    else
      CountIn(starts[..|starts| - 1], a, width)
      + if a <= starts[|starts| - 1] < a + width then 1 else 0
  }

  function Ceiling(x: real): int {
    -((-x).Floor)
  }

  ghost predicate Spaced(starts: seq<real>, m: real) {
    forall i :: 0 < i < |starts| ==> starts[i] >= starts[i - 1] + m
  }

  lemma {:induction false} SpacedLast(starts: seq<real>, m: real, j: nat)
    requires m >= 0.0 && Spaced(starts, m) && j < |starts| - 1
    ensures starts[|starts| - 1] >= starts[j] + m
    decreases |starts| - j
  {
    if j < |starts| - 2 {
      SpacedLast(starts, m, j + 1);
    }
  }

  /** `k` intervals, by repeated addition. */
  function Intervals(k: nat, m: real): real {
    if k == 0 then 0.0 else Intervals(k - 1, m) + m
  }

  lemma {:induction false} IntervalsMultiply(k: nat, m: real)
    ensures Intervals(k, m) == Times(k, m)
  {
    if k > 0 {
      IntervalsMultiply(k - 1, m);
      TimesNext((k - 1) as real, k as real, m);
    }
  }

  lemma TimesNext(x: real, y: real, m: real)
    requires y == x + 1.0
    ensures y * m == x * m + m
  {
  }

  lemma TimesGrows(x: real, y: real, m: real)
    requires x <= y && m >= 0.0
    ensures x * m <= y * m
  {
  }

  /** Among the starts in a window one lies at least as many intervals after its beginning as there are others. */
  lemma {:induction false} CountReaches(starts: seq<real>, m: real, a: real, width: real) returns (j: nat)
    requires m >= 0.0 && Spaced(starts, m) && CountIn(starts, a, width) > 0
    ensures j < |starts| && a <= starts[j] < a + width
    ensures starts[j] >= a + Intervals(CountIn(starts, a, width) - 1, m)
  {
    var front, n := starts[..|starts| - 1], |starts| - 1;
    if CountIn(front, a, width) > 0 {
      j := CountReaches(front, m, a, width);
      if a <= starts[n] < a + width {
        SpacedLast(starts, m, j);
        j := n;
      }
    } else {
      j := n;
    }
  }

  lemma CeilingAbove(k: int, x: real)
    requires (k - 1) as real < x
    ensures k <= Ceiling(x)
  {
    assert (-x).Floor as real <= -x < (1 - k) as real;
  }

  lemma QuotientAbove(x: real, m: real, width: real)
    requires m > 0.0 && x * m < width
    ensures x < width / m
  {
    var q := width / m;
    assert q * m == width;
    if x >= q {
      TimesGrows(q, x, m);
    }
  }

  lemma SpacedCount(starts: seq<real>, m: real, a: real, width: real)
    requires m > 0.0 && Spaced(starts, m) && CountIn(starts, a, width) > 0
    ensures Times(CountIn(starts, a, width) - 1, m) < width
  {
    var j := CountReaches(starts, m, a, width);
    IntervalsMultiply(CountIn(starts, a, width) - 1, m);
  }

  /** Any half-open window of length `width` holds at most ceil(width / m) starts. */
  lemma WindowBound(nows: seq<real>, m: real, a: real, width: real)
    requires m > 0.0 && width >= 0.0
    ensures CountIn(Starts(nows, m), a, width) <= Ceiling(width / m)
  {
    hide Starts, CountIn, Ceiling;
    var starts := Starts(nows, m);
    var k := CountIn(starts, a, width);
    StartsFeasible(nows, m);
    if k > 0 {
      SpacedCount(starts, m, a, width);
      QuotientAbove((k - 1) as real, m, width);
    } else {
      NonNegativeQuotient(m, width);
    }
    CeilingAbove(k, width / m);
  }

  lemma NonNegativeQuotient(m: real, width: real)
    requires m > 0.0 && width >= 0.0
    ensures width / m >= 0.0
  {
  }

  // ----- how long callers wait -----

  lemma MoreIntervals(j: int, i: int, m: real)
    requires m >= 0.0 && j <= i
    ensures Times(j, m) <= Times(i, m)
  {
    TimesGrows(j as real, i as real, m);
  }

  /** With a clock that does not run backwards, caller `i` waits at most `i` intervals. */
  lemma WaitBound(nows: seq<real>, m: real, i: nat)
    requires m >= 0.0 && i < |nows| && nows[0] >= 0.0
    requires forall j, k :: 0 <= j <= k < |nows| ==> nows[j] <= nows[k]
    ensures 0.0 <= Starts(nows, m)[i] - nows[i] <= Times(i, m)
  {
    ClosedForm(nows, m, i);
    var j: nat :| j <= i && Starts(nows, m)[i] == Forced(nows, m, i, j);
    StartsAt(nows, m, i);
    MoreIntervals(i - j, i, m);
    assert nows[j] <= nows[i];
  }

  /** In a burst of simultaneous callers, caller `i` waits exactly that long. */
  lemma BurstWaits(nows: seq<real>, m: real, i: nat)
    requires m >= 0.0 && i < |nows| && nows[0] >= 0.0
    requires forall j :: 0 <= j < |nows| ==> nows[j] == nows[0]
    ensures Starts(nows, m)[i] - nows[i] == Times(i, m)
  {
    WaitBound(nows, m, i);
    ClosedForm(nows, m, i);
    assert Starts(nows, m)[i] >= Forced(nows, m, i, 0);
  }
}
