/** The arithmetic of system/common/repeating_timer.cc: a periodic task that keeps its
    phase however late it runs.  Times are microseconds of boot time, kept as uint64. */
module RepeatingTimer {
  import opened Options
  import opened Words

  /** The remainder of C++, which takes the sign of the dividend. */
  function Remainder(a: int, b: int): int
    requires b > 0
  {
    if a >= 0 then a % b else -((-a) % b)
  }

  /** The delay RunTask posts with, from the time the next task is due. */
  function Delay(due: int, now: int, period: int): int
    requires period > 0
  {
    var remaining := I64(U64(due - now));
    if remaining < 0 then Remainder(Remainder(remaining, period) + period, period) else remaining
  }

  /** The delay SchedulePeriodic posts with, an unsigned difference. */
  function FirstDelay(due: int, now: int): int {
    U64(due - now)
  }

  // ----- one run -----

  ghost predicate OnGrid(t0: int, period: int, t: int)
    requires period > 0
  {
    (t - t0) % period == 0
  }

  lemma MulSign(d: int, p: int)
    requires p > 0
    ensures d >= 1 ==> d * p >= p
    ensures d <= 0 ==> d * p <= 0
    ensures d <= -1 ==> d * p <= -p
  {
  }

  lemma DivMod(x: int, p: int)
    requires p > 0
    ensures x == (x / p) * p + x % p && 0 <= x % p < p
  {
  }

  lemma ExactRemainder(q: int, r: int, p: int)
    requires 0 <= r < p
    ensures (q * p + r) % p == r && (q * p + r) / p == q
  {
    var x := q * p + r;
    DivMod(x, p);
    var d := q - x / p;
    MulSign(d, p);
    assert d * p == q * p - (x / p) * p;
  }

  lemma MultipleOnGrid(q: int, p: int)
    requires p > 0
    ensures (q * p) % p == 0
  {
    ExactRemainder(q, 0, p);
  }

  lemma ModularDistance(late: int, period: int) returns (q: int)
    requires period > 0 && late > 0
    ensures var d := Remainder(Remainder(-late, period) + period, period);
      0 <= d < period && late + d == q * period && (d == 0 <==> late % period == 0)
  {
    var m := late % period;
    DivMod(late, period);
    q := late / period + if m == 0 then 0 else 1;
    assert Remainder(-late, period) == -m;
    if m == 0 {
      ExactRemainder(1, 0, period);
    } else {
      ExactRemainder(0, period - m, period);
      assert (late / period + 1) * period == (late / period) * period + period;
    }
  }

  /** Whatever the lateness, a run posts the next firing for the first grid point that is
      neither in the past nor before the time the task is due. */
  lemma DelayReachesNextGridPoint(t0: int, period: int, due: int, now: int)
    requires period > 0 && OnGrid(t0, period, due)
    requires 0 <= due < TWO_63 && 0 <= now < TWO_63
    ensures var fire := now + Delay(due, now, period);
      && OnGrid(t0, period, fire) && fire >= now && fire >= due
      && (due >= now ==> fire == due)
      && (due < now ==> fire < now + period)
    ensures forall g :: OnGrid(t0, period, g) && g >= now && g >= due ==> g >= now + Delay(due, now, period)
  {
    var fire := now + Delay(due, now, period);
    assert I64(U64(due - now)) == due - now;
    if due < now {
      var q := ModularDistance(now - due, period);
      MultipleOnGrid(q, period);
      GridShift(t0, period, due, fire);
      forall g | OnGrid(t0, period, g) && g >= now && g >= due ensures g >= fire {
        GridShift(t0, period, due, g);
        DivMod(g - due, period);
        var a := (g - due) / period;
        assert fire - g == q * period - a * period == (q - a) * period;
        MulSign(q - a, period);
      }
    }
  }

  /** Being on the grid does not depend on which grid point it is measured from. */
  lemma GridShift(t0: int, period: int, due: int, t: int)
    requires period > 0 && OnGrid(t0, period, due)
    ensures OnGrid(t0, period, t) <==> (t - due) % period == 0
  {
    DivMod(due - t0, period);
    DivMod(t - due, period);
    var a, b, r := (due - t0) / period, (t - due) / period, (t - due) % period;
    assert t - t0 == (a + b) * period + r;
    ExactRemainder(a + b, r, period);
  }

  /** A run posts the next one with no delay exactly when it is behind by whole periods. */
  lemma ZeroDelayExactly(due: int, now: int, period: int)
    requires period > 0 && 0 <= due < TWO_63 && 0 <= now < TWO_63
    ensures Delay(due, now, period) == 0 <==> now >= due && (now - due) % period == 0
  {
    assert I64(U64(due - now)) == due - now;
    if now > due {
      var q := ModularDistance(now - due, period);
    }
  }

  /** The first delay is within the period exactly when the second clock read is not past
      the target; otherwise the unsigned difference wraps. */
  lemma FirstDelayExactly(period: int, now: int, later: int)
    requires 0 < period < TWO_63 && 0 <= now <= later < TWO_63
    ensures 0 <= FirstDelay(now + period, later) <= period <==> later <= now + period
    ensures later <= now + period ==> later + FirstDelay(now + period, later) == now + period
  {
    var d := now + period - later;
    if d < 0 {
      assert U64(d) == d + TWO_64;
    }
  }

  // ----- whole runs -----

  /** When the task is due after `k` runs of a timer scheduled at `t0`. */
  function Due(t0: int, period: int, k: nat): int {
    t0 + (k + 1) * period
  }

  /** When the run after `k` runs is posted to fire; `nows` are the clock reads of the runs. */
  function FireTime(t0: int, period: int, nows: seq<int>, k: nat): int
    requires period > 0 && k <= |nows|
  {
    if k == 0 then t0 + period else nows[k - 1] + Delay(Due(t0, period, k), nows[k - 1], period)
  }

  ghost predicate InRange(t0: int, period: int, nows: seq<int>) {
    && period > 0 && 0 <= t0 && Due(t0, period, |nows|) < TWO_63
    && forall i :: 0 <= i < |nows| ==> 0 <= nows[i] < TWO_63
  }

  lemma DueBounds(t0: int, period: int, k: nat, n: nat)
    requires period > 0 && k <= n
    ensures t0 < Due(t0, period, k) <= Due(t0, period, n)
    ensures OnGrid(t0, period, Due(t0, period, k))
    ensures k > 0 ==> Due(t0, period, k) == Due(t0, period, k - 1) + period
  {
    assert (n + 1) * period == (k + 1) * period + (n - k) * period;
    assert (k + 1) * period == k * period + period;
    MultipleOnGrid(k + 1, period);
  }

  /** Every firing of every run is posted for a grid point that is not in the past and
      not before the task is due. */
  lemma FiresOnGrid(t0: int, period: int, nows: seq<int>, k: nat)
    requires InRange(t0, period, nows) && k <= |nows|
    ensures OnGrid(t0, period, FireTime(t0, period, nows, k))
    ensures FireTime(t0, period, nows, k) >= Due(t0, period, k)
    ensures k > 0 ==> FireTime(t0, period, nows, k) >= nows[k - 1]
  {
    DueBounds(t0, period, k, |nows|);
    if k == 0 {
      DueBounds(t0, period, 0, 0);
    } else {
      DelayReachesNextGridPoint(t0, period, Due(t0, period, k), nows[k - 1]);
    }
  }

  ghost predicate NeverEarly(t0: int, period: int, nows: seq<int>)
    requires period > 0
  {
    forall k :: 0 <= k < |nows| ==> nows[k] >= FireTime(t0, period, nows, k)
  }

  /** If tasks never fire early, run number k + 1 is never before t0 + (k + 1) periods and
      posts the next one with a delay between zero and a period. */
  lemma NeverAheadOfSchedule(t0: int, period: int, nows: seq<int>, k: nat)
    requires InRange(t0, period, nows) && NeverEarly(t0, period, nows) && k < |nows|
    ensures nows[k] >= Due(t0, period, k)
    ensures 0 <= Delay(Due(t0, period, k + 1), nows[k], period) <= period
  {
    FiresOnGrid(t0, period, nows, k);
    DueBounds(t0, period, k + 1, |nows|);
    DelayReachesNextGridPoint(t0, period, Due(t0, period, k + 1), nows[k]);
  }

  // ----- the timer object -----

  class Timer {
    var due: int          // expected_time_next_task_us_
    var period: int       // period_
    var scheduled: bool   // message_loop_thread_ is not null
    ghost var start: int  // the clock when the current schedule was asked for
    ghost var runs: nat   // how often the task has run since

    /** After k runs the task is due at start + (k + 1) periods, modulo 2^64. */
    ghost predicate Valid()
      reads this
    {
      if scheduled then period >= 1 && due == U64(Due(start, period, runs))
      else period == 0 && due == 0
    }

    constructor ()
      ensures Valid() && !scheduled
    {
      due, period, scheduled, start, runs := 0, 0, false, 0, 0;
    }

    /** `now` and `later` are the two clock reads, `posted` is what posting returns. */
    method SchedulePeriodic(hasThread: bool, newPeriod: int, now: int, later: int, posted: bool)
      returns (delay: Option<int>)
      requires Valid()
      modifies this
      ensures Valid()
      ensures delay.Some? <==> newPeriod >= 1 && hasThread && posted
      ensures delay.Some? ==> scheduled && start == now && runs == 0 && period == newPeriod
      ensures delay.Some? ==> due == U64(now + newPeriod) && delay.value == FirstDelay(now + newPeriod, later)
      ensures newPeriod >= 1 && hasThread && !posted ==> !scheduled
      ensures newPeriod < 1 || !hasThread ==> unchanged(this)
    {
      if newPeriod < 1 {
        return None;
      }
      var next := U64(now + newPeriod);
      if !hasThread {
        return None;
      }
      CancelClosure();
      due, period, scheduled, start, runs := next, newPeriod, true, now, 0;
      WrapLater(now + newPeriod, -later);
      var first := U64(next - later);
      if !posted {
        due, scheduled, period := 0, false, 0;
        return None;
      }
      return Some(first);
    }

    method CancelClosure()
      modifies this
      ensures Valid() && !scheduled && due == 0 && period == 0
    {
      scheduled, period, due := false, 0, 0;
    }

    /** `now` is the clock read of this run; the result is the delay it posts with. */
    method RunTask(running: bool, now: int) returns (delay: Option<int>)
      requires Valid()
      modifies this
      ensures Valid() && scheduled == old(scheduled) && start == old(start) && period == old(period)
      ensures delay.Some? <==> scheduled && running
      ensures delay.Some? ==> runs == old(runs) + 1 && due == U64(old(due) + period)
      ensures delay.Some? ==> delay.value == Delay(Due(start, period, runs), now, period)
      ensures delay.None? ==> unchanged(this)
    {
      if !scheduled || !running {
        return None;
      }
      DueBounds(start, period, runs + 1, runs + 1);
      WrapLater(Due(start, period, runs), period);
      WrapLater(Due(start, period, runs + 1), -now);
      due := U64(due + period);
      runs := runs + 1;
      var remaining := I64(U64(due - now));
      if remaining < 0 {
        remaining := Remainder(Remainder(remaining, period) + period, period);
      }
      return Some(remaining);
    }
  }

  /** The first grid point that is neither in the past nor before the task is due. */
  ghost predicate IsNextGridPoint(t0: int, period: int, now: int, due: int, fire: int)
    requires period > 0
  {
    && OnGrid(t0, period, fire) && fire >= now && fire >= due
    && forall g :: OnGrid(t0, period, g) && g >= now && g >= due ==> fire <= g
  }

  lemma FiresNext(t0: int, period: int, nows: seq<int>, k: nat)
    requires InRange(t0, period, nows) && 0 < k <= |nows|
    ensures IsNextGridPoint(t0, period, nows[k - 1], t0 + (k + 1) * period, FireTime(t0, period, nows, k))
  {
    DueBounds(t0, period, k, |nows|);
    DelayReachesNextGridPoint(t0, period, Due(t0, period, k), nows[k - 1]);
  }

  /** A timer scheduled at `t0` whose runs read the clock at `nows`: it asks to fire first
      at t0 + period, and then each time at the next grid point. */
  method FireTimes(t0: int, period: int, nows: seq<int>) returns (fires: seq<int>)
    requires InRange(t0, period, nows)
    ensures |fires| == |nows| + 1 && fires[0] == t0 + period
    ensures forall k :: 0 < k < |fires| ==> IsNextGridPoint(t0, period, nows[k - 1], t0 + (k + 1) * period, fires[k])
  {
    var timer := new Timer();
    var delay := timer.SchedulePeriodic(true, period, t0, t0, true);
    DueBounds(t0, period, 0, |nows|);
    FirstDelayExactly(period, t0, t0);
    fires := [t0 + delay.value];
    for i := 0 to |nows|
      invariant fresh(timer) && timer.Valid() && timer.scheduled
      invariant timer.start == t0 && timer.period == period && timer.runs == i
      invariant |fires| == i + 1
      invariant forall k :: 0 <= k <= i ==> fires[k] == FireTime(t0, period, nows, k)
    {
      delay := timer.RunTask(true, nows[i]);
      fires := fires + [nows[i] + delay.value];
    }
    forall k | 0 < k < |fires|
      ensures IsNextGridPoint(t0, period, nows[k - 1], t0 + (k + 1) * period, fires[k])
    {
      FiresNext(t0, period, nows, k);
    }
  }
}
