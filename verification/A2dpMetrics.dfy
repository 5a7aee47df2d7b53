/** The A2DP session metrics of system/common/metrics.cc: how updates are merged, and
    how far the merged averages are from the true ones.  Negative means "no value". */
module A2dpMetrics {
  import opened Words

  /** The fields of A2dpSessionMetrics; the float average is modelled by a real. */
  datatype Metrics = Metrics(
    audioDurationMs: int,
    mediaTimerMinMs: int,
    mediaTimerMaxMs: int,
    mediaTimerAvgMs: int,
    totalSchedulingCount: int,
    bufferOverrunsMaxCount: int,
    bufferOverrunsTotal: int,
    bufferUnderrunsAverage: real,
    bufferUnderrunsCount: int,
    codecIndex: int,
    isA2dpOffload: bool)

  const EMPTY := Metrics(-1, -1, -1, -1, -1, -1, -1, -1.0, -1, -1, false)

  function CombineAverages(avgA: int, countA: int, avgB: int, countB: int): int {
    if countA > 0 && countB > 0 then Quotient(avgA * countA + avgB * countB, countA + countB)
    else if countB > 0 then avgB
    else avgA
  }

  /** Integer division of C++, which rounds towards zero. */
  function Quotient(a: int, b: int): int
    requires b > 0
  {
    if a >= 0 then a / b else -((-a) / b)
  }

  function CombineRealAverages(avgA: real, countA: int, avgB: real, countB: int): real {
    if countA > 0 && countB > 0 then
      (avgA * countA as real + avgB * countB as real) / (countA + countB) as real
    else if countB > 0 then avgB
    else avgA
  }

  /** Both parts of a timer average are present. */
  predicate HasTimer(m: Metrics) {
    m.mediaTimerAvgMs >= 0 && m.totalSchedulingCount >= 0
  }

  predicate HasUnderruns(m: Metrics) {
    m.bufferUnderrunsAverage >= 0.0 && m.bufferUnderrunsCount >= 0
  }

  /** What Update leaves in the object. */
  function Merge(m: Metrics, x: Metrics): Metrics {
    var timer := if !HasTimer(x) then (m.mediaTimerAvgMs, m.totalSchedulingCount)
                 else if !HasTimer(m) then (x.mediaTimerAvgMs, x.totalSchedulingCount)
                 else (CombineAverages(m.mediaTimerAvgMs, m.totalSchedulingCount,
                                       x.mediaTimerAvgMs, x.totalSchedulingCount),
                       m.totalSchedulingCount + x.totalSchedulingCount);
    var underruns := if !HasUnderruns(x) then (m.bufferUnderrunsAverage, m.bufferUnderrunsCount)
                     else if !HasUnderruns(m) then (x.bufferUnderrunsAverage, x.bufferUnderrunsCount)
                     else (CombineRealAverages(m.bufferUnderrunsAverage, m.bufferUnderrunsCount,
                                               x.bufferUnderrunsAverage, x.bufferUnderrunsCount),
                           m.bufferUnderrunsCount + x.bufferUnderrunsCount);
    Metrics(
      if x.audioDurationMs >= 0 then Max(0, m.audioDurationMs) + x.audioDurationMs else m.audioDurationMs,
      if x.mediaTimerMinMs < 0 then m.mediaTimerMinMs
      else if m.mediaTimerMinMs < 0 then x.mediaTimerMinMs
      else Min(m.mediaTimerMinMs, x.mediaTimerMinMs),
      if x.mediaTimerMaxMs >= 0 then Max(m.mediaTimerMaxMs, x.mediaTimerMaxMs) else m.mediaTimerMaxMs,
      timer.0, timer.1,
      if x.bufferOverrunsMaxCount >= 0 then Max(m.bufferOverrunsMaxCount, x.bufferOverrunsMaxCount)
      else m.bufferOverrunsMaxCount,
      if x.bufferOverrunsTotal >= 0 then Max(0, m.bufferOverrunsTotal) + x.bufferOverrunsTotal
      else m.bufferOverrunsTotal,
      underruns.0, underruns.1,
      if m.codecIndex < 0 then x.codecIndex else m.codecIndex,
      m.isA2dpOffload || x.isA2dpOffload)
  }

  /** The object after a sequence of updates. */
  function Accumulate(updates: seq<Metrics>): Metrics {
    if updates == [] then EMPTY else Merge(Accumulate(updates[..|updates| - 1]), updates[|updates| - 1])
  }

  // ----- the exact values the object stands for -----

  /** The sum of `f` over the updates where `f` is not negative. */
  ghost function Sum(updates: seq<Metrics>, f: Metrics -> int): int {
    if updates == [] then 0
    else
      var last := f(updates[|updates| - 1]);
      Sum(updates[..|updates| - 1], f) + if last >= 0 then last else 0
  }

  /** A total is the exact sum of the values seen, or absent when none was. */
  ghost predicate IsTotal(total: int, updates: seq<Metrics>, f: Metrics -> int) {
    if exists x :: x in updates && f(x) >= 0 then total == Sum(updates, f) else total == -1
  }

  /** A bound is attained by one of the values seen and holds for all of them, or is
      absent when none was seen. */
  ghost predicate IsMaximum(bound: int, updates: seq<Metrics>, f: Metrics -> int) {
    if exists x :: x in updates && f(x) >= 0
    then (exists x :: x in updates && f(x) == bound >= 0) && forall x :: x in updates ==> f(x) <= bound
    else bound == -1
  }

  ghost predicate IsMinimum(bound: int, updates: seq<Metrics>, f: Metrics -> int) {
    if exists x :: x in updates && f(x) >= 0
    then (exists x :: x in updates && f(x) == bound >= 0)
         && forall x :: x in updates && f(x) >= 0 ==> bound <= f(x)
    else bound == -1
  }

  /** Σ count of the updates with a timer average. */
  ghost function Count(updates: seq<Metrics>): int {
    if updates == [] then 0
    else
      var x := updates[|updates| - 1];
      Count(updates[..|updates| - 1]) + if HasTimer(x) then x.totalSchedulingCount else 0
  }

  /** Σ average * count of the same updates; the exact mean is this over Count. */
  ghost function Weighted(updates: seq<Metrics>): int {
    if updates == [] then 0
    else
      var x := updates[|updates| - 1];
      Weighted(updates[..|updates| - 1]) + if HasTimer(x) then x.mediaTimerAvgMs * x.totalSchedulingCount else 0
  }

  /** How many updates combined two non-empty averages. */
  ghost function Merges(updates: seq<Metrics>): nat {
    if updates == [] then 0
    else
      var before, x := updates[..|updates| - 1], updates[|updates| - 1];
      Merges(before) + if Count(before) > 0 && HasTimer(x) && x.totalSchedulingCount > 0 then 1 else 0
  }

  lemma DivisionBounds(n: int, d: int)
    requires d > 0 && n >= 0
    ensures var q := Quotient(n, d); q >= 0 && q * d <= n < q * d + d
  {
  }

  /** One rounded merge adds an error below one to the mean. */
  lemma MergeError(a: int, t: int, b: int, c: int, s: int, m: nat)
    requires a >= 0 && t > 0 && b >= 0 && c > 0
    requires 0 <= s - a * t && (if m == 0 then s == a * t else s - a * t < m * t)
    ensures var a' := CombineAverages(a, t, b, c);
      a' >= 0 && 0 <= (s + b * c) - a' * (t + c) < (m + 1) * (t + c)
  {
    var n := a * t + b * c;
    assert a * t >= 0 && b * c >= 0;
    DivisionBounds(n, t + c);
    assert (m + 1) * (t + c) == m * t + m * c + (t + c);
    assert m * c >= 0;
  }

  /** The stored count is the sum of the merged counts, and once it is positive the stored
      integer average never exceeds the exact weighted mean and, after m merges of two
      non-empty averages, is below it by less than m. */
  lemma {:induction false} AverageDrift(updates: seq<Metrics>)
    ensures var r := Accumulate(updates); var m := Merges(updates);
      && (HasTimer(r) <==> exists x :: x in updates && HasTimer(x))
      && Count(updates) >= 0
      && (HasTimer(r) ==> r.totalSchedulingCount == Count(updates))
      && (!HasTimer(r) ==> r.mediaTimerAvgMs == r.totalSchedulingCount == -1 && Count(updates) == 0)
      && (Count(updates) == 0 ==> m == 0 && Weighted(updates) == 0)
      && (Count(updates) > 0 ==>
            && 0 <= Weighted(updates) - r.mediaTimerAvgMs * Count(updates)
            && (if m == 0 then Weighted(updates) == r.mediaTimerAvgMs * Count(updates)
                else Weighted(updates) - r.mediaTimerAvgMs * Count(updates) < m * Count(updates)))
  {
    if updates != [] {
      var before, x := updates[..|updates| - 1], updates[|updates| - 1];
      AverageDrift(before);
      assert updates == before + [x];
      var r := Accumulate(before);
      if HasTimer(x) && Count(before) > 0 && x.totalSchedulingCount > 0 {
        MergeError(r.mediaTimerAvgMs, Count(before), x.mediaTimerAvgMs, x.totalSchedulingCount,
                   Weighted(before), Merges(before));
      }
    }
  }

  // ----- the buffer underrun average, over reals -----

  function UnderrunsOf(x: Metrics): int {
    if HasUnderruns(x) then x.bufferUnderrunsCount else 0
  }

  function UnderrunWeight(x: Metrics): real {
    if HasUnderruns(x) then x.bufferUnderrunsAverage * x.bufferUnderrunsCount as real else 0.0
  }

  ghost function UnderrunCount(updates: seq<Metrics>): int {
    if updates == [] then 0
    else UnderrunCount(updates[..|updates| - 1]) + UnderrunsOf(updates[|updates| - 1])
  }

  ghost function WeightedUnderruns(updates: seq<Metrics>): real {
    if updates == [] then 0.0
    else WeightedUnderruns(updates[..|updates| - 1]) + UnderrunWeight(updates[|updates| - 1])
  }

  lemma RealMergeIsExact(a: real, t: int, b: real, c: int)
    requires t > 0 && c > 0 && a >= 0.0 && b >= 0.0
    ensures var r := CombineRealAverages(a, t, b, c);
      r >= 0.0 && r * (t + c) as real == a * t as real + b * c as real
  {
  }

  /** The object holds the exact mean of weight `w` and count `n`, or nothing. */
  ghost predicate IsMean(m: Metrics, some: bool, n: int, w: real) {
    if some then
      && HasUnderruns(m) && m.bufferUnderrunsCount == n >= 0
      && (if n == 0 then w == 0.0 else m.bufferUnderrunsAverage * n as real == w)
    else m.bufferUnderrunsAverage == -1.0 && m.bufferUnderrunsCount == -1 && n == 0 && w == 0.0
  }

  lemma MergeKeepsMean(m: Metrics, some: bool, n: int, w: real, x: Metrics)
    requires IsMean(m, some, n, w)
    ensures IsMean(Merge(m, x), some || HasUnderruns(x), n + UnderrunsOf(x), w + UnderrunWeight(x))
  {
    if HasUnderruns(x) && n > 0 && x.bufferUnderrunsCount > 0 {
      RealMergeIsExact(m.bufferUnderrunsAverage, n, x.bufferUnderrunsAverage, x.bufferUnderrunsCount);
    }
  }

  /** Where rounding is left out, the stored underrun average is the exact weighted mean. */
  lemma {:induction false} UnderrunMeanIsExact(updates: seq<Metrics>)
    ensures IsMean(Accumulate(updates), AnyUnderruns(updates), UnderrunCount(updates), WeightedUnderruns(updates))
  {
    if updates != [] {
      var before, x := updates[..|updates| - 1], updates[|updates| - 1];
      UnderrunMeanIsExact(before);
      assert updates == before + [x];
      assert AnyUnderruns(updates) == (AnyUnderruns(before) || HasUnderruns(x));
      MergeKeepsMean(Accumulate(before), AnyUnderruns(before), UnderrunCount(before), WeightedUnderruns(before), x);
    }
  }

  ghost predicate AnyUnderruns(updates: seq<Metrics>) {
    exists x :: x in updates && HasUnderruns(x)
  }

  // ----- totals and extremes -----

  lemma {:induction false} SumNonNegative(updates: seq<Metrics>, f: Metrics -> int)
    ensures Sum(updates, f) >= 0
  {
    if updates != [] {
      SumNonNegative(updates[..|updates| - 1], f);
    }
  }

  lemma ExtendTotal(total: int, before: seq<Metrics>, x: Metrics, f: Metrics -> int)
    requires IsTotal(total, before, f)
    ensures IsTotal(if f(x) >= 0 then Max(0, total) + f(x) else total, before + [x], f)
  {
    var after := before + [x];
    assert after[..|after| - 1] == before && x in after;
    SumNonNegative(before, f);
    NoneMeansZero(before, f);
    assert forall y :: y in after <==> y in before || y == x;
  }

  lemma {:induction false} NoneMeansZero(updates: seq<Metrics>, f: Metrics -> int)
    ensures (forall x :: x in updates ==> f(x) < 0) ==> Sum(updates, f) == 0
  {
    if updates != [] {
      NoneMeansZero(updates[..|updates| - 1], f);
    }
  }

  lemma ExtendMaximum(bound: int, before: seq<Metrics>, x: Metrics, f: Metrics -> int)
    requires IsMaximum(bound, before, f)
    ensures IsMaximum(if f(x) >= 0 then Max(bound, f(x)) else bound, before + [x], f)
  {
    assert forall y :: y in before + [x] <==> y in before || y == x;
  }

  lemma ExtendMinimum(bound: int, before: seq<Metrics>, x: Metrics, f: Metrics -> int)
    requires IsMinimum(bound, before, f)
    ensures IsMinimum(if f(x) < 0 then bound else if bound < 0 then f(x) else Min(bound, f(x)), before + [x], f)
  {
    assert forall y :: y in before + [x] <==> y in before || y == x;
  }

  /** The totals are exact sums and the extremes are attained bounds, over every sequence
      of updates, with missing values ignored. */
  lemma {:induction false} AccumulateIsExact(updates: seq<Metrics>)
    ensures var r := Accumulate(updates);
      && IsTotal(r.audioDurationMs, updates, (x: Metrics) => x.audioDurationMs)
      && IsTotal(r.bufferOverrunsTotal, updates, (x: Metrics) => x.bufferOverrunsTotal)
      && IsMaximum(r.mediaTimerMaxMs, updates, (x: Metrics) => x.mediaTimerMaxMs)
      && IsMaximum(r.bufferOverrunsMaxCount, updates, (x: Metrics) => x.bufferOverrunsMaxCount)
      && IsMinimum(r.mediaTimerMinMs, updates, (x: Metrics) => x.mediaTimerMinMs)
      && (r.isA2dpOffload <==> exists x :: x in updates && x.isA2dpOffload)
  {
    if updates != [] {
      var before, x := updates[..|updates| - 1], updates[|updates| - 1];
      AccumulateIsExact(before);
      assert updates == before + [x];
      var r := Accumulate(before);
      ExtendTotal(r.audioDurationMs, before, x, (x: Metrics) => x.audioDurationMs);
      ExtendTotal(r.bufferOverrunsTotal, before, x, (x: Metrics) => x.bufferOverrunsTotal);
      ExtendMaximum(r.mediaTimerMaxMs, before, x, (x: Metrics) => x.mediaTimerMaxMs);
      ExtendMaximum(r.bufferOverrunsMaxCount, before, x, (x: Metrics) => x.bufferOverrunsMaxCount);
      ExtendMinimum(r.mediaTimerMinMs, before, x, (x: Metrics) => x.mediaTimerMinMs);
    }
  }

  /** The codec is that of the first update that names one. */
  lemma {:induction false} CodecIsFirstNamed(updates: seq<Metrics>, i: nat)
    requires i < |updates| && updates[i].codecIndex >= 0
    requires forall j :: 0 <= j < i ==> updates[j].codecIndex < 0
    ensures Accumulate(updates).codecIndex == updates[i].codecIndex
  {
    var before := updates[..|updates| - 1];
    if i < |before| {
      CodecIsFirstNamed(before, i);
    } else {
      NoCodecYet(before);
    }
  }

  lemma {:induction false} NoCodecYet(updates: seq<Metrics>)
    requires forall x :: x in updates ==> x.codecIndex < 0
    ensures Accumulate(updates).codecIndex < 0
  {
    if updates != [] {
      NoCodecYet(updates[..|updates| - 1]);
    }
  }

  // ----- the object -----

  class A2dpSessionMetrics {
    var audioDurationMs: int
    var mediaTimerMinMs: int
    var mediaTimerMaxMs: int
    var mediaTimerAvgMs: int
    var totalSchedulingCount: int
    var bufferOverrunsMaxCount: int
    var bufferOverrunsTotal: int
    var bufferUnderrunsAverage: real
    var bufferUnderrunsCount: int
    var codecIndex: int
    var isA2dpOffload: bool

    function View(): Metrics
      reads this
    {
      Metrics(audioDurationMs, mediaTimerMinMs, mediaTimerMaxMs, mediaTimerAvgMs, totalSchedulingCount,
              bufferOverrunsMaxCount, bufferOverrunsTotal, bufferUnderrunsAverage, bufferUnderrunsCount,
              codecIndex, isA2dpOffload)
    }

    constructor ()
      ensures View() == EMPTY
    {
      audioDurationMs, mediaTimerMinMs, mediaTimerMaxMs, mediaTimerAvgMs := -1, -1, -1, -1;
      totalSchedulingCount, bufferOverrunsMaxCount, bufferOverrunsTotal := -1, -1, -1;
      bufferUnderrunsAverage, bufferUnderrunsCount, codecIndex, isA2dpOffload := -1.0, -1, -1, false;
    }

    /** Assigning a default-constructed object. */
    method Reset()
      modifies this
      ensures View() == EMPTY
    {
      audioDurationMs, mediaTimerMinMs, mediaTimerMaxMs, mediaTimerAvgMs := -1, -1, -1, -1;
      totalSchedulingCount, bufferOverrunsMaxCount, bufferOverrunsTotal := -1, -1, -1;
      bufferUnderrunsAverage, bufferUnderrunsCount, codecIndex, isA2dpOffload := -1.0, -1, -1, false;
    }

    method Update(x: Metrics)
      modifies this
      ensures View() == Merge(old(View()), x)
    {
      UpdateTimers(x);
      UpdateBuffers(x);
      if codecIndex < 0 {
        codecIndex := x.codecIndex;
      }
      if !isA2dpOffload {
        isA2dpOffload := x.isA2dpOffload;
      }
    }

    /** The first part of Update: duration and media timer. */
    method UpdateTimers(x: Metrics)
      modifies `audioDurationMs, `mediaTimerMinMs, `mediaTimerMaxMs, `mediaTimerAvgMs, `totalSchedulingCount
      ensures var m := Merge(old(View()), x);
        && audioDurationMs == m.audioDurationMs && mediaTimerMinMs == m.mediaTimerMinMs
        && mediaTimerMaxMs == m.mediaTimerMaxMs && mediaTimerAvgMs == m.mediaTimerAvgMs
        && totalSchedulingCount == m.totalSchedulingCount
    {
      if x.audioDurationMs >= 0 {
        audioDurationMs := Max(0, audioDurationMs);
        audioDurationMs := audioDurationMs + x.audioDurationMs;
      }
      if x.mediaTimerMinMs >= 0 {
        if mediaTimerMinMs < 0 {
          mediaTimerMinMs := x.mediaTimerMinMs;
        } else {
          mediaTimerMinMs := Min(mediaTimerMinMs, x.mediaTimerMinMs);
        }
      }
      if x.mediaTimerMaxMs >= 0 {
        mediaTimerMaxMs := Max(mediaTimerMaxMs, x.mediaTimerMaxMs);
      }
      if x.mediaTimerAvgMs >= 0 && x.totalSchedulingCount >= 0 {
        if mediaTimerAvgMs < 0 || totalSchedulingCount < 0 {
          mediaTimerAvgMs := x.mediaTimerAvgMs;
          totalSchedulingCount := x.totalSchedulingCount;
        } else {
          mediaTimerAvgMs := CombineAverages(mediaTimerAvgMs, totalSchedulingCount,
                                             x.mediaTimerAvgMs, x.totalSchedulingCount);
          totalSchedulingCount := totalSchedulingCount + x.totalSchedulingCount;
        }
      }
    }

    /** The second part of Update: buffer overruns and underruns. */
    method UpdateBuffers(x: Metrics)
      modifies `bufferOverrunsMaxCount, `bufferOverrunsTotal, `bufferUnderrunsAverage, `bufferUnderrunsCount
      ensures var m := Merge(old(View()), x);
        && bufferOverrunsMaxCount == m.bufferOverrunsMaxCount && bufferOverrunsTotal == m.bufferOverrunsTotal
        && bufferUnderrunsAverage == m.bufferUnderrunsAverage && bufferUnderrunsCount == m.bufferUnderrunsCount
    {
      if x.bufferOverrunsMaxCount >= 0 {
        bufferOverrunsMaxCount := Max(bufferOverrunsMaxCount, x.bufferOverrunsMaxCount);
      }
      if x.bufferOverrunsTotal >= 0 {
        bufferOverrunsTotal := Max(0, bufferOverrunsTotal);
        bufferOverrunsTotal := bufferOverrunsTotal + x.bufferOverrunsTotal;
      }
      if x.bufferUnderrunsAverage >= 0.0 && x.bufferUnderrunsCount >= 0 {
        if bufferUnderrunsAverage < 0.0 || bufferUnderrunsCount < 0 {
          bufferUnderrunsAverage := x.bufferUnderrunsAverage;
          bufferUnderrunsCount := x.bufferUnderrunsCount;
        } else {
          bufferUnderrunsAverage := CombineRealAverages(bufferUnderrunsAverage, bufferUnderrunsCount,
                                                        x.bufferUnderrunsAverage, x.bufferUnderrunsCount);
          bufferUnderrunsCount := bufferUnderrunsCount + x.bufferUnderrunsCount;
        }
      }
    }
  }
}
