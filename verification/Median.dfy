/** The latency verdict: the median of the samples, in int64 nanoseconds, against a threshold. */
module Median {
  import opened Sequences
  import opened Sorting

  // ---------------------------------------------------------------- int64 arithmetic

  const TWO_TO_THE_62 := 0x4000_0000_0000_0000
  const TWO_TO_THE_63 := 0x8000_0000_0000_0000
  const TWO_TO_THE_64 := 0x1_0000_0000_0000_0000

  predicate IsInt64(x: int) { -TWO_TO_THE_63 <= x < TWO_TO_THE_63 }

  /** The int64 a sum is stored as. */
  function Wrap(x: int): (r: int)
    ensures IsInt64(r)
  {
    (x + TWO_TO_THE_63) % TWO_TO_THE_64 - TWO_TO_THE_63
  }

  /** Go's division by two, which truncates toward zero. */
  function Half(x: int): int {
    if x >= 0 then x / 2 else -(-x / 2)
  }

  /** The average of two samples is their truncated average exactly when their sum fits. */
  lemma AverageExactIff(a: int, b: int)
    requires IsInt64(a) && IsInt64(b)
    ensures Half(Wrap(a + b)) == Half(a + b) <==> IsInt64(a + b)
  {
    if a + b >= TWO_TO_THE_63 {
      assert Wrap(a + b) == a + b - TWO_TO_THE_64;
    } else if a + b < -TWO_TO_THE_63 {
      assert Wrap(a + b) == a + b + TWO_TO_THE_64;
    } else {
      assert Wrap(a + b) == a + b;
    }
  }

  // ---------------------------------------------------------------- sorting samples

  ghost predicate Ascending(s: seq<int>) {
    forall i, j :: 0 <= i < j < |s| ==> s[i] <= s[j]
  }

  function InsertSample(x: int, s: seq<int>): (r: seq<int>)
    requires Ascending(s)
    ensures Ascending(r) && multiset(r) == multiset(s) + multiset{x}
  {
    if s == [] then [x]
    else
      assert s == [s[0]] + s[1..];
      if s[0] < x then
        var rest := InsertSample(x, s[1..]);
        LeastFirst(s[0], rest, s[1..], x);
        [s[0]] + rest
      else [x] + s
  }

  lemma LeastFirst(least: int, rest: seq<int>, s: seq<int>, x: int)
    requires Ascending(rest) && multiset(rest) == multiset(s) + multiset{x}
    requires least < x && forall i :: 0 <= i < |s| ==> least <= s[i]
    ensures Ascending([least] + rest)
  {
    forall i | 0 <= i < |rest| ensures least <= rest[i] {
      assert rest[i] in multiset(s) + multiset{x};
    }
  }

  /** slices.Sort */
  function SortSamples(s: seq<int>): (r: seq<int>)
    ensures Ascending(r) && multiset(r) == multiset(s) && |r| == |s|
  {
    if s == [] then []
    else
      assert s == [s[0]] + s[1..];
      InsertSample(s[0], SortSamples(s[1..]))
  }

  method SortInPlace(a: array<int>)
    modifies a
    ensures a[..] == SortSamples(old(a[..]))
  {
    var sorted := SortSamples(a[..]);
    forall i | 0 <= i < a.Length {
      a[i] := sorted[i];
    }
  }

  // ---------------------------------------------------------------- the verdict

  function MedianOf(sorted: seq<int>): int
    requires sorted != []
  {
    var n := |sorted|;
    if n % 2 == 0 then Half(Wrap(sorted[n / 2 - 1] + sorted[n / 2])) else sorted[n / 2]
  }

  predicate Passes(samples: seq<int>, threshold: int)
    requires samples != []
  {
    MedianOf(SortSamples(samples)) < threshold
  }

  /** The median of sorted samples, averaging the two middle values for an even count. */
  method Middle(durations: array<int>) returns (median: int)
    requires durations.Length > 0
    ensures median == MedianOf(durations[..])
  {
    var n := durations.Length;
    median := durations[n / 2];
    if n % 2 == 0 {
      median := Half(Wrap(durations[n / 2 - 1] + durations[n / 2]));
    }
  }

  /** assertMedianBelowThreshold, which sorts its argument. */
  method AssertMedianBelowThreshold(threshold: int, durations: array<int>) returns (pass: bool)
    requires durations.Length > 0
    modifies durations
    ensures pass == Passes(old(durations[..]), threshold)
    ensures Elapsed(old(durations[..])) ==> Verdict(old(durations[..]), threshold, pass)
    ensures durations[..] == SortSamples(old(durations[..]))
  {
    ghost var samples := durations[..];
    SortInPlace(durations);
    var median := Middle(durations);
    pass := median < threshold;
    if Elapsed(samples) { VerdictIs(samples, threshold); }
  }

  /** time.Since: the longest Duration stands for anything longer. */
  function Since(elapsed: nat): (d: int)
    ensures 0 <= d < TWO_TO_THE_63
  {
    if elapsed < TWO_TO_THE_63 then elapsed else TWO_TO_THE_63 - 1
  }

  function Samples(n: nat, elapsed: nat -> nat): (samples: seq<int>)
    ensures |samples| == n && forall i: nat :: i < n ==> samples[i] == Since(elapsed(i))
    ensures Elapsed(samples)
  {
    seq(n, (i: nat) => Since(elapsed(i)))
  }

  /** MeasureMedianLatency; elapsed(i) is how long sample i takes. A count that is not positive fails unsampled. */
  method MeasureMedianLatency(threshold: int, n: int, elapsed: nat -> nat) returns (pass: bool, sampled: seq<nat>)
    ensures sampled == if n > 0 then seq(n, i => i) else []
    ensures pass <==> n > 0 && Passes(Samples(n, elapsed), threshold)
    ensures n > 0 ==> Verdict(Samples(n, elapsed), threshold, pass)
  {
    sampled := [];
    if n <= 0 {
      return false, sampled;
    }
    var durations := new int[n];
    for i := 0 to n
      invariant sampled == seq(i, j => j)
      invariant forall j :: 0 <= j < i ==> durations[j] == Since(elapsed(j))
    {
      durations[i] := Since(elapsed(i));
      sampled := sampled + [i];
    }
    assert durations[..] == Samples(n, elapsed);
    pass := AssertMedianBelowThreshold(threshold, durations);
  }

  // ---------------------------------------------------------------- counting samples

  function Keep(t: int): int -> seq<int> {
    (x: int) => if x < t then [x] else []
  }

  function CountBelow(s: seq<int>, t: int): nat {
    |FlatMap(Keep(t), s)|
  }

  lemma CountOfPermutation(s: seq<int>, u: seq<int>, t: int)
    requires multiset(s) == multiset(u)
    ensures CountBelow(s, t) == CountBelow(u, t)
  {
    FlatMapPermuted(Keep(t), s, u);
    assert |multiset(FlatMap(Keep(t), s))| == |multiset(FlatMap(Keep(t), u))|;
  }

  /** In ascending order, the k-th sample is below a bound exactly when more than k samples are. */
  lemma {:induction false} RankIff(s: seq<int>, t: int, k: nat)
    requires Ascending(s) && k < |s|
    ensures s[k] < t <==> CountBelow(s, t) >= k + 1
  {
    if s[0] >= t {
      NoneBelow(s, t);
    } else if k > 0 {
      RankIff(s[1..], t, k - 1);
    }
  }

  lemma {:induction false} NoneBelow(s: seq<int>, t: int)
    requires forall i :: 0 <= i < |s| ==> s[i] >= t
    ensures CountBelow(s, t) == 0
  {
    if s != [] { NoneBelow(s[1..], t); }
  }

  lemma CountBelowSorted(samples: seq<int>, t: int)
    ensures CountBelow(SortSamples(samples), t) == CountBelow(samples, t)
  {
    CountOfPermutation(SortSamples(samples), samples, t);
  }

  // ---------------------------------------------------------------- what the verdict depends on

  lemma {:induction false} AscendingOrderIsUnique(a: seq<int>, b: seq<int>)
    requires Ascending(a) && Ascending(b) && multiset(a) == multiset(b)
    ensures a == b
  {
    assert |a| == |multiset(a)| == |b|;
    forall k | 0 <= k < |a| ensures a[k] == b[k] {
      CountOfPermutation(a, b, a[k] + 1);
      CountOfPermutation(a, b, b[k] + 1);
      RankIff(a, a[k] + 1, k);
      RankIff(b, a[k] + 1, k);
      RankIff(a, b[k] + 1, k);
      RankIff(b, b[k] + 1, k);
    }
  }

  /** The verdict depends on the samples as a multiset only. */
  lemma VerdictIgnoresOrder(samples: seq<int>, shuffled: seq<int>, threshold: int)
    requires samples != [] && multiset(samples) == multiset(shuffled)
    ensures shuffled != [] && Passes(samples, threshold) == Passes(shuffled, threshold)
  {
    assert |shuffled| == |multiset(shuffled)| == |samples|;
    AscendingOrderIsUnique(SortSamples(samples), SortSamples(shuffled));
  }

  /** For an odd number of samples nothing is averaged, and the verdict is the majority's, whatever the samples. */
  lemma OddPassesIffMajorityBelow(samples: seq<int>, threshold: int)
    requires |samples| % 2 == 1
    ensures Passes(samples, threshold) <==> CountBelow(samples, threshold) >= |samples| / 2 + 1
  {
    CountBelowSorted(samples, threshold);
    RankIff(SortSamples(samples), threshold, |samples| / 2);
  }

  /** Elapsed times: never negative, and stored in an int64. */
  predicate Elapsed(samples: seq<int>) {
    forall i :: 0 <= i < |samples| ==> 0 <= samples[i] < TWO_TO_THE_63
  }

  lemma SortedElapsed(samples: seq<int>)
    requires Elapsed(samples)
    ensures Elapsed(SortSamples(samples))
  {
    var sorted := SortSamples(samples);
    forall i | 0 <= i < |sorted| ensures 0 <= sorted[i] < TWO_TO_THE_63 {
      assert sorted[i] in multiset(samples);
    }
  }

  /** The sum of the two middle samples fits, or none is taken. */
  predicate MiddleFits(samples: seq<int>)
    requires samples != []
  {
    AverageFits(SortSamples(samples))
  }

  predicate AverageFits(sorted: seq<int>)
    requires sorted != []
  {
    var n := |sorted|;
    n % 2 == 0 ==> IsInt64(sorted[n / 2 - 1] + sorted[n / 2])
  }

  /** Below 2^62 it always fits. */
  lemma SmallSamplesFit(samples: seq<int>)
    requires samples != [] && forall i :: 0 <= i < |samples| ==> 0 <= samples[i] < TWO_TO_THE_62
    ensures Elapsed(samples) && MiddleFits(samples)
  {
    var sorted := SortSamples(samples);
    forall i | 0 <= i < |sorted| ensures 0 <= sorted[i] < TWO_TO_THE_62 {
      assert sorted[i] in multiset(samples);
    }
  }

  /** The average of elapsed times that do not fit is negative. */
  lemma ElapsedMedian(sorted: seq<int>)
    requires sorted != [] && Ascending(sorted) && Elapsed(sorted)
    ensures if AverageFits(sorted) then sorted[(|sorted| - 1) / 2] <= MedianOf(sorted) <= sorted[|sorted| / 2]
            else MedianOf(sorted) < 0
  {
    var n := |sorted|;
    if n % 2 == 0 {
      var a, b := sorted[n / 2 - 1], sorted[n / 2];
      assert (n - 1) / 2 == n / 2 - 1 && a <= b;
      assert Wrap(a + b) == if IsInt64(a + b) then a + b else a + b - TWO_TO_THE_64;
    }
  }

  // ---------------------------------------------------------------- the verdict by rank

  /** In ascending order the samples have x at position k. */
  predicate Ranked(samples: seq<int>, x: int, k: int) {
    CountBelow(samples, x) <= k < CountBelow(samples, x + 1)
  }

  /** Of an odd number of elapsed times more than half must be below the threshold. Of an even number the average of
      the middle two must be, where their sum fits in an int64; where it does not, their wrapped sum, which is negative,
      is halved toward zero, and no threshold from zero up is exceeded. */
  ghost predicate Verdict(samples: seq<int>, threshold: int, pass: bool) {
    var middle := |samples| / 2;
    if |samples| % 2 == 1 then pass <==> CountBelow(samples, threshold) > middle
    else
      var before := middle - 1;
      forall a, b :: Ranked(samples, a, before) && Ranked(samples, b, middle) ==>
        if a + b < TWO_TO_THE_63 then pass <==> a + b < 2 * threshold
        else pass <==> a + b - TWO_TO_THE_64 < 2 * threshold - 1
  }

  /** Each position has one sample. */
  lemma RankedIff(samples: seq<int>, x: int, k: nat)
    requires k < |samples|
    ensures Ranked(samples, x, k) <==> x == SortSamples(samples)[k]
  {
    var sorted := SortSamples(samples);
    CountBelowSorted(samples, x);
    CountBelowSorted(samples, x + 1);
    RankIff(sorted, x, k);
    RankIff(sorted, x + 1, k);
  }

  lemma VerdictIs(samples: seq<int>, threshold: int)
    requires samples != [] && Elapsed(samples)
    ensures Verdict(samples, threshold, Passes(samples, threshold))
  {
    if |samples| % 2 == 1 {
      OddPassesIffMajorityBelow(samples, threshold);
    } else {
      EvenPasses(samples, threshold, |samples| / 2);
    }
  }

  /** With a and b the middle samples of an even number, the verdict is that of their exact average. */
  lemma EvenPasses(samples: seq<int>, threshold: int, k: nat)
    requires |samples| == 2 * k && k > 0 && Elapsed(samples)
    ensures var j := k - 1;
            forall a, b :: Ranked(samples, a, j) && Ranked(samples, b, k) ==>
              if a + b < TWO_TO_THE_63 then Passes(samples, threshold) <==> a + b < 2 * threshold
              else Passes(samples, threshold) <==> a + b - TWO_TO_THE_64 < 2 * threshold - 1
  {
    var sorted, j := SortSamples(samples), k - 1;
    forall a, b | Ranked(samples, a, j) && Ranked(samples, b, k) ensures a == sorted[j] && b == sorted[k] {
      RankedIff(samples, a, j);
      RankedIff(samples, b, k);
    }
    SortedElapsed(samples);
    MiddleVerdict(sorted, k, threshold);
  }

  lemma MiddleVerdict(sorted: seq<int>, k: nat, threshold: int)
    requires |sorted| == 2 * k && k > 0 && Elapsed(sorted)
    ensures var sum := sorted[k - 1] + sorted[k];
            if sum < TWO_TO_THE_63 then MedianOf(sorted) < threshold <==> sum < 2 * threshold
            else MedianOf(sorted) < threshold <==> sum - TWO_TO_THE_64 < 2 * threshold - 1
  {
    MiddleOfEven(sorted, k);
    AverageBelowIff(sorted[k - 1], sorted[k], threshold);
  }

  lemma MiddleOfEven(sorted: seq<int>, k: nat)
    requires |sorted| == 2 * k && k > 0
    ensures MedianOf(sorted) == Half(Wrap(sorted[k - 1] + sorted[k]))
  {
  }

  lemma AverageBelowIff(a: int, b: int, threshold: int)
    requires 0 <= a < TWO_TO_THE_63 && 0 <= b < TWO_TO_THE_63
    ensures a + b < TWO_TO_THE_63 ==> (Half(Wrap(a + b)) < threshold <==> a + b < 2 * threshold)
    ensures a + b >= TWO_TO_THE_63 ==> (Half(Wrap(a + b)) < threshold <==> a + b - TWO_TO_THE_64 < 2 * threshold - 1)
  {
    assert Wrap(a + b) == if a + b < TWO_TO_THE_63 then a + b else a + b - TWO_TO_THE_64;
  }

  /** For elapsed times of any length a majority below the threshold forces a pass. */
  lemma MajorityBelowPasses(samples: seq<int>, threshold: int)
    requires samples != [] && Elapsed(samples)
    requires CountBelow(samples, threshold) >= |samples| / 2 + 1
    ensures Passes(samples, threshold)
  {
    CountBelowSorted(samples, threshold);
    SortedElapsed(samples);
    RankIff(SortSamples(samples), threshold, |samples| / 2);
    ElapsedMedian(SortSamples(samples));
  }

  /** A majority at or above it forces a failure exactly when the two middle samples can be added. */
  lemma MajorityAboveFailsIff(samples: seq<int>, threshold: nat)
    requires samples != [] && Elapsed(samples)
    requires |samples| - CountBelow(samples, threshold) >= |samples| / 2 + 1
    ensures !Passes(samples, threshold) <==> MiddleFits(samples)
  {
    CountBelowSorted(samples, threshold);
    SortedElapsed(samples);
    SortedAboveIff(SortSamples(samples), threshold);
  }

  lemma SortedAboveIff(sorted: seq<int>, t: nat)
    requires sorted != [] && Ascending(sorted) && Elapsed(sorted)
    requires |sorted| - CountBelow(sorted, t) >= |sorted| / 2 + 1
    ensures MedianOf(sorted) >= t <==> AverageFits(sorted)
  {
    RankIff(sorted, t, (|sorted| - 1) / 2);
    ElapsedMedian(sorted);
  }

  /** With samples near the end of int64 the average wraps, and a majority above the threshold can still pass. */
  lemma OverflowCanPass()
    ensures Passes([TWO_TO_THE_63 - 1, TWO_TO_THE_63 - 1], 50_000_000)
    ensures CountBelow([TWO_TO_THE_63 - 1, TWO_TO_THE_63 - 1], 50_000_000) == 0
  {
    var samples := [TWO_TO_THE_63 - 1, TWO_TO_THE_63 - 1];
    AscendingOrderIsUnique(SortSamples(samples), samples);
    MiddleVerdict(samples, 1, 50_000_000);
    NoneBelow(samples, 50_000_000);
  }

  // ---------------------------------------------------------------- robustness

  lemma {:induction false} UntouchedCount(s: seq<int>, t: int, touched: set<nat>)
    requires forall i: nat :: i < |s| && i !in touched ==> s[i] < t
    ensures CountBelow(s, t) + |touched| >= |s|
  {
    if s != [] {
      var n := |s| - 1;
      FlatMapAppend(Keep(t), s[..n], [s[n]]);
      assert s == s[..n] + [s[n]];
      assert FlatMap(Keep(t), [s[n]]) == Keep(t)(s[n]) + [];
      UntouchedCount(s[..n], t, touched - {n});
    }
  }

  lemma {:induction false} UntouchedCountAbove(s: seq<int>, t: int, touched: set<nat>)
    requires forall i: nat :: i < |s| && i !in touched ==> s[i] >= t
    ensures CountBelow(s, t) <= |touched|
  {
    if s != [] {
      var n := |s| - 1;
      FlatMapAppend(Keep(t), s[..n], [s[n]]);
      assert s == s[..n] + [s[n]];
      assert FlatMap(Keep(t), [s[n]]) == Keep(t)(s[n]) + [];
      UntouchedCountAbove(s[..n], t, touched - {n});
    }
  }

  /** Changing fewer than half of the samples, to any elapsed times, keeps the median between the least and the
      greatest of the others exactly when the two middle samples can still be added. */
  lemma FewOutliersCannotMoveMedian(samples: seq<int>, changed: seq<int>, touched: set<nat>, low: nat, high: int)
    requires samples != [] && |changed| == |samples| && Elapsed(changed)
    requires |touched| <= (|samples| - 1) / 2
    requires forall i: nat :: i < |samples| && i !in touched ==> changed[i] == samples[i] && low <= samples[i] <= high
    ensures low <= MedianOf(SortSamples(changed)) <= high <==> MiddleFits(changed)
  {
    UntouchedCountAbove(changed, low, touched);
    MajorityAboveFailsIff(changed, low);
    UntouchedCount(changed, high + 1, touched);
    MajorityBelowPasses(changed, high + 1);
  }
}
