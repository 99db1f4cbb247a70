/** Descriptive statistics of `StatisticsExt` (Cs.Extensions/StatisticsExt.cs):
    Mean, Variance, Median, Modes, IQR and the IsEven helper.

    Every overload taking `(start, end)` is a function of the sample and the
    two indices; the parameterless overloads are separate functions (`...All`)
    so that their empty-input policy stays visible. Doubles are exact reals,
    so the model says nothing about rounding. */
module StatisticsExt {
  import opened Wrappers
  import opened Sequences
  import opened Sorting
  import opened Doubles
  import opened Digits

  /* ---------------- IsEven ---------------- */

  /** `number % 2 == 0`, where C#'s `%` truncates toward zero (so an odd
      negative number leaves -1, not Dafny's Euclidean 1). */
  function IsEven(number: int): (even: bool)
    ensures even <==> number % 2 == 0
  {
    var remainder := if number >= 0 then number % 2 else -((-number) % 2);
    remainder == 0
  }

  /** `n / 2` as the two halves of `n`: a helper for the index arithmetic of
      `Median` and `IQR`. */
  lemma Halves(n: nat)
    ensures IsEven(n) ==> n == 2 * (n / 2)
    ensures !IsEven(n) ==> n == 2 * (n / 2) + 1
  {
  }

  /* ---------------- Mean ---------------- */

  /** The loop `for (i = start; i < end; i++) ... list[i]` reads only valid
      indices: it runs zero times, or the whole range lies inside the list. */
  predicate ReadsInBounds(count: int, start: int, end: int)
  {
    end <= start || (0 <= start && end <= count)
  }

  /** The loop's accumulated sum: zero when the loop does not run. */
  function RangeSum(values: seq<real>, start: int, end: int): real
    requires ReadsInBounds(|values|, start, end)
  {
    if start < end then Sum(values[start..end]) else 0.0
  }

  /** `Mean(values, start, end)`: the sum over `[start, end)` divided by
      `end - start`. The indexer throws outside the list; nothing checks the
      divisor, so an empty range yields NaN and a reversed one 0. The C#
      divisor `end - start` can wrap around only for a reversed range, where
      the sum is 0 and the wrapped divisor is never 0, so the quotient is 0
      either way. */
  function Mean(values: seq<real>, start: int, end: int): (r: Result<Double>)
    ensures r.Success? <==> ReadsInBounds(|values|, start, end)
    ensures r.Success? && start < end ==>
      r.value.Finite? && IsQuotient(r.value.r, Sum(values[start..end]), end - start)
    ensures start == end ==> r == Success(NaN)
    ensures end < start ==> r == Success(Finite(0.0))
  {
    if !ReadsInBounds(|values|, start, end) then Failure
    else Success(Divide(RangeSum(values, start, end), end - start))
  }

  /** The mean of a non-empty range lies between its least and greatest values. */
  lemma MeanWithinRange(values: seq<real>, start: int, end: int)
    requires 0 <= start < end <= |values|
    ensures Mean(values, start, end).Success? && Mean(values, start, end).value.Finite?
    ensures var m := Mean(values, start, end).value.r;
      SeqMin(values[start..end]) <= m <= SeqMax(values[start..end])
  {
    MeanTimesLength(values, start, end);
    AverageBetween(values[start..end], Mean(values, start, end).value.r,
      SeqMin(values[start..end]), SeqMax(values[start..end]));
  }

  /** A value whose `|s|`-fold is the sum of `s` lies within any bounds of
      the elements of `s`. */
  lemma AverageBetween(s: seq<real>, m: real, lo: real, hi: real)
    requires IsAverage(s, m)
    requires forall i :: 0 <= i < |s| ==> lo <= s[i] <= hi
    ensures lo <= m <= hi
  {
    SumAtLeast(s, lo);
    SumAtMost(s, hi);
    ScaledBetween(m, |s| as real, Sum(s), lo, hi);
  }

  /** `m` is the average of the non-empty `s`. */
  predicate IsAverage(s: seq<real>, m: real)
  {
    |s| > 0 && IsQuotient(m, Sum(s), |s|)
  }

  /** A helper for `MeanWithinRange`: the mean of a non-empty range is the
      average of that range. */
  lemma MeanTimesLength(values: seq<real>, start: int, end: int)
    requires 0 <= start < end <= |values|
    ensures Mean(values, start, end).Success? && Mean(values, start, end).value.Finite?
    ensures IsAverage(values[start..end], Mean(values, start, end).value.r)
  {
    assert |values[start..end]| == end - start;
  }

  lemma ScaledBetween(m: real, n: real, total: real, lo: real, hi: real)
    requires n > 0.0 && m * n == total
    requires n * lo <= total <= n * hi
    ensures lo <= m <= hi
  {
    if m < lo {
      ProductPositive(lo - m, n);
    }
    if hi < m {
      ProductPositive(m - hi, n);
    }
  }

  /** `Mean()`: 0 for an empty sample, otherwise the mean of the whole sample. */
  function MeanAll(values: seq<real>): (r: real)
    ensures |values| == 0 ==> r == 0.0
    ensures |values| > 0 ==> IsAverage(values, r)
  {
    if |values| == 0 then 0.0
    else
      assert values[0..|values|] == values;
      Mean(values, 0, |values|).value.r
  }

  /* ---------------- Variance ---------------- */

  /** Sum of `Math.Pow(v - mean, 2)` over the sequence. */
  function SquaredDeviations(s: seq<real>, mean: real): (r: real)
    ensures r >= 0.0
    ensures (forall i :: 0 <= i < |s| ==> s[i] == mean) ==> r == 0.0
  {
    if |s| == 0 then 0.0
    else
      SquareNonNegative(s[0] - mean);
      (s[0] - mean) * (s[0] - mean) + SquaredDeviations(s[1..], mean)
  }

  lemma SquareNonNegative(d: real)
    ensures d * d >= 0.0
  {
    if d > 0.0 {
      ProductPositive(d, d);
    } else if d < 0.0 {
      ProductPositive(-d, -d);
      assert (-d) * (-d) == d * d;
    }
  }

  lemma ProductPositive(a: real, b: real)
    requires a > 0.0 && b > 0.0
    ensures a * b > 0.0
  {
  }

  /** The divisor of `Variance`: `end - start`, less one when `start > 0`,
      both steps in unchecked `int` arithmetic. */
  function VarianceCount(start: int32, end: int32): int32
  {
    var count: int := Wrap32(end - start);
    if start > 0 then Wrap32(count - 1) else count
  }

  /** An empty or reversed range divides by zero in exactly two ways: an
      empty range at `start <= 0`, and the one reversed range whose `end -
      start - 1` wraps around to 0. */
  lemma VarianceCountOfEmpty(start: int32, end: int32)
    ensures end <= start ==>
      (VarianceCount(start, end) == 0
       <==> (start == end && start <= 0) || (start == 0x7FFF_FFFF && end == -0x8000_0000))
  {
    var count: int := Wrap32(end - start);
    if end <= start && start > 0 {
      var d := end - start - 1;
      assert -0x1_0000_0000 <= d < 0;
      assert (Wrap32(count - 1) - d) % 0x1_0000_0000 == 0;
      if d == -0x1_0000_0000 {
        assert d + 0x1_0000_0000 == 0;
      } else {
        assert Wrap32(count - 1) != 0 by {
          ModOfShifted(d);
        }
      }
    }
  }

  /** A negative number above `-2^32` is not a multiple of `2^32`. */
  lemma ModOfShifted(d: int)
    requires -0x1_0000_0000 < d < 0
    ensures d % 0x1_0000_0000 == d + 0x1_0000_0000
  {
  }

  /** `Variance(values, mean, start, end)`: the squared deviations over
      `[start, end)` divided by `end - start`, or by `end - start - 1` when
      `start > 0`. Nothing checks the divisor, which is computed in
      wrapping `int` arithmetic. */
  function Variance(values: seq<real>, mean: real, start: int32, end: int32): (r: Result<Double>)
    ensures r.Success? <==> ReadsInBounds(|values|, start, end)
    ensures r.Success? && start == 0 < end ==>
      r.value.Finite? && IsQuotient(r.value.r, SquaredDeviations(values[start..end], mean), end - start)
    ensures r.Success? && 0 < start && start + 1 < end ==>
      r.value.Finite? && IsQuotient(r.value.r, SquaredDeviations(values[start..end], mean), end - start - 1)
    ensures r.Success? && 0 < start && start + 1 == end ==>
      (r.value.NaN? || r.value.PositiveInfinity?) && (values[start] == mean ==> r.value.NaN?)
    ensures r.Success? && r.value.Finite? ==> r.value.r >= 0.0
    ensures r.Success? && end <= start ==>
      r.value == if (start == end && start <= 0) || (start == 0x7FFF_FFFF && end == -0x8000_0000)
                 then NaN else Finite(0.0)
  {
    if !ReadsInBounds(|values|, start, end) then Failure
    else
      var squares := if start < end then SquaredDeviations(values[start..end], mean) else 0.0;
      assert 0 < start && start + 1 == end ==> values[start..end] == [values[start]];
      VarianceCountOfEmpty(start, end);
      Success(Divide(squares, VarianceCount(start, end)))
  }

  /** `Variance(mean)`: the whole sample about a given mean. */
  function VarianceAbout(values: seq<real>, mean: real): (r: Double)
    ensures |values| == 0 ==> r == NaN
    ensures |values| > 0 ==>
      (r.Finite? && r.r >= 0.0 && IsQuotient(r.r, SquaredDeviations(values, mean), |values|))
  {
    Divide(SquaredDeviations(values, mean), |values|)
  }

  /** The whole-sample overload is the range overload over `[0, Count)`. */
  lemma VarianceAboutIsRange(values: seq<real>, mean: real)
    requires |values| < 0x8000_0000
    ensures Variance(values, mean, 0, |values| as int32) == Success(VarianceAbout(values, mean))
  {
    assert values[0..|values|] == values;
  }

  /** `Variance()`: the whole sample about `Mean()`. */
  function VarianceAll(values: seq<real>): (r: Double)
    ensures |values| == 0 ==> r == NaN
    ensures |values| > 0 ==>
      (r.Finite? && r.r >= 0.0 && IsQuotient(r.r, SquaredDeviations(values, MeanAll(values)), |values|))
  {
    VarianceAbout(values, MeanAll(values))
  }

  /* ---------------- Median ---------------- */

  /** `List.GetRange(start, end - start)` succeeds. */
  predicate ValidRange(count: int, start: int, end: int)
  {
    0 <= start <= end <= count
  }

  /** `Median(values, start, end)`: sorts `values[start..end]`; an even size
      averages sorted elements `size/2 - 1` and `size/2`; an odd size takes
      sorted element `midIndex - 1` where `midIndex` is `size / 2` already
      truncated by integer division before `Math.Round` sees it. Index -1
      (sizes 0 and 1) throws. */
  function Median(values: seq<real>, start: int, end: int): (r: Result<real>)
    ensures r.Success? <==> ValidRange(|values|, start, end) && end - start >= 2
  {
    if !ValidRange(|values|, start, end) then Failure
    else MedianOfOrdered(Sort(values[start..end]))
  }

  /** The index arithmetic of `Median` on the already ordered sub-list. */
  function MedianOfOrdered(ordered: seq<real>): (r: Result<real>)
    ensures r.Success? <==> |ordered| >= 2
  {
    var size := |ordered|;
    if IsEven(size) then
      var midIndex := size / 2;
      if midIndex - 1 < 0 then Failure
      else Success((ordered[midIndex - 1] + ordered[midIndex]) / 2.0)
    else
      // (int)Math.Round((double)(size / 2), AwayFromZero): already integral
      var midIndex := size / 2;
      if midIndex - 1 < 0 then Failure
      else Success(ordered[midIndex - 1])
  }

  /** Even size: the median is the mean of the elements of ranks
      `lower = size/2 - 1` and `lower + 1`. */
  lemma MedianEvenRank(values: seq<real>, start: int, end: int, lower: int, a: real, b: real)
    requires ValidRange(|values|, start, end)
    requires end - start >= 2 && IsEven(end - start)
    requires lower == (end - start) / 2 - 1
    requires IsRank(values[start..end], a, lower) && IsRank(values[start..end], b, lower + 1)
    ensures Median(values, start, end) == Success((a + b) / 2.0)
  {
    Halves(end - start);
    var range := values[start..end];
    var upper := lower + 1;
    assert IsRank(range, b, upper);
    RankIsSortedPosition(range, a, lower);
    RankIsSortedPosition(range, b, upper);
    MedianOfOrderedEven(Sort(range), lower, upper, a, b);
  }

  lemma MedianOfOrderedEven(ordered: seq<real>, lower: int, upper: int, a: real, b: real)
    requires 0 <= lower && upper == lower + 1 && |ordered| == 2 * upper
    requires ordered[lower] == a && ordered[upper] == b
    ensures MedianOfOrdered(ordered) == Success((a + b) / 2.0)
  {
  }

  /** Odd size of at least 3: the median is the element of rank
      `k = size/2 - 1` (integer division), one below the middle. */
  lemma MedianOddRank(values: seq<real>, start: int, end: int, k: int, x: real)
    requires ValidRange(|values|, start, end)
    requires end - start >= 3 && !IsEven(end - start)
    requires k == (end - start) / 2 - 1
    requires IsRank(values[start..end], x, k)
    ensures Median(values, start, end) == Success(x)
  {
    Halves(end - start);
    var range := values[start..end];
    RankIsSortedPosition(range, x, k);
    MedianOfOrderedOdd(Sort(range), k, x);
  }

  lemma MedianOfOrderedOdd(ordered: seq<real>, k: int, x: real)
    requires 0 <= k && |ordered| == 2 * k + 3
    requires ordered[k] == x
    ensures MedianOfOrdered(ordered) == Success(x)
  {
  }

  /** The median of a range lies between its least and greatest values. */
  lemma MedianWithinRange(values: seq<real>, start: int, end: int)
    requires Median(values, start, end).Success?
    ensures SeqMin(values[start..end]) <= Median(values, start, end).value <= SeqMax(values[start..end])
  {
    var range := values[start..end];
    var ordered := Sort(range);
    var lo, hi := SeqMin(range), SeqMax(range);
    forall i | 0 <= i < |ordered|
      ensures lo <= ordered[i] <= hi
    {
      assert ordered[i] in multiset(range);
    }
  }

  /** The median sees only the multiset of its range: re-ordering the range
      (re-sorting the sample, say) does not change it. */
  lemma MedianPermutation(a: seq<real>, b: seq<real>, start: int, end: int)
    requires ValidRange(|a|, start, end) && ValidRange(|b|, start, end)
    requires multiset(a[start..end]) == multiset(b[start..end])
    ensures Median(a, start, end) == Median(b, start, end)
  {
    SortPermutation(a[start..end], b[start..end]);
  }

  /** `Median()`: 0 for an empty sample, otherwise the median of the whole
      sample, which throws for a single value. */
  function MedianAll(values: seq<real>): (r: Result<real>)
    ensures r.Success? <==> |values| != 1
    ensures |values| == 0 ==> r == Success(0.0)
    ensures |values| >= 2 ==> r == Median(values, 0, |values|)
  {
    if |values| == 0 then Success(0.0) else Median(values, 0, |values|)
  }

  /* ---------------- Modes ---------------- */

  /** `x` occurs more than once and at least as often as any other value. */
  predicate IsMostFrequent(s: seq<real>, x: real)
  {
    multiset(s)[x] > 1 && forall j :: 0 <= j < |s| ==> multiset(s)[s[j]] <= multiset(s)[x]
  }

  /** `modesList.Max(g => g.Occurrence)` over the group keys. */
  function MaxOccurrence(s: seq<real>, keys: seq<real>): (m: nat)
    ensures forall i :: 0 <= i < |keys| ==> multiset(s)[keys[i]] <= m
    ensures |keys| > 0 ==> exists i :: 0 <= i < |keys| && multiset(s)[keys[i]] == m
  {
    if |keys| == 0 then 0
    else
      var rest := MaxOccurrence(s, keys[1..]);
      if multiset(s)[keys[0]] >= rest then multiset(s)[keys[0]]
      else
        assert exists i :: 0 <= i < |keys[1..]| && multiset(s)[keys[1..][i]] == rest;
        var i :| 0 <= i < |keys[1..]| && multiset(s)[keys[1..][i]] == rest;
        assert keys[i + 1] == keys[1..][i];
        rest
  }

  /** The `Where` clause: a group is kept when its count is the maximum and
      that maximum exceeds 1. */
  function IsModeGroup(s: seq<real>, maxOccurrence: nat): real -> bool
  {
    v => multiset(s)[v] == maxOccurrence && maxOccurrence > 1
  }

  /** `Modes(values, start, end)`: groups `values[start..end]` by value and
      keeps the values of maximal count, when that count exceeds 1, in the
      order `GroupBy` lists them (first occurrence). `ElementAt` throws
      outside the list, and `Max` throws on an empty range. */
  function Modes(values: seq<real>, start: int, end: int): (r: Result<seq<real>>)
    ensures r.Success? <==> 0 <= start < end <= |values|
    ensures r.Success? ==>
      (forall i :: 0 <= i < |r.value| ==> IsMostFrequent(values[start..end], r.value[i]) && r.value[i] in values[start..end])
    ensures r.Success? ==>
      forall x :: x in values[start..end] && IsMostFrequent(values[start..end], x) ==> x in r.value
    ensures r.Success? ==> InFirstOccurrenceOrder(r.value, values[start..end])
    ensures r.Success? ==> NoDuplicates(r.value)
  {
    if !(0 <= start < end <= |values|) then Failure
    else Success(ModesOf(values[start..end]))
  }

  /** The grouping pipeline of `Modes` applied to one range. */
  function ModesOf(range: seq<real>): (modes: seq<real>)
    ensures forall i :: 0 <= i < |modes| ==> IsMostFrequent(range, modes[i]) && modes[i] in range
    ensures forall x :: x in range && IsMostFrequent(range, x) ==> x in modes
    ensures InFirstOccurrenceOrder(modes, range)
    ensures NoDuplicates(modes)
  {
    var keys := Distinct(range);
    var maxOccurrence := MaxOccurrence(range, keys);
    var modes := Filter(keys, IsModeGroup(range, maxOccurrence));
    ModesAreMostFrequent(range, keys, maxOccurrence);
    FilterKeepsFirstOccurrenceOrder(keys, range, IsModeGroup(range, maxOccurrence));
    FirstOccurrenceOrderNoDuplicates(modes, range);
    modes
  }

  /** Over the group keys, "count equals the maximum and exceeds 1" is the
      same as "most frequent". */
  lemma ModesAreMostFrequent(range: seq<real>, keys: seq<real>, maxOccurrence: nat)
    requires forall i :: 0 <= i < |keys| ==> keys[i] in range
    requires forall i :: 0 <= i < |range| ==> range[i] in keys
    requires maxOccurrence == MaxOccurrence(range, keys)
    ensures forall x :: x in range ==> (IsModeGroup(range, maxOccurrence)(x) <==> IsMostFrequent(range, x))
  {
    forall x | x in range
      ensures IsModeGroup(range, maxOccurrence)(x) <==> IsMostFrequent(range, x)
    {
      var k :| 0 <= k < |range| && range[k] == x;
      assert x in keys;
      var i :| 0 <= i < |keys| && multiset(range)[keys[i]] == maxOccurrence;
      assert keys[i] in range;
      forall j | 0 <= j < |range|
        ensures multiset(range)[range[j]] <= maxOccurrence
      {
        assert range[j] in keys;
      }
      var kx :| 0 <= kx < |keys| && keys[kx] == x;
      if IsMostFrequent(range, x) {
        var ki :| 0 <= ki < |range| && range[ki] == keys[i];
        assert multiset(range)[range[ki]] <= multiset(range)[x];
      }
    }
  }

  /** A range in which no value repeats has no modes. */
  lemma ModesWithoutRepeats(values: seq<real>, start: int, end: int)
    requires 0 <= start < end <= |values|
    requires NoDuplicates(values[start..end])
    ensures Modes(values, start, end) == Success([])
  {
    NoModes(values[start..end]);
  }

  lemma NoModes(range: seq<real>)
    requires NoDuplicates(range)
    ensures ModesOf(range) == []
  {
    var modes := ModesOf(range);
    if |modes| > 0 {
      NoDuplicatesOnce(range, modes[0]);
    }
  }

  /** `Modes()`: null for an empty sample, otherwise the modes of the whole sample. */
  function ModesAll(values: seq<real>): (r: Option<seq<real>>)
    ensures r.None? <==> |values| == 0
    ensures r.Some? ==> Modes(values, 0, |values|) == Success(r.value)
  {
    if |values| == 0 then None else Some(Modes(values, 0, |values|).value)
  }

  /* ---------------- IQR ---------------- */

  /** `IQR()`: the upper quartile minus the lower quartile, each the `Median`
      of a half of the sample taken IN THE CALLER'S ORDER (the sorted copy is
      used only for its size). An odd size `n` drops indices `n/2 - 1` and
      `n/2` from the lower half and `n/2` from the upper one. */
  function IQR(values: seq<real>): (r: Result<real>)
    ensures r.Success? <==> |values| == 4 || |values| >= 6
  {
    // the sorted copy has as many elements as the sample
    var size := |values|;
    Halves(size);
    var (lowerQuartile, upperQuartile) :=
      if IsEven(size) then
        var midIndex := size / 2;
        (Median(values, 0, midIndex), Median(values, midIndex, size))
      else
        // (int)Math.Ceiling((double)(size / 2)): the division is already integral
        var midIndex := size / 2;
        (Median(values, 0, midIndex - 1), Median(values, midIndex + 1, size));
    if lowerQuartile.Failure? || upperQuartile.Failure? then Failure
    else Success(upperQuartile.value - lowerQuartile.value)
  }

  /** For an odd size `2 * half + 1`, the code's IQR is the median of the
      values after index `half`, in the caller's order, minus that of the
      values before index `half - 1`. */
  lemma IQROddHalves(values: seq<real>, half: nat, lower: real, upper: real)
    requires half >= 3 && |values| == half + half + 1
    requires Median(values, 0, half - 1).Success? && Median(values, 0, half - 1).value == lower
    requires Median(values, half + 1, |values|).Success? && Median(values, half + 1, |values|).value == upper
    ensures IQR(values).Success? && IQR(values).value == upper - lower
  {
    Halves(|values|);
  }

  /** The sorted sample 1 to 8 has quartiles 2.5 and 6.5 and IQR 4. */
  lemma IQROfOneToEight(s: seq<real>)
    requires s == [1.0, 2.0, 3.0, 4.0, 5.0, 6.0, 7.0, 8.0]
    ensures IQR(s) == Success(4.0)
  {
    EightSlices(s);
    SortedQuadMedian(s, 0, 1.0, 2.0, 3.0, 4.0);
    SortedQuadMedian(s, 4, 5.0, 6.0, 7.0, 8.0);
  }

  lemma EightSlices(s: seq<real>)
    requires s == [1.0, 2.0, 3.0, 4.0, 5.0, 6.0, 7.0, 8.0]
    ensures s[0..4] == [1.0, 2.0, 3.0, 4.0] && s[4..8] == [5.0, 6.0, 7.0, 8.0]
  {
  }

  /** The median of four ascending values averages the middle two. */
  lemma SortedQuadMedian(values: seq<real>, start: nat, a: real, b: real, c: real, d: real)
    requires start + 4 <= |values| && a <= b <= c <= d
    requires values[start..start + 4] == [a, b, c, d]
    ensures Median(values, start, start + 4) == Success((b + c) / 2.0)
  {
    var quad := values[start..start + 4];
    assert Sorted(quad);
    SortOfSorted(quad);
    MedianOfOrderedEven(quad, 1, 2, b, c);
  }
}
