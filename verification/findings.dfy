/** Defects of `StatisticsExt` that its contracts expose, each shown on a
    concrete sample against the code as written (`StatisticsExt.Median`,
    `StatisticsExt.IQR`), next to a corrected definition with the property
    the code evidently aims at. */
module Findings {
  import opened Wrappers
  import opened Sequences
  import opened Sorting
  import opened StatisticsExt

  /* ---------------- Median of an odd-sized range ---------------- */

  /** As written, an odd range of three values yields its least value:
      sorted index `3/2 - 1 = 0` instead of the middle index 1. */
  lemma MedianOddCounterexample(s: seq<real>)
    requires s == [1.0, 2.0, 3.0]
    ensures Median(s, 0, 3) == Success(1.0)
    ensures MedianCorrected(s, 0, 3) == Success(2.0)
  {
    assert s[0..3] == s;
    SortOfSorted(s);
  }

  /** The median as intended: the middle element of the sorted range for an
      odd size (a single value included), the mean of the two middle ones for
      an even size; an empty range has none. */
  function MedianCorrected(values: seq<real>, start: int, end: int): (r: Result<real>)
    ensures r.Success? <==> ValidRange(|values|, start, end) && end - start >= 1
  {
    if !ValidRange(|values|, start, end) || end - start == 0 then Failure
    else Success(MiddleOfOrdered(Sort(values[start..end])))
  }

  /** The corrected index arithmetic on the ordered range. */
  function MiddleOfOrdered(ordered: seq<real>): real
    requires |ordered| >= 1
  {
    var size := |ordered|;
    if IsEven(size) then (ordered[size / 2 - 1] + ordered[size / 2]) / 2.0
    else ordered[size / 2]
  }

  /** For an odd size `2k + 1` the corrected median is the element of rank
      `k`: at most `k` values lie below it and at most `k` above. */
  lemma MedianCorrectedIsMiddle(values: seq<real>, start: int, end: int)
    requires ValidRange(|values|, start, end) && !IsEven(end - start)
    ensures MedianCorrected(values, start, end).Success?
    ensures IsRank(values[start..end], MedianCorrected(values, start, end).value, (end - start) / 2)
  {
    var range := values[start..end];
    MiddleOfOdd(Sort(range));
    MiddleHasMiddleRank(range, |range| / 2);
  }

  /** For an odd size the corrected index arithmetic picks index `size / 2`. */
  lemma MiddleOfOdd(ordered: seq<real>)
    requires !IsEven(|ordered|)
    ensures |ordered| >= 1 && MiddleOfOrdered(ordered) == ordered[|ordered| / 2]
  {
    Halves(|ordered|);
  }

  /** Index `k` of the sorted range holds the value of rank `k`. */
  lemma MiddleHasMiddleRank(range: seq<real>, k: nat)
    requires k < |range|
    ensures IsRank(range, Sort(range)[k], k)
  {
    SortedRank(Sort(range), k);
    RankPermutation(Sort(range), range, Sort(range)[k], k);
  }

  /** For an even size the corrected median averages the elements of ranks
      `n/2 - 1` and `n/2`; this branch is the one the code gets right. */
  lemma MedianCorrectedEven(values: seq<real>, start: int, end: int)
    requires ValidRange(|values|, start, end) && IsEven(end - start) && end - start >= 2
    ensures MedianCorrected(values, start, end) == Median(values, start, end)
  {
  }

  /** Like the code, the corrected median depends only on the multiset of the
      range and lies between its extremes. */
  lemma MedianCorrectedPermutation(a: seq<real>, b: seq<real>, start: int, end: int)
    requires ValidRange(|a|, start, end) && ValidRange(|b|, start, end)
    requires multiset(a[start..end]) == multiset(b[start..end])
    ensures MedianCorrected(a, start, end) == MedianCorrected(b, start, end)
  {
    SortPermutation(a[start..end], b[start..end]);
  }

  /** On a sorted sample the corrected median of a slice lies between the
      slice's first and last elements. */
  lemma MedianCorrectedOfSorted(ordered: seq<real>, start: int, end: int)
    requires Sorted(ordered) && ValidRange(|ordered|, start, end) && end - start >= 1
    ensures ordered[start] <= MedianCorrected(ordered, start, end).value <= ordered[end - 1]
  {
    SortedSlice(ordered, start, end);
    MedianCorrectedOfSortedRange(ordered, start, end);
  }

  /** The corrected median of a sorted range lies between its ends. */
  lemma MedianCorrectedOfSortedRange(values: seq<real>, start: int, end: int)
    requires ValidRange(|values|, start, end) && end - start >= 1
    requires Sorted(values[start..end])
    ensures values[start] <= MedianCorrected(values, start, end).value <= values[end - 1]
  {
    var range := values[start..end];
    SliceEnds(values, start, end);
    SortOfSorted(range);
    MiddleWithin(range);
  }

  /** The corrected middle of a sorted sequence lies between its ends. */
  lemma MiddleWithin(ordered: seq<real>)
    requires Sorted(ordered) && |ordered| >= 1
    ensures ordered[0] <= MiddleOfOrdered(ordered) <= ordered[|ordered| - 1]
  {
    Halves(|ordered|);
  }

  /* ---------------- IQR ---------------- */

  /** As written, the quartiles are medians of the halves of the sample in
      the caller's order, so a descending sample gets a negative IQR. */
  lemma IQRUnsortedCounterexample(s: seq<real>, ordered: seq<real>)
    requires s == [4.0, 3.0, 2.0, 1.0] && ordered == [1.0, 2.0, 3.0, 4.0]
    ensures IQR(s) == Success(-2.0)
    ensures IQRCorrected(s) == Success(2.0)
  {
    IQRDescendingAsWritten(s);
    IQRDescendingCorrected(s, ordered);
  }

  lemma IQRDescendingAsWritten(s: seq<real>)
    requires s == [4.0, 3.0, 2.0, 1.0]
    ensures IQR(s) == Success(-2.0)
  {
    QuarterSlices(s, 4.0, 3.0, 2.0, 1.0);
    PairMedian(s, 0, 3.0, 4.0);
    PairMedian(s, 2, 1.0, 2.0);
    IQREvenHalves(s, 2, 3.5, 1.5);
  }

  lemma IQRDescendingCorrected(s: seq<real>, ordered: seq<real>)
    requires s == [4.0, 3.0, 2.0, 1.0] && ordered == [1.0, 2.0, 3.0, 4.0]
    ensures IQRCorrected(s) == Success(2.0)
  {
    QuarterSlices(ordered, 1.0, 2.0, 3.0, 4.0);
    PairMedian(ordered, 0, 1.0, 2.0);
    PairMedian(ordered, 2, 3.0, 4.0);
    DescendingSort(s, ordered);
  }

  lemma QuarterSlices(s: seq<real>, a: real, b: real, c: real, d: real)
    requires s == [a, b, c, d]
    ensures s[0..2] == [a, b] && s[2..4] == [c, d]
  {
  }

  lemma DescendingSort(s: seq<real>, ordered: seq<real>)
    requires s == [4.0, 3.0, 2.0, 1.0] && ordered == [1.0, 2.0, 3.0, 4.0]
    ensures Sort(s) == ordered
  {
    assert multiset(ordered) == multiset(s);
    assert Sorted(ordered);
    SortOfSorted(ordered);
    SortPermutation(s, ordered);
  }

  /** Both medians of a two-element range holding `a <= b`, in either
      order, are their mean. */
  lemma PairMedian(values: seq<real>, start: nat, a: real, b: real)
    requires start + 2 <= |values| && a <= b
    requires values[start..start + 2] == [a, b] || values[start..start + 2] == [b, a]
    ensures Median(values, start, start + 2).Success?
    ensures Median(values, start, start + 2).value == (a + b) / 2.0
    ensures MedianCorrected(values, start, start + 2).Success?
    ensures MedianCorrected(values, start, start + 2).value == (a + b) / 2.0
  {
    SortedPair(values[start..start + 2], a, b);
  }

  /** The two-element ranges of the samples above, sorted. */
  lemma SortedPair(pair: seq<real>, a: real, b: real)
    requires a <= b && (pair == [a, b] || pair == [b, a])
    ensures Sort(pair) == [a, b]
  {
    var t := [a, b];
    assert Sorted(t);
    if pair != t {
      assert pair == [t[1]] + [t[0]];
    }
    assert multiset(pair) == multiset(t);
    SortedUnique(Sort(pair), t);
  }

  /** As written, an odd sample ends its lower half at `n/2 - 1` instead of
      `n/2`: for five values that half holds one value and its median
      throws. */
  lemma IQROddCounterexample(s: seq<real>)
    requires s == [1.0, 2.0, 3.0, 4.0, 5.0]
    ensures IQR(s).Failure?
    ensures IQRCorrected(s) == Success(3.0)
  {
    IQRFiveCorrected(s);
  }

  lemma IQRFiveCorrected(s: seq<real>)
    requires s == [1.0, 2.0, 3.0, 4.0, 5.0]
    ensures IQRCorrected(s) == Success(3.0)
  {
    FiveSlices(s);
    PairMedian(s, 0, 1.0, 2.0);
    PairMedian(s, 3, 4.0, 5.0);
    AscendingFive(s);
    SpreadOfFive(s, 1.5, 4.5);
  }

  /** The corrected spread of five ordered values skips the middle one. */
  lemma SpreadOfFive(ordered: seq<real>, lower: real, upper: real)
    requires |ordered| == 5
    requires MedianCorrected(ordered, 0, 2).Success? && MedianCorrected(ordered, 0, 2).value == lower
    requires MedianCorrected(ordered, 3, 5).Success? && MedianCorrected(ordered, 3, 5).value == upper
    ensures QuartileSpread(ordered).Success? && QuartileSpread(ordered).value == upper - lower
  {
    assert UpperStart(5) == 3;
  }

  lemma AscendingFive(s: seq<real>)
    requires s == [1.0, 2.0, 3.0, 4.0, 5.0]
    ensures Sort(s) == s
  {
    assert Sorted(s);
    SortOfSorted(s);
  }

  lemma FiveSlices(s: seq<real>)
    requires s == [1.0, 2.0, 3.0, 4.0, 5.0]
    ensures s[0..2] == [1.0, 2.0] && s[3..5] == [4.0, 5.0]
  {
  }

  /** The interquartile range as intended: medians of the lower and upper
      halves of the SORTED sample, leaving out the middle value of an odd
      sample. */
  function IQRCorrected(values: seq<real>): (r: Result<real>)
    ensures r.Success? <==> |values| >= 2
  {
    QuartileSpread(Sort(values))
  }

  /** Upper minus lower quartile of an ordered sample. */
  function QuartileSpread(ordered: seq<real>): (r: Result<real>)
    ensures r.Success? <==> |ordered| >= 2
  {
    var size := |ordered|;
    var half := size / 2;
    var lowerQuartile := MedianCorrected(ordered, 0, half);
    var upperQuartile := MedianCorrected(ordered, UpperStart(size), size);
    if lowerQuartile.Failure? || upperQuartile.Failure? then Failure
    else Success(upperQuartile.value - lowerQuartile.value)
  }

  /** Where the upper half starts: after the middle value of an odd size. */
  function UpperStart(size: nat): nat
  {
    if IsEven(size) then size / 2 else size / 2 + 1
  }

  /** The corrected IQR is never negative and sees only the multiset of the
      sample. */
  lemma IQRCorrectedNonNegative(values: seq<real>)
    requires |values| >= 2
    ensures IQRCorrected(values).value >= 0.0
  {
    var ordered := Sort(values);
    var size := |ordered|;
    MedianCorrectedOfSorted(ordered, 0, size / 2);
    MedianCorrectedOfSorted(ordered, UpperStart(size), size);
    assert ordered[size / 2 - 1] <= ordered[UpperStart(size)];
  }

  /** The code is right on a sorted sample whose size is a multiple of four:
      the caller's order is then the sorted one and both halves have an even
      size, the case `Median` handles correctly. */
  lemma IQRAgreesOnSortedQuads(values: seq<real>, q: nat)
    requires Sorted(values) && q >= 1 && |values| == 4 * q
    ensures IQR(values) == IQRCorrected(values)
  {
    SortOfSorted(values);
    IQRAgreesOnQuads(values, q);
  }

  /** On `4q` values in any order the code's index arithmetic and the
      corrected one pick the same halves, both of even size. */
  lemma IQRAgreesOnQuads(values: seq<real>, q: nat)
    requires q >= 1 && |values| == 4 * q
    ensures IQR(values) == QuartileSpread(values)
  {
    var half := q + q;
    EvenHalf(half, q);
    EvenHalf(|values|, half);
    MedianCorrectedEven(values, 0, half);
    MedianCorrectedEven(values, half, |values|);
    var lower := Median(values, 0, half).value;
    var upper := Median(values, half, |values|).value;
    IQREvenHalves(values, half, lower, upper);
    QuartileSpreadEven(values, half, lower, upper);
  }

  /** For an even size, the code's IQR is the median of the second half of
      the sample minus that of the first. */
  lemma IQREvenHalves(values: seq<real>, half: nat, lower: real, upper: real)
    requires half >= 2 && |values| == half + half
    requires Median(values, 0, half).Success? && Median(values, 0, half).value == lower
    requires Median(values, half, |values|).Success? && Median(values, half, |values|).value == upper
    ensures IQR(values).Success? && IQR(values).value == upper - lower
  {
    EvenHalf(|values|, half);
  }

  /** For an even size, the corrected spread splits the ordered sample in the
      middle. */
  lemma QuartileSpreadEven(ordered: seq<real>, half: nat, lower: real, upper: real)
    requires half >= 1 && |ordered| == half + half
    requires MedianCorrected(ordered, 0, half).Success? && MedianCorrected(ordered, 0, half).value == lower
    requires MedianCorrected(ordered, half, |ordered|).Success? && MedianCorrected(ordered, half, |ordered|).value == upper
    ensures QuartileSpread(ordered).Success? && QuartileSpread(ordered).value == upper - lower
  {
    EvenHalf(|ordered|, half);
  }

  /** A size of `half + half` is even and splits at `half`. */
  lemma EvenHalf(size: nat, half: nat)
    requires size == half + half
    ensures IsEven(size) && size / 2 == half && UpperStart(size) == half
  {
  }

  lemma IQRCorrectedPermutation(a: seq<real>, b: seq<real>)
    requires multiset(a) == multiset(b)
    ensures IQRCorrected(a) == IQRCorrected(b)
  {
    SortPermutation(a, b);
  }
}
