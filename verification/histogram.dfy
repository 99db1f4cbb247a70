/** The histogram part of `StatisticsExt`: a grid of `k` equal bins of width
    `h` centred on the data range, each counting the sample values strictly
    inside it.

    The bandwidth `h` is an input: the C# code derives it from the IQR
    (Freedman–Diaconis) or the standard deviation (Scott) and a cube root,
    which are floating-point formulas outside this model. What the choice of
    rule still decides here is whether computing the bandwidth throws: the
    Freedman–Diaconis rule calls `IQR` on the sorted list, which throws for
    sizes 0, 1, 2, 3 and 5.

    Grid positions are written with `Multiple(n, h)`, `n` widths laid end to
    end, rather than the product `n * h`; `MultipleIsProduct` relates the
    two. */
module Histogram {
  import opened Wrappers
  import opened Sequences
  import opened Sorting
  import StatisticsExt

  /** The `HistogramBin` struct. */
  datatype HistogramBin = HistogramBin(xValue: real, binStart: real, binStop: real, binCount: nat)

  /* ---------------- grid arithmetic ---------------- */

  /** `Math.Ceiling` on an exact real. */
  function Ceiling(x: real): (c: int)
    ensures c as real - 1.0 < x <= c as real
  {
    -((-x).Floor)
  }

  /** `n` widths `h` laid end to end. */
  function Multiple(n: nat, h: real): real
  {
    if n == 0 then 0.0 else Multiple(n - 1, h) + h
  }

  lemma {:induction false} MultipleIsProduct(n: nat, h: real)
    ensures Multiple(n, h) == n as real * h
  {
    if n > 0 {
      MultipleIsProduct(n - 1, h);
      assert (n - 1) as real * h == n as real * h - h;
    }
  }

  /** More widths reach further. */
  lemma {:induction false} MultipleMonotone(a: nat, b: nat, h: real)
    requires h > 0.0 && a <= b
    ensures Multiple(a, h) <= Multiple(b, h)
    ensures a < b ==> Multiple(a, h) < Multiple(b, h)
    decreases b
  {
    if a < b {
      MultipleMonotone(a, b - 1, h);
    }
  }

  /** Edge number `i` of a grid of width `h` whose first edge is `first`. */
  function Edge(first: real, h: real, i: nat): real
  {
    first + Multiple(i, h)
  }

  /** `k` bins of width `h` cover `dataRange` and `k - 1` do not: `k` is
      `dataRange / h` rounded up. */
  predicate IsBinCount(k: nat, dataRange: real, h: real)
  {
    (k == 0 || Multiple(k - 1, h) < dataRange) && dataRange <= Multiple(k, h)
  }

  /** `(int)Math.Ceiling(dataRange / h)`, the number of bins: the fewest
      widths that cover the range (`BinCountIsCeiling`). */
  function BinCount(dataRange: real, h: real): (k: nat)
    requires dataRange >= 0.0 && h > 0.0
    ensures IsBinCount(k, dataRange, h)
  {
    BinCountFrom(0, dataRange, h)
  }

  /** The fewest widths, at least `n`, that cover the range. */
  function BinCountFrom(n: nat, dataRange: real, h: real): (k: nat)
    requires dataRange >= 0.0 && h > 0.0
    requires n == 0 || Multiple(n - 1, h) < dataRange
    ensures IsBinCount(k, dataRange, h)
    decreases Ceiling(dataRange / h) - n
  {
    if dataRange <= Multiple(n, h) then n
    else
      CeilingExceeds(n, dataRange, h);
      BinCountFrom(n + 1, dataRange, h)
  }

  /** A range longer than `n` widths needs more than `n` bins. */
  lemma CeilingExceeds(n: nat, dataRange: real, h: real)
    requires h > 0.0 && Multiple(n, h) < dataRange
    ensures n < Ceiling(dataRange / h)
  {
    MultipleIsProduct(n, h);
    QuotientAbove(dataRange, h, n as real);
  }

  /** Dividing `n * h < x` through by `h > 0`. */
  lemma QuotientAbove(x: real, h: real, n: real)
    requires h > 0.0 && n * h < x
    ensures n < x / h
  {
    var q := x / h;
    assert q * h == x;
    assert (q - n) * h == x - n * h;
    PositiveFactor(q - n, h);
  }

  lemma PositiveFactor(a: real, h: real)
    requires h > 0.0 && a * h > 0.0
    ensures a > 0.0
  {
  }

  /** The bin count is the ceiling of `dataRange / h`, as the C# code
      computes it. */
  lemma BinCountIsCeiling(dataRange: real, h: real)
    requires dataRange >= 0.0 && h > 0.0
    ensures BinCount(dataRange, h) == Ceiling(dataRange / h)
  {
    QuotientNonNegative(dataRange, h);
    var c := Ceiling(dataRange / h);
    ScaleBounds(dataRange, h, c);
    MultipleIsProduct(c, h);
    if c > 0 {
      MultipleIsProduct(c - 1, h);
    }
    BinCountUnique(BinCount(dataRange, h), c, dataRange, h);
  }

  /** Only one count of bins covers a range exactly. */
  lemma BinCountUnique(j: nat, k: nat, dataRange: real, h: real)
    requires h > 0.0
    requires IsBinCount(j, dataRange, h) && IsBinCount(k, dataRange, h)
    ensures j == k
  {
    if j < k {
      MultipleMonotone(j, k - 1, h);
    } else if k < j {
      MultipleMonotone(k, j - 1, h);
    }
  }

  lemma QuotientNonNegative(x: real, h: real)
    requires x >= 0.0 && h > 0.0
    ensures x / h >= 0.0
  {
  }

  /** Multiplying `c - 1 < x / h <= c` through by `h > 0`. */
  lemma ScaleBounds(x: real, h: real, c: int)
    requires h > 0.0
    requires c as real - 1.0 < x / h <= c as real
    ensures (c as real - 1.0) * h < x <= c as real * h
    ensures (c - 1) as real * h == c as real * h - h
  {
    var q := x / h;
    assert q * h == x;
    StatisticsExt.ProductPositive(q - (c as real - 1.0), h);
    var upper := c as real;
    if q < upper {
      StatisticsExt.ProductPositive(upper - q, h);
      assert (upper - q) * h == upper * h - q * h;
    } else {
      assert q == upper;
      assert x == upper * h;
    }
  }

  /** Half the excess of `k` bins of width `h` over the data range: the grid
      overhangs the data by this much on each side. */
  function Offset(dataRange: real, h: real, k: nat): real
  {
    (Multiple(k, h) - dataRange) / 2.0
  }

  /* ---------------- the bin loop ---------------- */

  /** The count predicate of a bin: strictly between its two edges. */
  function Inside(lo: real, hi: real): real -> bool
  {
    v => lo < v < hi
  }

  function Above(lo: real): real -> bool
  {
    v => lo < v
  }

  /** One pass of the C# loop body for the bin starting at `binStart`. */
  function MakeBin(ordered: seq<real>, binStart: real, h: real): HistogramBin
  {
    var binStop := binStart + h;
    HistogramBin((binStop + binStart) / 2.0, binStart, binStop, Count(ordered, Inside(binStart, binStop)))
  }

  /** The remaining `k` iterations of the loop, the first starting at
      `binStart`; each next bin starts where the previous one stops. */
  function BinsFrom(ordered: seq<real>, binStart: real, h: real, k: nat): (bins: seq<HistogramBin>)
    ensures |bins| == k
    decreases k
  {
    if k == 0 then []
    else [MakeBin(ordered, binStart, h)] + BinsFrom(ordered, binStart + h, h, k - 1)
  }

  /** `HistogramBins(values, start, end, useFreedmanDiaconis)` with the
      bandwidth `h` it computes given as an input. `GetRange(start, end -
      start)` throws unless `0 <= start <= end <= |values|`; the bandwidth
      rule may throw; `Min()` throws on an empty list. The grid is laid out
      over the whole list; `start` and `end` select only the sample the
      bandwidth is computed from. */
  function HistogramBins(values: seq<real>, start: int, end: int, useFreedmanDiaconis: bool, h: real)
    : (r: Result<seq<HistogramBin>>)
    requires h > 0.0
    ensures r.Success? <==> HistogramDefined(values, start, end, useFreedmanDiaconis)
  {
    if !(0 <= start <= end <= |values|) then Failure
    else
      var ordered := Sort(values);
      if useFreedmanDiaconis && StatisticsExt.IQR(ordered).Failure? then Failure
      else if |ordered| == 0 then Failure
      else Success(Grid(ordered, h))
  }

  /** When `HistogramBins` returns bins: an in-bounds range over a non-empty
      sample, whose interquartile range exists if Freedman-Diaconis is asked
      for. */
  predicate HistogramDefined(values: seq<real>, start: int, end: int, useFreedmanDiaconis: bool)
  {
    && 0 <= start <= end <= |values| && |values| > 0
    && (useFreedmanDiaconis ==> |values| == 4 || |values| >= 6)
  }

  /** The loop of `HistogramBins` over the sorted, non-empty list. */
  function Grid(ordered: seq<real>, h: real): seq<HistogramBin>
    requires |ordered| > 0 && h > 0.0
  {
    var min := SeqMin(ordered);
    var max := SeqMax(ordered);
    var dataRange := max - min;
    var k := BinCount(dataRange, h);
    var binOffset := Offset(dataRange, h, k);
    BinsFrom(ordered, ordered[0] - binOffset, h, k)
  }

  /** `HistogramBins(useFreedmanDiaconis)`: null for an empty sample,
      otherwise the histogram over the whole sample. */
  function HistogramBinsAll(values: seq<real>, useFreedmanDiaconis: bool, h: real)
    : (r: Result<Option<seq<HistogramBin>>>)
    requires h > 0.0
    ensures r == Success(None) <==> |values| == 0
    ensures r.Failure? <==> useFreedmanDiaconis && |values| in {1, 2, 3, 5}
    ensures r.Success? && r.value.Some? ==>
      HistogramBins(values, 0, |values|, useFreedmanDiaconis, h) == Success(r.value.value)
  {
    if |values| == 0 then Success(None)
    else
      var bins :- HistogramBins(values, 0, |values|, useFreedmanDiaconis, h);
      Success(Some(bins))
  }

  /* ---------------- layout ---------------- */

  /** The grid `HistogramBins` lays out over data from `min` to `max`:
      `k = ceil((max - min) / h)` bins, the first starting `offset` below the
      minimum with `0 <= offset < h/2`, each `h` wide with its midpoint as
      `xValue`, each stopping where the next starts, the last stopping
      `offset` above the maximum; no bins at all when `min == max`. */
  predicate IsCentredGrid(bins: seq<HistogramBin>, min: real, max: real, h: real)
  {
    var k := |bins|;
    var offset := Offset(max - min, h, k);
    && IsBinCount(k, max - min, h)
    && 0.0 <= offset < h / 2.0
    && (forall i :: 0 <= i < k ==>
          && bins[i].binStart == Edge(min - offset, h, i)
          && bins[i].binStop == bins[i].binStart + h
          && bins[i].xValue == (bins[i].binStart + bins[i].binStop) / 2.0)
    && (forall i :: 0 <= i < k - 1 ==> bins[i].binStop == bins[i + 1].binStart)
    && (k > 0 ==> bins[k - 1].binStop == max + offset)
    && (k == 0 <==> min == max)
  }

  /** `HistogramBins` lays out a centred grid over the sample's extrema. */
  lemma HistogramLayout(values: seq<real>, start: int, end: int, useFreedmanDiaconis: bool, h: real)
    requires h > 0.0
    requires HistogramDefined(values, start, end, useFreedmanDiaconis)
    ensures IsCentredGrid(HistogramBins(values, start, end, useFreedmanDiaconis, h).value,
                          SeqMin(values), SeqMax(values), h)
  {
    HistogramBinsIsGrid(values, start, end, useFreedmanDiaconis, h);
    ExtremaPermutation(values, Sort(values));
    SortedHeadIsMin(Sort(values));
    var min, max := SeqMin(values), SeqMax(values);
    var k := BinCount(max - min, h);
    GridIsCentred(Sort(values), h, min, max, k, min - Offset(max - min, h, k));
  }

  /** The loop of `HistogramBins` lays out a centred grid over any list whose
      head is its minimum (as the sorted list's is). */
  lemma GridIsCentred(ordered: seq<real>, h: real, min: real, max: real, k: nat, first: real)
    requires |ordered| > 0 && h > 0.0
    requires min == SeqMin(ordered) && max == SeqMax(ordered) && ordered[0] == min
    requires k == BinCount(max - min, h)
    requires first == min - Offset(max - min, h, k)
    ensures IsCentredGrid(Grid(ordered, h), min, max, h)
  {
    GridUnfold(ordered, h, min, max, k, first);
    GridLayout(ordered, Grid(ordered, h), first, min, max, h, k);
  }

  lemma GridUnfold(ordered: seq<real>, h: real, min: real, max: real, k: nat, first: real)
    requires |ordered| > 0 && h > 0.0
    requires min == SeqMin(ordered) && max == SeqMax(ordered) && ordered[0] == min
    requires k == BinCount(max - min, h)
    requires first == min - Offset(max - min, h, k)
    ensures min <= max
    ensures Grid(ordered, h) == BinsFrom(ordered, first, h, k)
  {
    assert ordered[0] <= max;
    assert ordered[0] - Offset(max - min, h, k) == first;
  }

  lemma HistogramBinsIsGrid(values: seq<real>, start: int, end: int, useFreedmanDiaconis: bool, h: real)
    requires h > 0.0
    requires HistogramDefined(values, start, end, useFreedmanDiaconis)
    ensures |Sort(values)| > 0
    ensures HistogramBins(values, start, end, useFreedmanDiaconis, h).value == Grid(Sort(values), h)
  {
  }

  /** The loop's `k = ceil((max - min) / h)` bins, started `offset` below
      `min`, form a centred grid. */
  lemma GridLayout(ordered: seq<real>, bins: seq<HistogramBin>, first: real, min: real, max: real, h: real, k: nat)
    requires h > 0.0 && min <= max
    requires IsBinCount(k, max - min, h)
    requires first == min - Offset(max - min, h, k)
    requires bins == BinsFrom(ordered, first, h, k)
    ensures IsCentredGrid(bins, min, max, h)
  {
    BinsFromShape(ordered, first, h, k);
    BinsAdjacent(ordered, bins, first, h, k);
    OffsetBounds(max - min, h, k);
  }

  /** Each bin of the loop stops where the next one starts. */
  lemma BinsAdjacent(ordered: seq<real>, bins: seq<HistogramBin>, first: real, h: real, k: nat)
    requires bins == BinsFrom(ordered, first, h, k)
    requires forall i :: 0 <= i < k ==> bins[i] == MakeBin(ordered, Edge(first, h, i), h)
    ensures forall i :: 0 <= i < k - 1 ==> bins[i].binStop == bins[i + 1].binStart
  {
    forall i | 0 <= i < k - 1
      ensures bins[i].binStop == bins[i + 1].binStart
    {
      assert Multiple(i + 1, h) == Multiple(i, h) + h;
    }
  }

  /** The grid overhangs a covered range by less than half a width on each
      side, and has no bins exactly when the range is empty. */
  lemma OffsetBounds(dataRange: real, h: real, k: nat)
    requires h > 0.0 && dataRange >= 0.0
    requires IsBinCount(k, dataRange, h)
    ensures 0.0 <= Offset(dataRange, h, k) < h / 2.0
    ensures k == 0 <==> dataRange == 0.0
  {
    if k > 0 {
      assert Multiple(k, h) == Multiple(k - 1, h) + h;
      assert Multiple(k - 1, h) >= 0.0 by {
        MultipleMonotone(0, k - 1, h);
      }
    }
  }

  /** Bin `i` of the loop starts `i` widths after the first one. */
  lemma {:induction false} BinsFromShape(ordered: seq<real>, first: real, h: real, k: nat)
    ensures forall i :: 0 <= i < k ==>
      BinsFrom(ordered, first, h, k)[i] == MakeBin(ordered, Edge(first, h, i), h)
    decreases k
  {
    if k > 0 {
      var bins := BinsFrom(ordered, first, h, k);
      BinsFromShape(ordered, first + h, h, k - 1);
      forall i | 0 <= i < k
        ensures bins[i] == MakeBin(ordered, Edge(first, h, i), h)
      {
        if i > 0 {
          assert bins[i] == BinsFrom(ordered, first + h, h, k - 1)[i - 1];
          MultipleShift(i, h);
        }
      }
    }
  }

  /** Taking the first width off the front. */
  lemma {:induction false} MultipleShift(i: nat, h: real)
    requires i > 0
    ensures Multiple(i, h) == h + Multiple(i - 1, h)
  {
  }

  /** The head of a sorted sequence is its minimum. */
  lemma SortedHeadIsMin(ordered: seq<real>)
    requires Sorted(ordered) && |ordered| > 0
    ensures ordered[0] == SeqMin(ordered)
  {
    SortedHeadIsLeast(ordered, SeqMin(ordered));
  }

  /* ---------------- counts ---------------- */

  /** Each `binCount` is the number of sample values strictly inside its bin
      (so a value on an edge is never counted, and a value inside a bin makes
      its count positive); between them the bins count at most every value
      once. */
  lemma HistogramCounts(values: seq<real>, start: int, end: int, useFreedmanDiaconis: bool, h: real)
    requires h > 0.0
    requires HistogramDefined(values, start, end, useFreedmanDiaconis)
    ensures var bins := HistogramBins(values, start, end, useFreedmanDiaconis, h).value;
      && (forall i :: 0 <= i < |bins| ==>
            bins[i].binCount == Count(values, Inside(bins[i].binStart, bins[i].binStop)))
      && (forall i, j ::
            (0 <= i < |bins| && 0 <= j < |values| && bins[i].binStart < values[j] < bins[i].binStop)
            ==> bins[i].binCount > 0)
      && TotalCount(bins) <= |values|
  {
    HistogramBinsIsGrid(values, start, end, useFreedmanDiaconis, h);
    var ordered := Sort(values);
    SortedHeadIsMin(ordered);
    var min, max := SeqMin(ordered), SeqMax(ordered);
    var k := BinCount(max - min, h);
    var first := min - Offset(max - min, h, k);
    GridUnfold(ordered, h, min, max, k, first);
    GridCounts(ordered, values, Grid(ordered, h), h, k, first);
  }

  /** `GridCounts` for the loop's bins, whatever their first edge and number. */
  lemma GridCounts(ordered: seq<real>, values: seq<real>, bins: seq<HistogramBin>, h: real, k: nat, first: real)
    requires h > 0.0 && multiset(ordered) == multiset(values)
    requires bins == BinsFrom(ordered, first, h, k)
    ensures forall i :: 0 <= i < |bins| ==>
      bins[i].binCount == Count(values, Inside(bins[i].binStart, bins[i].binStop))
    ensures forall i, j ::
      (0 <= i < |bins| && 0 <= j < |values| && bins[i].binStart < values[j] < bins[i].binStop)
      ==> bins[i].binCount > 0
    ensures TotalCount(bins) <= |values|
  {
    GridCountsExact(ordered, values, bins, h, k, first);
    GridCountsHit(values, bins);
    BinsFromTotal(ordered, first, h, k);
    assert |multiset(ordered)| == |multiset(values)|;
  }

  /** Each bin counts the values strictly inside it, in either order. */
  lemma GridCountsExact(ordered: seq<real>, values: seq<real>, bins: seq<HistogramBin>, h: real, k: nat, first: real)
    requires h > 0.0 && multiset(ordered) == multiset(values)
    requires bins == BinsFrom(ordered, first, h, k)
    ensures forall i :: 0 <= i < |bins| ==>
      bins[i].binCount == Count(values, Inside(bins[i].binStart, bins[i].binStop))
  {
    BinsFromShape(ordered, first, h, k);
    forall i | 0 <= i < |bins|
      ensures bins[i].binCount == Count(values, Inside(bins[i].binStart, bins[i].binStop))
    {
      FilterPermutation(ordered, values, Inside(bins[i].binStart, bins[i].binStop));
    }
  }

  /** A bin that counts the values inside it is non-empty when one is. */
  lemma GridCountsHit(values: seq<real>, bins: seq<HistogramBin>)
    requires forall i :: 0 <= i < |bins| ==>
      bins[i].binCount == Count(values, Inside(bins[i].binStart, bins[i].binStop))
    ensures forall i, j ::
      (0 <= i < |bins| && 0 <= j < |values| && bins[i].binStart < values[j] < bins[i].binStop)
      ==> bins[i].binCount > 0
  {
    forall i, j | 0 <= i < |bins| && 0 <= j < |values| && bins[i].binStart < values[j] < bins[i].binStop
      ensures bins[i].binCount > 0
    {
      assert values[j] in Filter(values, Inside(bins[i].binStart, bins[i].binStop));
    }
  }

  /** Sum of the `binCount` fields. */
  function TotalCount(bins: seq<HistogramBin>): nat
  {
    if |bins| == 0 then 0 else bins[0].binCount + TotalCount(bins[1..])
  }

  /** The bins of the loop count, between them, at most the values above the
      first edge: no value is counted twice. */
  lemma {:induction false} BinsFromTotal(ordered: seq<real>, first: real, h: real, k: nat)
    requires h > 0.0
    ensures TotalCount(BinsFrom(ordered, first, h, k)) <= Count(ordered, Above(first))
    decreases k
  {
    if k > 0 {
      var bins := BinsFrom(ordered, first, h, k);
      BinsFromTotal(ordered, first + h, h, k - 1);
      assert bins[1..] == BinsFrom(ordered, first + h, h, k - 1);
      CountDisjoint(ordered, Inside(first, first + h), Above(first + h), Above(first));
    }
  }

  function OnEdge(x: real): real -> bool
  {
    v => v == x
  }

  /** Closed interval. */
  function Within(lo: real, hi: real): real -> bool
  {
    v => lo <= v <= hi
  }

  function AboveUpTo(lo: real, hi: real): real -> bool
  {
    v => lo < v <= hi
  }

  /** Number of sample values lying on one of the `k + 1` edges of a grid of
      `k` bins of width `h` whose first edge is `first`. */
  function EdgeCount(values: seq<real>, first: real, h: real, k: nat): nat
    decreases k
  {
    Count(values, OnEdge(first)) + (if k == 0 then 0 else EdgeCount(values, first + h, h, k - 1))
  }

  /** Every value in the closed span of the loop's grid is counted by exactly
      one bin or lies on exactly one edge. */
  lemma {:induction false} GridPartition(ordered: seq<real>, values: seq<real>, first: real, h: real, k: nat, last: real)
    requires h > 0.0 && multiset(ordered) == multiset(values)
    requires last == first + Multiple(k, h)
    ensures TotalCount(BinsFrom(ordered, first, h, k)) + EdgeCount(values, first, h, k)
            == Count(values, Within(first, last))
    decreases k
  {
    if k == 0 {
      CountMonotonic(values, Within(first, last), OnEdge(first));
      CountMonotonic(values, OnEdge(first), Within(first, last));
    } else {
      var next := first + h;
      MultipleShift(k, h);
      GridPartition(ordered, values, next, h, k - 1, last);
      MultipleMonotone(0, k - 1, h);
      FirstBinSplit(values, first, next, last);
      FirstBinCount(ordered, values, first, h, k, next);
    }
  }

  /** The closed span of a grid is its first edge, the inside of its first
      bin, and the closed span of the rest. */
  lemma FirstBinSplit(values: seq<real>, first: real, next: real, last: real)
    requires first < next <= last
    ensures Count(values, Within(first, last))
         == Count(values, OnEdge(first)) + Count(values, Inside(first, next)) + Count(values, Within(next, last))
  {
    CountSplit(values, Within(first, last), OnEdge(first), AboveUpTo(first, last));
    CountSplit(values, AboveUpTo(first, last), Inside(first, next), Within(next, last));
  }

  /** The loop's first bin counts the values inside it; the rest of the loop
      starts one width later. */
  lemma FirstBinCount(ordered: seq<real>, values: seq<real>, first: real, h: real, k: nat, next: real)
    requires k > 0 && multiset(ordered) == multiset(values)
    requires next == first + h
    ensures TotalCount(BinsFrom(ordered, first, h, k))
         == Count(values, Inside(first, next)) + TotalCount(BinsFrom(ordered, next, h, k - 1))
  {
    assert BinsFrom(ordered, first, h, k)[1..] == BinsFrom(ordered, next, h, k - 1);
    FilterPermutation(ordered, values, Inside(first, next));
  }

  /** Each sample value is counted by exactly one bin or lies on exactly one
      edge of the grid (the values no bin counts), so the counts fall short of
      the sample size by the number of values on edges; a sample of equal
      values gets no bins at all. */
  lemma HistogramPartition(values: seq<real>, start: int, end: int, useFreedmanDiaconis: bool, h: real)
    requires h > 0.0
    requires HistogramDefined(values, start, end, useFreedmanDiaconis)
    ensures var bins := HistogramBins(values, start, end, useFreedmanDiaconis, h).value;
      && (|bins| > 0 ==> TotalCount(bins) + EdgeCount(values, bins[0].binStart, h, |bins|) == |values|)
      && (|bins| == 0 <==> forall i, j :: 0 <= i < |values| && 0 <= j < |values| ==> values[i] == values[j])
  {
    HistogramEdges(values, start, end, useFreedmanDiaconis, h);
    HistogramLayout(values, start, end, useFreedmanDiaconis, h);
    ExtremaMeet(values);
  }

  lemma HistogramEdges(values: seq<real>, start: int, end: int, useFreedmanDiaconis: bool, h: real)
    requires h > 0.0
    requires HistogramDefined(values, start, end, useFreedmanDiaconis)
    ensures var bins := HistogramBins(values, start, end, useFreedmanDiaconis, h).value;
      |bins| > 0 ==> TotalCount(bins) + EdgeCount(values, bins[0].binStart, h, |bins|) == |values|
  {
    var bins := HistogramBins(values, start, end, useFreedmanDiaconis, h).value;
    HistogramBinsIsGrid(values, start, end, useFreedmanDiaconis, h);
    var ordered := Sort(values);
    SortedHeadIsMin(ordered);
    ExtremaPermutation(values, ordered);
    var min, max := SeqMin(ordered), SeqMax(ordered);
    var k := BinCount(max - min, h);
    var first := min - Offset(max - min, h, k);
    GridUnfold(ordered, h, min, max, k, first);
    if k > 0 {
      var last := first + Multiple(k, h);
      GridPartition(ordered, values, first, h, k, last);
      GridSpansValues(values, h, min, max, k, first, last);
      assert bins[0].binStart == first;
    }
  }

  /** The grid's closed span, from `min - offset` to `max + offset`, holds
      every value. */
  lemma GridSpansValues(values: seq<real>, h: real, min: real, max: real, k: nat, first: real, last: real)
    requires |values| > 0 && h > 0.0
    requires min == SeqMin(values) && max == SeqMax(values)
    requires IsBinCount(k, max - min, h)
    requires first == min - Offset(max - min, h, k) && last == first + Multiple(k, h)
    ensures Count(values, Within(first, last)) == |values|
  {
    assert min <= values[0] <= max;
    SpanBounds(min, max, Multiple(k, h), first);
    SpanCovers(values, min, max, first, last);
  }

  /** A span of length `m >= max - min`, centred on `[min, max]`, contains
      it. */
  lemma SpanBounds(min: real, max: real, m: real, first: real)
    requires min <= max && max - min <= m
    requires first == min - (m - (max - min)) / 2.0
    ensures first <= min && max <= first + m
  {
  }

  /** A closed interval around `[min, max]` holds every value between the
      extremes. */
  lemma SpanCovers(values: seq<real>, min: real, max: real, lo: real, hi: real)
    requires |values| > 0 && min == SeqMin(values) && max == SeqMax(values)
    requires lo <= min && max <= hi
    ensures Count(values, Within(lo, hi)) == |values|
  {
    forall i | 0 <= i < |values|
      ensures Within(lo, hi)(values[i])
    {
    }
    FilterKeepsAll(values, Within(lo, hi));
  }

  /** The least and greatest values coincide exactly when all values are
      equal. */
  lemma ExtremaMeet(values: seq<real>)
    requires |values| > 0
    ensures SeqMin(values) == SeqMax(values)
        <==> forall i, j :: 0 <= i < |values| && 0 <= j < |values| ==> values[i] == values[j]
  {
    assert SeqMin(values) in values && SeqMax(values) in values;
  }

  /** The histogram depends only on the multiset of the sample: reordering
      the input changes nothing. */
  lemma HistogramPermutation(a: seq<real>, b: seq<real>, start: int, end: int, useFreedmanDiaconis: bool, h: real)
    requires h > 0.0 && multiset(a) == multiset(b)
    ensures HistogramBins(a, start, end, useFreedmanDiaconis, h) == HistogramBins(b, start, end, useFreedmanDiaconis, h)
  {
    assert |multiset(a)| == |multiset(b)|;
    SortPermutation(a, b);
  }
}
