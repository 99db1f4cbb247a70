# Cs.Extensions in Dafny

A Dafny model of the core of the Cs.Extensions C# library, with proofs of
its behaviour. The core is three static classes of extension methods:

- **`StatisticsExt`** covers:
  - `Mean`, `Variance`, `Median`, `Modes` and `IQR` over a half-open index
    range `[start, end)` of a list of doubles, and their whole-list
    convenience overloads;
  - the `IsEven` helper;
  - `HistogramBins`, which lays a grid of `k = ceil(range / h)` bins of
    width `h`, centred on the data range, and counts the values strictly
    inside each bin.
- **`ManipulationExt`** covers:
  - reading the first or last `n` bits of a byte's binary rendering;
  - `ForEach`, `SubArray` and `Join` on arrays;
  - `RemoveOutliers`, which removes the `lowest` smallest and `highest`
    largest values by value;
  - four order-preserving filters on lists of strings.
- **`ToStringExt`** covers the binary rendering of a byte (zero-padded,
  optional `0b` prefix) and its upper-case hexadecimal rendering (optional
  `0x` prefix).

## Modelling conventions

- **Doubles** are exact `real`s. The statistics (`Mean`, `Variance`)
  produce a non-finite value from finite inputs only by dividing by a zero
  `int` count. That outcome is modelled as `Doubles.Double`: NaN, or an
  infinity of the dividend's sign. The histogram bandwidth can also become
  infinite or NaN (a division by `Math.Pow(0, 1.0/3)` for an empty range);
  that case is listed under "Left out".
- **Exceptions and `null`:** every exception the C# code throws or wraps
  is the single `Failure` case of `Wrappers.Result`. A `null` returned by
  a convenience overload is `Wrappers.Option.None`.
- **Integer types:** `byte` and `int` are subset types of `int`. C#'s
  masking of shift counts (`s & 31`) is modelled explicitly, and so are
  the wrap-around of `(1 << n) - 1`, the wrap-around of `Variance`'s
  divisor `end - start - 1` (`Digits.Wrap32`) and the `(byte)`
  truncation.
- **Sorting:** `OrderBy(num => num)` is `Sorting.Sort`. A sorted
  permutation is unique (`Sorting.SortedUnique`), so any correct sort
  gives the same sequence.
- **Histogram bandwidth:** the bin width `h` is an input. The
  Freedman–Diaconis and Scott formulas (a cube root and a square root)
  are not modelled. The model keeps only whether computing them throws.
- **Items of `Join`** are strings. The generic `ToString()` is not
  modelled.

## Where the code departs from the textbook statistics

The model follows the code on each of these points.

- **Median of an odd range:** the code takes sorted index `size/2 - 1`.
  The integer division happens before `Math.Round`. The textbook median
  is the middle element.
- **IQR:**
  - The code takes the medians of the halves in the caller's order, not
    the sorted order.
  - For an odd size it splits at `floor(n/2)`.
  - It throws for sizes 0, 1, 2, 3 and 5, not only below 2.
- **RemoveOutliers** throws only when `lowest` or `highest` alone exceeds
  the count. When only their sum does, the extra removals are silent and
  the result is empty.
- **`HistogramBins` on an empty sample:** the convenience overload returns
  `null`, not an empty sequence. The range overload throws, in `IQR()`
  under Freedman–Diaconis and in `Min()` under Scott's rule.
- **Degenerate bandwidth:** no check for `h <= 0` exists in the code.
- **Constant sample:** a sample whose values are all equal gets no bins
  at all.

## Model

| member | source | states |
|---|---|---|
| StatisticsExt.IsEven | Cs.Extensions/StatisticsExt.cs:254-257 | true exactly when the number is divisible by 2, computed with C#'s truncating `%` for negative numbers |
| StatisticsExt.Mean | Cs.Extensions/StatisticsExt.cs:165-176 | throws exactly when the loop indexes outside the list; for a non-empty range the result is a finite quotient whose `end - start` copies add up to the range's sum; an empty range gives NaN and a reversed one 0 |
| StatisticsExt.MeanWithinRange | Cs.Extensions/StatisticsExt.cs:165-176 | the mean of a non-empty range lies between the range's least and greatest values |
| StatisticsExt.AverageBetween | Cs.Extensions/StatisticsExt.cs:170-175 | an average lies within any common bounds of the averaged values |
| StatisticsExt.MeanAll | Cs.Extensions/StatisticsExt.cs:158-163 | 0 for an empty sample, otherwise the average of the whole sample |
| StatisticsExt.SquaredDeviations | Cs.Extensions/StatisticsExt.cs:143-146 | the accumulated squared deviations are non-negative and are zero when every value equals the mean |
| StatisticsExt.Variance | Cs.Extensions/StatisticsExt.cs:138-152 | throws exactly when the loop indexes outside the list; the squared deviations are divided by `end - start` for `start == 0` and by `end - start - 1` for `start > 0`; a range of one value with `start > 0` divides by zero (NaN or infinity); an empty or reversed range gives 0, except NaN for an empty range at `start <= 0` and for `start = int.MaxValue, end = int.MinValue`, whose divisor wraps around to 0; a finite variance is never negative |
| StatisticsExt.VarianceCountOfEmpty | Cs.Extensions/StatisticsExt.cs:148-151 | for an empty or reversed range, the wrapping divisor is 0 exactly for an empty range at `start <= 0` and for `start = int.MaxValue, end = int.MinValue` |
| Digits.Wrap32 | Cs.Extensions/StatisticsExt.cs:148-149 | unchecked `int` arithmetic: the result is congruent to the exact value modulo 2^32, and equal to it when it fits in an `int` |
| StatisticsExt.VarianceAbout | Cs.Extensions/StatisticsExt.cs:131-136 | NaN for an empty sample, otherwise the non-negative mean squared deviation from the given mean |
| StatisticsExt.VarianceAboutIsRange | Cs.Extensions/StatisticsExt.cs:131-136 | `Variance(mean)` is the range overload over `[0, Count)` |
| StatisticsExt.VarianceAll | Cs.Extensions/StatisticsExt.cs:124-129 | NaN for an empty sample, otherwise the non-negative mean squared deviation from `Mean()` |
| StatisticsExt.Median | Cs.Extensions/StatisticsExt.cs:189-212 | succeeds exactly for a valid `GetRange` of at least two values; sizes 0 and 1 read index -1 and throw |
| StatisticsExt.MedianOfOrdered | Cs.Extensions/StatisticsExt.cs:198-209 | the index arithmetic on the ordered sub-list succeeds exactly when it holds at least two values |
| StatisticsExt.MedianEvenRank | Cs.Extensions/StatisticsExt.cs:200-204 | for an even size `m >= 2`, the median is the mean of the values of ranks `m/2 - 1` and `m/2` of the range |
| StatisticsExt.MedianOddRank | Cs.Extensions/StatisticsExt.cs:205-209 | for an odd size `m >= 3`, the median is the value of rank `m/2 - 1` (integer division), one below the middle |
| StatisticsExt.MedianWithinRange | Cs.Extensions/StatisticsExt.cs:189-212 | a median lies between the least and greatest values of its range |
| StatisticsExt.MedianPermutation | Cs.Extensions/StatisticsExt.cs:195-196 | the median depends only on the multiset of its range, so re-ordering the sample leaves it unchanged |
| StatisticsExt.MedianAll | Cs.Extensions/StatisticsExt.cs:182-187 | 0 for an empty sample; throws exactly for a single value; otherwise the range median over `[0, Count)`, whose value `MedianEvenRank` and `MedianOddRank` give |
| StatisticsExt.MaxOccurrence | Cs.Extensions/StatisticsExt.cs:245 | the largest group size: no key occurs more often, and some key occurs that often |
| StatisticsExt.ModesAreMostFrequent | Cs.Extensions/StatisticsExt.cs:245-248 | over the group keys, the `Where` condition holds exactly for the values that occur more than once and at least as often as any other |
| StatisticsExt.ModesOf | Cs.Extensions/StatisticsExt.cs:235-249 | the modes of a range are exactly its most frequent values that repeat, each once, in order of first occurrence |
| StatisticsExt.Modes | Cs.Extensions/StatisticsExt.cs:225-250 | throws exactly for an empty or out-of-bounds range; otherwise returns exactly the range's most frequent repeated values, without duplicates, in first-occurrence order |
| StatisticsExt.ModesWithoutRepeats | Cs.Extensions/StatisticsExt.cs:245-249 | a range in which no value repeats has no modes |
| StatisticsExt.NoModes | Cs.Extensions/StatisticsExt.cs:248 | the grouping pipeline finds no modes in a range without repeated values |
| StatisticsExt.ModesAll | Cs.Extensions/StatisticsExt.cs:218-223 | `null` exactly for an empty sample, otherwise the modes of the whole sample |
| StatisticsExt.IQR | Cs.Extensions/StatisticsExt.cs:76-97 | succeeds exactly for sizes 4 and 6 or more: the other sizes leave a half with fewer than two values, and its median throws |
| StatisticsExt.IQROddHalves | Cs.Extensions/StatisticsExt.cs:89-96 | for an odd size `2h + 1`, the IQR is the median of the values after index `h`, in the caller's order, minus the median of the values before index `h - 1` |
| StatisticsExt.IQROfOneToEight | Cs.Extensions/StatisticsExt.cs:76-97 | the sample 1 to 8 has quartiles 2.5 and 6.5, so its IQR is 4 |
| StatisticsExt.SortedQuadMedian | Cs.Extensions/StatisticsExt.cs:200-204 | the median of four ascending values is the mean of the middle two |
| Histogram.Ceiling | Cs.Extensions/StatisticsExt.cs:56 | `Math.Ceiling`: the least integer not below its argument |
| Histogram.MultipleIsProduct | Cs.Extensions/StatisticsExt.cs:59 | `n` widths laid end to end span `n * h` |
| Histogram.BinCount | Cs.Extensions/StatisticsExt.cs:56 | `k` bins cover the data range and `k - 1` do not |
| Histogram.BinCountIsCeiling | Cs.Extensions/StatisticsExt.cs:56 | the bin count is `ceil(dataRange / h)`, as the code computes it |
| Histogram.BinCountUnique | Cs.Extensions/StatisticsExt.cs:56 | only one number of bins covers a range exactly |
| Histogram.BinsFrom | Cs.Extensions/StatisticsExt.cs:61-71 | the remaining iterations of the bin loop produce exactly `k` bins |
| Histogram.HistogramBins | Cs.Extensions/StatisticsExt.cs:36-74 | succeeds exactly when `GetRange(start, end - start)` is valid, the list is non-empty (`Min()`), and, under the Freedman–Diaconis rule, `IQR` of the ordered list does not throw (size 4 or at least 6) |
| Histogram.HistogramBinsAll | Cs.Extensions/StatisticsExt.cs:29-34 | `null` exactly for an empty sample; throws exactly under the Freedman–Diaconis rule for 1, 2, 3 or 5 values; otherwise the histogram over the whole sample |
| Histogram.HistogramLayout | Cs.Extensions/StatisticsExt.cs:53-71 | the bins form a centred grid over the sample's least and greatest values (see `IsCentredGrid`): `k = ceil((max - min) / h)` bins; bin `i` starts `i` widths after `min - offset`, where `0 <= offset < h/2`; each bin is `h` wide with its midpoint as `xValue`; each bin stops where the next starts; the last stops at `max + offset`; there are no bins exactly when `min == max` |
| Histogram.GridIsCentred | Cs.Extensions/StatisticsExt.cs:53-71 | the loop lays out that centred grid over any list whose head is its minimum |
| Histogram.GridLayout | Cs.Extensions/StatisticsExt.cs:58-71 | `k = ceil(range / h)` bins started `offset` below the minimum are contiguous, `h` wide, midpoint-labelled, and end `offset` above the maximum |
| Histogram.OffsetBounds | Cs.Extensions/StatisticsExt.cs:55-59 | the offset `(h * k - dataRange) / 2` lies in `[0, h/2)`, and there are no bins exactly when the data range is 0 |
| Histogram.BinsAdjacent | Cs.Extensions/StatisticsExt.cs:61-71 | each bin of the loop stops where the next one starts (`binStart = histogramBin.binStop`) |
| Histogram.BinsFromShape | Cs.Extensions/StatisticsExt.cs:61-71 | bin `i` of the loop starts `i` widths after the first |
| Histogram.HistogramCounts | Cs.Extensions/StatisticsExt.cs:67 | every `binCount` is the number of sample values strictly between the bin's edges; a value strictly inside a bin makes its count positive; the counts add up to at most the sample size |
| Histogram.GridCounts | Cs.Extensions/StatisticsExt.cs:67 | the counts the loop takes on the sorted list equal those on the caller's list, and they add up to at most its size |
| Histogram.GridCountsExact | Cs.Extensions/StatisticsExt.cs:67 | each bin counted on the sorted list holds the number of the caller's values strictly between its edges |
| Histogram.GridCountsHit | Cs.Extensions/StatisticsExt.cs:67 | a bin with a value strictly inside it has a positive count |
| Histogram.BinsFromTotal | Cs.Extensions/StatisticsExt.cs:61-71 | the loop's bins between them count no value twice |
| Histogram.HistogramPartition | Cs.Extensions/StatisticsExt.cs:53-71 | every sample value is either counted by exactly one bin or lies on one of the grid's edges, so the counts plus the number of values on edges equal the sample size; there are no bins exactly when all values are equal |
| Histogram.HistogramEdges | Cs.Extensions/StatisticsExt.cs:53-71 | when there are bins, their counts plus the number of values on the grid's edges equal the sample size |
| Histogram.GridPartition | Cs.Extensions/StatisticsExt.cs:61-71 | over the closed span of the loop's grid, the bin counts plus the values on edges account for every value |
| Histogram.FirstBinSplit | Cs.Extensions/StatisticsExt.cs:67 | a grid's closed span divides into its first edge, the inside of its first bin, and the closed span of the rest |
| Histogram.FirstBinCount | Cs.Extensions/StatisticsExt.cs:64-70 | the first bin counts the values strictly inside it, and the rest of the loop starts one width later |
| Histogram.GridSpansValues | Cs.Extensions/StatisticsExt.cs:53-60 | the grid runs from `min - offset` to `max + offset` and so holds every value |
| Histogram.SpanCovers | Cs.Extensions/StatisticsExt.cs:53-54 | a closed interval that contains `[Min(), Max()]` holds every value of the sample |
| Histogram.ExtremaMeet | Cs.Extensions/StatisticsExt.cs:53-56 | the least and greatest values coincide exactly when all values are equal |
| Histogram.HistogramPermutation | Cs.Extensions/StatisticsExt.cs:38-39 | the histogram depends only on the multiset of the sample, because the code sorts it first |
| Sorting.Sort | Cs.Extensions/StatisticsExt.cs:39 | `OrderBy(num => num)`: an ascending permutation of its input |
| Sorting.SortedUnique | Cs.Extensions/StatisticsExt.cs:39 | two ascending sequences with the same elements are equal, so the choice of sorting algorithm is not observable |
| Sorting.SortPermutation | Cs.Extensions/StatisticsExt.cs:39 | permutations of each other sort to the same sequence |
| Sorting.RankIsSortedPosition | Cs.Extensions/StatisticsExt.cs:196 | the value of rank `k` is at index `k` after sorting |
| Sequences.SeqMin | Cs.Extensions/StatisticsExt.cs:53 | `Min()` is an element no greater than any other |
| Sequences.SeqMax | Cs.Extensions/StatisticsExt.cs:54 | `Max()` is an element no smaller than any other |
| Sequences.Distinct | Cs.Extensions/StatisticsExt.cs:235-236 | `GroupBy` keys: every value of the range exactly once, in order of first occurrence |
| Sequences.RemoveFirst | Cs.Extensions/ManipulationExt.cs:238 | `List.Remove(x)` deletes the first occurrence of `x`, keeping everything before and after it in order; this takes one `x` out of the multiset and shortens the list by one, and a list without `x` is unchanged |
| Sequences.RemoveFirstIsSubsequence | Cs.Extensions/ManipulationExt.cs:238 | one `Remove` keeps the survivors in their original order |
| Sequences.RemoveEach | Cs.Extensions/ManipulationExt.cs:236-244 | one `Remove` per target removes the targets' multiset; since each `Remove` deletes the first remaining copy, the survivors are exactly the last copies of each value (`KeepLast`) |
| Sequences.KeepLastRemoveFirst | Cs.Extensions/ManipulationExt.cs:238 | deleting the first copy of `x` does not change which last copies survive while fewer copies of `x` are kept than there are |
| Sequences.RemoveEachAppend | Cs.Extensions/ManipulationExt.cs:236-244 | the two removal loops together are one round of removals over both target lists |
| Sequences.RemoveEachIsSubsequence | Cs.Extensions/ManipulationExt.cs:236-244 | repeated `Remove` keeps the survivors in their original order |
| Doubles.Divide | Cs.Extensions/StatisticsExt.cs:175 | dividing a double by an `int` count: finite exactly when the count is non-zero, with the count's multiples giving back the dividend; otherwise NaN for 0/0 and an infinity of the dividend's sign |
| Digits.ToBase | Cs.Extensions/ToStringExt.cs:19 | `Convert.ToString(value, 2)` and the `X` format digits: a non-empty string of digits of the base |
| Digits.ParseToBase | Cs.Extensions/ToStringExt.cs:19 | reading a rendering back gives the number |
| Digits.ToBaseOfParse | Cs.Extensions/ToStringExt.cs:19 | a digit string without leading zeros is the rendering of the number it reads |
| Digits.ToBaseLeading | Cs.Extensions/ToStringExt.cs:19 | a rendering of two or more digits does not start with `0` |
| Digits.DigitsDivMod | Cs.Extensions/ManipulationExt.cs:38 | dividing a digit string's value by `base^(len - i)` reads its first `i` digits, and the remainder reads the rest |
| Digits.BitAnd | Cs.Extensions/ManipulationExt.cs:55 | the bitwise AND of two naturals is at most the first |
| Digits.BitAndLowMask | Cs.Extensions/ManipulationExt.cs:55 | AND with `2^k - 1` keeps the value modulo `2^k` |
| ToStringExt.PadLeft | Cs.Extensions/ToStringExt.cs:19 | throws exactly for a negative width; otherwise `max(width, len)` characters ending in the input, with the padding character before it |
| ToStringExt.PadLeftKeepsValue | Cs.Extensions/ToStringExt.cs:19 | zero padding keeps the string all digits and keeps the value it reads |
| ToStringExt.BitLengthIsLeast | Cs.Extensions/ToStringExt.cs:19 | the unpadded binary length is the least `L >= 1` with `value < 2^L`, at most 8 for a byte |
| ToStringExt.ToBinaryString | Cs.Extensions/ToStringExt.cs:17-22 | throws exactly for a negative `length`; otherwise it is the prefix plus `max(bit length, length)` binary digits, starting with `0b` when prefixed, which read back as the byte, pad zeros included |
| ToStringExt.BinaryStringPrefixed | Cs.Extensions/ToStringExt.cs:20-21 | the prefixed rendering is `0b` followed by exactly the unprefixed one |
| ToStringExt.BinaryStringUnique | Cs.Extensions/ToStringExt.cs:19 | the unpadded rendering is the only binary string without leading zeros that reads as the byte |
| ToStringExt.HexLengthOfByte | Cs.Extensions/ToStringExt.cs:32-33 | a byte has one or two hex digits, one exactly when it is below 16 |
| ToStringExt.ToHexString | Cs.Extensions/ToStringExt.cs:30-34 | without prefix, exactly two upper-case hex digits whatever `length` is; with prefix, `0x` followed by `max(hex length, length)` upper-case hex digits; the digits read back as the byte; fails exactly for a prefixed negative `length` |
| ToStringExt.HexStringWidth | Cs.Extensions/ToStringExt.cs:32 | a prefixed rendering has at least `max(length, 1)` digits |
| ManipulationExt.ShiftCount | Cs.Extensions/ManipulationExt.cs:38 | the shift count C# uses is below 32, and equals the requested count when that is already in 0..31 |
| ManipulationExt.BinaryLength | Cs.Extensions/ManipulationExt.cs:34 | `L`, the number of binary digits of a byte, is between 1 and 8 |
| ManipulationExt.Binary | Cs.Extensions/ManipulationExt.cs:34 | the unpadded binary rendering: `L` binary digits |
| ManipulationExt.BinaryIsRendering | Cs.Extensions/ManipulationExt.cs:34 | `Binary` is the string `ToBinaryString(false)` renders, and `L` is its length |
| ManipulationExt.ShiftRight | Cs.Extensions/ManipulationExt.cs:38 | shifting a byte right never increases it |
| ManipulationExt.ReadFirstNBits | Cs.Extensions/ManipulationExt.cs:30-44 | fails exactly when `n > L`; for `n >= 0` the result is below `2^n` and is the number written by the first `n` binary digits; `n = L` gives the value back; a negative `n` shifts right by `(L - n) mod 32` |
| ManipulationExt.LeadingBits | Cs.Extensions/ManipulationExt.cs:38 | shifting right by `L - n` leaves the number the first `n` binary digits write |
| ManipulationExt.ShiftIsLeadingDigits | Cs.Extensions/ManipulationExt.cs:38 | for `0 <= n <= L` the shift count is `L - n`, and the shift leaves the number the first `n` binary digits write |
| ManipulationExt.ReadFirstNBitsPrefix | Cs.Extensions/ManipulationExt.cs:30-44 | for `1 <= n <= L`, the result's own binary rendering is the first `n` characters of the value's |
| ManipulationExt.ReadFirstNBitsWrapsAround | Cs.Extensions/ManipulationExt.cs:35-38 | a negative `n` passes the guard, and `n = L - 32` shifts by nothing and gives the value back |
| ManipulationExt.Mask | Cs.Extensions/ManipulationExt.cs:54 | `(byte)((1 << n) - 1)` is `2^min(n mod 32, 8) - 1` |
| ManipulationExt.MaskBits | Cs.Extensions/ManipulationExt.cs:54 | truncating `2^s - 1` to a byte leaves `2^min(s, 8) - 1` |
| ManipulationExt.ReadLastNBits | Cs.Extensions/ManipulationExt.cs:46-61 | fails exactly when `n > L`; for `n >= 0` the result is `value mod 2^n`; a negative `n` keeps the low `min(n mod 32, 8)` bits |
| ManipulationExt.MaskedBits | Cs.Extensions/ManipulationExt.cs:54-55 | `value & mask` is `value mod 2^min(n mod 32, 8)`, which is `value mod 2^n` for `0 <= n <= L` |
| ManipulationExt.ReadLastNBitsSuffix | Cs.Extensions/ManipulationExt.cs:46-61 | for `0 <= n <= L`, the result is the number the last `n` binary digits write |
| ManipulationExt.TrailingBits | Cs.Extensions/ManipulationExt.cs:54-55 | the last `n` binary digits of a byte write `value mod 2^n` |
| ManipulationExt.ReadNothing | Cs.Extensions/ManipulationExt.cs:30-61 | reading zero bits from either end gives 0 |
| ManipulationExt.ReadAll | Cs.Extensions/ManipulationExt.cs:46-61 | reading the last `L` bits gives the value back |
| ManipulationExt.ReadSplitsByte | Cs.Extensions/ManipulationExt.cs:30-61 | the first `L - n` bits shifted up by `n`, plus the last `n` bits, are the value |
| ManipulationExt.ForEach | Cs.Extensions/ManipulationExt.cs:92-107 | the same number of elements, element `i` being `methodToRun` applied to element `i` of the input |
| ManipulationExt.ForEachCompose | Cs.Extensions/ManipulationExt.cs:92-107 | mapping twice is mapping once by the composition |
| ManipulationExt.ForEachAppend | Cs.Extensions/ManipulationExt.cs:92-107 | mapping distributes over concatenation |
| ManipulationExt.SubArray | Cs.Extensions/ManipulationExt.cs:141-153 | fails exactly for a negative index or length, or a range past the end; otherwise exactly `length` elements, the `j`-th being element `index + j` |
| ManipulationExt.SubArrayAdjacent | Cs.Extensions/ManipulationExt.cs:141-153 | adjacent sub-arrays concatenate to the sub-array spanning both |
| ManipulationExt.SubArrayWhole | Cs.Extensions/ManipulationExt.cs:141-153 | the sub-array from 0 of the full length is the whole array |
| ManipulationExt.Terminated | Cs.Extensions/ManipulationExt.cs:170-174 | the loop's string is as long as all items plus one separator per item |
| ManipulationExt.Join | Cs.Extensions/ManipulationExt.cs:166-182 | fails exactly on no items (`Substring(0, -1)`); otherwise its length is the items' total length plus one separator between each pair; a single item is returned as it is |
| ManipulationExt.SplitJoin | Cs.Extensions/ManipulationExt.cs:166-182 | when no item contains the separator, splitting the joined string at it gives the items back, so the items are separated by exactly one separator with none trailing |
| ManipulationExt.JoinCons | Cs.Extensions/ManipulationExt.cs:170-176 | joining two or more items is the first item, the separator, and the join of the rest |
| ManipulationExt.SplitCons | Cs.Extensions/ManipulationExt.cs:166-182 | splitting at the first separator after a separator-free head gives the head, then the parts of the rest |
| ManipulationExt.Reverse | Cs.Extensions/ManipulationExt.cs:241-244 | the order in which the second loop visits the largest values: the same elements, last first |
| ManipulationExt.RemoveOutliers | Cs.Extensions/ManipulationExt.cs:229-252 | fails exactly when `lowest` or `highest` exceeds the count; the survivors keep their relative order; when `lowest + highest <= count` they are the sorted values minus the `lowest` smallest and the `highest` largest, counted with multiplicity, and there are `count - lowest - highest` of them, and of each value the last copies survive, because each removal deletes the first remaining copy; when `lowest + highest > count` nothing survives; negative counts remove nothing |
| ManipulationExt.Trim | Cs.Extensions/ManipulationExt.cs:233-246 | the two removal loops leave a subsequence holding the middle of the sorted values, made of the last copies of each value |
| ManipulationExt.RemoveOutliersKeepsLastCopy | Cs.Extensions/ManipulationExt.cs:236-239 | removing the lowest value of `[1, 5, 1]` gives `[5, 1]`: the first 1 goes, the later one stays |
| ManipulationExt.OutliersRemoved | Cs.Extensions/ManipulationExt.cs:236-244 | removing the first `low` and last `high` sorted values leaves the middle of the sorted values, or nothing when the two ends overlap |
| ManipulationExt.RemoveOutliersNothing | Cs.Extensions/ManipulationExt.cs:229-246 | removing no outliers keeps the input, in its order |
| ManipulationExt.ContainsEmpty | Cs.Extensions/ManipulationExt.cs:306 | every string contains the empty string |
| ManipulationExt.RemoveAll | Cs.Extensions/ManipulationExt.cs:264 | `List.RemoveAll` drops every occurrence of the matched values, keeps every occurrence of the others, and keeps their order |
| ManipulationExt.RemoveAllIdempotent | Cs.Extensions/ManipulationExt.cs:264 | a second `RemoveAll` with the same condition removes nothing more |
| ManipulationExt.RemoveEmptyElements | Cs.Extensions/ManipulationExt.cs:259-272 | drops exactly the empty strings and keeps the rest in order |
| ManipulationExt.RemoveElementsEqualTo | Cs.Extensions/ManipulationExt.cs:280-293 | drops exactly the elements equal to `str` and keeps the rest in order |
| ManipulationExt.RemoveElementsContaining | Cs.Extensions/ManipulationExt.cs:301-314 | drops exactly the elements containing `str` and keeps the rest in order |
| ManipulationExt.KeepOnlyElementsContaining | Cs.Extensions/ManipulationExt.cs:322-335 | keeps exactly the elements containing `str`, in order |
| ManipulationExt.RemoveEmptyIsRemoveEqual | Cs.Extensions/ManipulationExt.cs:259-293 | removing the empty elements is removing the elements equal to `""` |
| ManipulationExt.RemoveEqualIdempotent | Cs.Extensions/ManipulationExt.cs:280-293 | removing the elements equal to `str` twice is removing them once |
| ManipulationExt.RemoveEmptyIdempotent | Cs.Extensions/ManipulationExt.cs:259-272 | removing the empty elements twice is removing them once |
| ManipulationExt.ContainingPartition | Cs.Extensions/ManipulationExt.cs:301-335 | the elements removed by `RemoveElementsContaining` are exactly those `KeepOnlyElementsContaining` keeps: together the two results hold every element once |
| ManipulationExt.ContainingEmpty | Cs.Extensions/ManipulationExt.cs:301-335 | with `str` empty, `RemoveElementsContaining` removes everything and `KeepOnlyElementsContaining` keeps everything |
| Findings.MedianOddCounterexample | Cs.Extensions/StatisticsExt.cs:205-209 | the code's median of `[1, 2, 3]` is 1, where the corrected median is 2 |
| Findings.MedianCorrected | Cs.Extensions/StatisticsExt.cs:189-212 | the corrected median succeeds exactly for a valid non-empty range |
| Findings.MedianCorrectedIsMiddle | Cs.Extensions/StatisticsExt.cs:205-209 | for an odd size `2k + 1`, the corrected median is the value of rank `k`, the middle one |
| Findings.MedianCorrectedEven | Cs.Extensions/StatisticsExt.cs:200-204 | for even sizes the corrected median agrees with the code |
| Findings.MedianCorrectedPermutation | Cs.Extensions/StatisticsExt.cs:195-196 | the corrected median depends only on the multiset of its range |
| Findings.MedianCorrectedOfSorted | Cs.Extensions/StatisticsExt.cs:195-209 | on a sorted sample, the corrected median of a slice lies between the slice's first and last values |
| Findings.MedianCorrectedOfSortedRange | Cs.Extensions/StatisticsExt.cs:195-209 | when a range is already sorted, its corrected median lies between the range's first and last values |
| Findings.IQRUnsortedCounterexample | Cs.Extensions/StatisticsExt.cs:84-96 | the code's IQR of `[4, 3, 2, 1]` is -2, where the corrected IQR is 2 |
| Findings.IQRDescendingAsWritten | Cs.Extensions/StatisticsExt.cs:84-88 | the code's IQR of `[4, 3, 2, 1]` is `median([2, 1]) - median([4, 3]) = -2` |
| Findings.IQRDescendingCorrected | Cs.Extensions/StatisticsExt.cs:76-97 | the corrected IQR of `[4, 3, 2, 1]` is `median([3, 4]) - median([1, 2]) = 2` |
| Findings.PairMedian | Cs.Extensions/StatisticsExt.cs:200-204 | both medians of a two-value range, in either order, are its mean |
| Findings.IQROddCounterexample | Cs.Extensions/StatisticsExt.cs:90-95 | the code's IQR of `[1, 2, 3, 4, 5]` throws, where the corrected IQR is 3 |
| Findings.IQRCorrected | Cs.Extensions/StatisticsExt.cs:76-97 | the corrected IQR succeeds exactly for two or more values |
| Findings.QuartileSpread | Cs.Extensions/StatisticsExt.cs:84-96 | the spread of the halves of an ordered sample succeeds exactly for two or more values |
| Findings.IQRCorrectedNonNegative | Cs.Extensions/StatisticsExt.cs:76-97 | the corrected IQR is never negative |
| Findings.IQRCorrectedPermutation | Cs.Extensions/StatisticsExt.cs:76-97 | the corrected IQR depends only on the multiset of the sample |
| Findings.IQRAgreesOnSortedQuads | Cs.Extensions/StatisticsExt.cs:84-88 | on a sorted sample whose size is a multiple of four, the code's IQR equals the corrected one |
| Findings.IQRAgreesOnQuads | Cs.Extensions/StatisticsExt.cs:84-88 | for `4q` values in any order, the code's index arithmetic and the corrected one pick the same two halves, both of even size |
| Findings.IQREvenHalves | Cs.Extensions/StatisticsExt.cs:84-88 | for an even size, the code's IQR is the median of the second half of the sample, in the caller's order, minus that of the first half |
| Findings.QuartileSpreadEven | Cs.Extensions/StatisticsExt.cs:84-88 | for an even size, the corrected spread splits the ordered sample at its middle |

## Left out

- `Cs.Extensions/StreamExt.cs` (`SaveToFile`) is not part of this model. It is file I/O and stream seeking.
- `AppendDateTimeStamp` reads the system clock and calls `Path` helpers, which are not part of this model.
- Both `ConvertTo` overloads are runtime type conversions (`Cast`, `Convert.ChangeType`).
- `StandardDeviation` is not modelled:
  - It is `Math.Sqrt` of `Variance` about `Mean`.
  - The model's only use for it is inside Scott's bandwidth rule. There it cannot throw once `GetRange` has succeeded, so dropping it changes no outcome of `HistogramBins`.
- Floating point is not modelled:
  - Rounding of sums and quotients is not modelled.
  - `Math.Pow(x, 2)` is the exact square.
  - Signed zero is not modelled: `-0.0` is 0.
- Histogram.HistogramBins takes the bandwidth `h` as an input and requires `h > 0`. The code computes `h` with `Math.Pow(n, 1.0/3)` from the IQR or the standard deviation. When that gives 0 or NaN, the code casts `Ceiling(dataRange / h)` to `int`, which is not modelled. An empty range (`start == end`) makes `n` zero and `Math.Pow(n, 1.0/3)` zero, so `h` is `+∞` or NaN (`2 * IQR / 0.0` under Freedman–Diaconis, `3.49 * s / 0.0` under Scott's rule); the code then computes `k = 0`, or casts NaN, and returns no bins, whereas the `h > 0` model does not represent this bandwidth and builds `ceil(range / h)` bins.
- Histogram.HistogramBinsAll requires `h > 0` for the same reason.
- ToStringExt.ToHexString: with the prefix and a negative `length`, .NET reads `X-1` as a custom numeric format. The model returns `Failure` instead of the string that format produces.
- ToStringExt.ToHexString: the outcome for a prefixed `length` above 99 depends on the .NET runtime (older runtimes read such a format string differently, newer ones accept large precisions up to a limit and throw `FormatException` beyond it). The model accepts every `length >= 0`.
- Histogram.HistogramBins does not model the overflow of `(int)Math.Ceiling(dataRange / h)`. A small enough positive `h` makes the quotient exceed `int.MaxValue`; the cast's result is then runtime-dependent (`int.MinValue`, giving no bins, or a saturated `int.MaxValue`), while the model builds the full grid of `k` bins.
- ManipulationExt.ForEach takes `methodToRun` as a total function. An exception it throws, which the code wraps, is not modelled.
- ManipulationExt.Join takes its items as strings. A `null` item, whose `ToString()` throws, is not modelled, and neither is the generic `ToString()` of other item types.
- Strings are sequences of Unicode scalar values, not of UTF-16 code units as in C#. For text with characters outside the Basic Multilingual Plane or with lone surrogates, the lengths seen by `Join` and `PadLeft` and the matches of `Contains` differ from the code's.
- Null inputs are not modelled; only the `null` results of the convenience overloads are. In the code:
  - a `null` list or array throws in every method that takes one (`ToList()`, `foreach` or `Array.Copy`);
  - a `null` element of a non-empty string list throws in the filters' `s.Equals(...)` or `s.Contains(...)`;
  - a `null` `str` throws in `Contains` for every non-empty list in `RemoveElementsContaining` and `KeepOnlyElementsContaining`;
  - `RemoveElementsEqualTo(values, null)` does not throw: `s.Equals(null)` is false, so the list comes back unchanged.
- The exception classes and their messages are not modelled. Every thrown or wrapped exception is one `Failure`.
- Array and list size limits are not modelled. Neither is `OutOfMemoryException`.

## Findings

| source | as written | input that shows it | evidently intended | confidence | as-written member | corrected member |
|---|---|---|---|---|---|---|
| Cs.Extensions/StatisticsExt.cs:207-208 | for an odd size the index is `Math.Round((double)(size / 2)) - 1`; the integer division truncates before rounding, so this is `size/2 - 1`, one below the middle, and a single value reads index -1 | `Median([1, 2, 3], 0, 3)` gives 1 | the middle value, index `size / 2` (2 here), with a single value as its own median | high (not executed) | Findings.MedianOddCounterexample | Findings.MedianCorrected |
| Cs.Extensions/StatisticsExt.cs:84-88 | the quartiles are medians of the halves of `values` in the caller's order; the sorted copy is used only for its size | `IQR([4, 3, 2, 1])` gives -2 | medians of the halves of the sorted sample, giving 2 here and never a negative value | high (not executed) | Findings.IQRUnsortedCounterexample | Findings.IQRCorrected |
| Cs.Extensions/StatisticsExt.cs:92-94 | for an odd size `Math.Ceiling((double)(size / 2))` truncates first, so `midIndex` is `floor(n/2)`; the lower half ends at `midIndex - 1`, dropping two values instead of the middle one | `IQR([1, 2, 3, 4, 5])` throws, because the lower half `[1]` has one value | halves `[0, n/2)` and `[n/2 + 1, n)` around the middle value, giving 3 here | high (not executed) | Findings.IQROddCounterexample | Findings.IQRCorrected |
