/** `ManipulationExt`: bit slicing of a byte, elements and string helpers, and
    list filters.

    Every method body in the C# class runs inside `try { ... } catch` that
    rethrows any exception as `ManipulationExtensionException`; here every
    such path is `Failure`. A method that cannot throw on non-null input
    returns its value directly. */
module ManipulationExt {
  import opened Wrappers
  import opened Digits
  import opened Sequences
  import opened Sorting
  import ToStringExt

  /* ---------------- binary methods ---------------- */

  /** The shift count C# uses for `x << s` or `x >> s` on an `int`: the low
      five bits of `s`. On the two's complement value of `s` that is
      `s mod 32`, also when `s` came from a wrapped-around subtraction. */
  function ShiftCount(s: int): (c: nat)
    ensures c < 32
    ensures 0 <= s < 32 ==> c == s
  {
    s % 32
  }

  /** `value.ToBinaryString(false).Length`, the `L` both bit readers test
      `n` against: the number of binary digits, 1 to 8 for a byte. */
  function BinaryLength(value: byte): (length: nat)
    ensures 1 <= length <= 8
  {
    ToStringExt.BitLengthIsLeast(value);
    ToStringExt.BitLength(value)
  }

  /** The binary rendering of `value` without padding or prefix. */
  function Binary(value: byte): (s: string)
    ensures |s| == BinaryLength(value) && AllDigits(s, 2)
  {
    ToBase(value, 2)
  }

  /** `Binary` and `BinaryLength` are what `ToBinaryString(false)` renders. */
  lemma BinaryIsRendering(value: byte)
    ensures ToStringExt.ToBinaryString(value, false).Success?
    ensures Binary(value) == ToStringExt.ToBinaryString(value, false).value
    ensures BinaryLength(value) == |ToStringExt.ToBinaryString(value, false).value|
  {
    assert "" + ToBase(value, 2) == ToBase(value, 2);
  }

  /** `value >> s` for a non-negative `value`: division by `2^s`. */
  function ShiftRight(value: byte, s: nat): (r: byte)
    ensures r <= value
  {
    DivAtMost(value, Pow(2, s));
    value / Pow(2, s)
  }

  lemma DivAtMost(a: nat, d: nat)
    requires d > 0
    ensures a / d <= a
  {
    DivMod(a, d);
    MulMono(1, d, a / d);
  }

  /** `value.ReadFirstNBits(n)`: `value >> (L - n)` after refusing `n > L`. */
  function ReadFirstNBits(value: byte, n: int32): (r: Result<byte>)
    ensures r.Failure? <==> n > BinaryLength(value)
    ensures r.Success? && n >= 0 ==> r.value < Pow(2, n)
    ensures r.Success? && n >= 0 ==> r.value == Parse(Binary(value)[..n], 2)
    ensures r.Success? && n == BinaryLength(value) ==> r.value == value
    ensures r.Success? && n < 0 ==> r.value == value / Pow(2, (BinaryLength(value) - n) % 32)
  {
    var length := BinaryLength(value);
    if n > length then Failure
    else
      var shifted := ShiftRight(value, ShiftCount(length - n));
      if n >= 0 then
        LeadingBits(value, n, length);
        Success(shifted)
      else
        Success(shifted)
  }

  /** The leading `n` binary digits of `value` are `value / 2^(L - n)`. */
  lemma LeadingBits(value: byte, n: nat, length: nat)
    requires length == BinaryLength(value) && n <= length
    ensures ShiftRight(value, ShiftCount(length - n)) == Parse(Binary(value)[..n], 2)
    ensures Parse(Binary(value)[..n], 2) < Pow(2, n)
    ensures n == length ==> Parse(Binary(value)[..n], 2) == value
  {
    var s := Binary(value);
    ParseToBase(value, 2);
    ShiftIsLeadingDigits(value, n, length);
    ParseBound(s[..n], 2);
    if n == length {
      assert s[..n] == s;
    }
  }

  lemma ShiftIsLeadingDigits(value: byte, n: nat, length: nat)
    requires length == BinaryLength(value) && n <= length
    requires Parse(Binary(value), 2) == value
    ensures ShiftRight(value, ShiftCount(length - n)) == Parse(Binary(value)[..n], 2)
  {
    assert ShiftCount(length - n) == length - n;
    DigitsDivMod(Binary(value), n, 2);
  }

  /** For `1 <= n <= L` the result's own binary rendering is the first `n`
      characters of the value's. */
  lemma ReadFirstNBitsPrefix(value: byte, n: int32)
    requires 1 <= n <= BinaryLength(value)
    ensures ToStringExt.ToBinaryString(ReadFirstNBits(value, n).value, false).value
         == ToStringExt.ToBinaryString(value, false).value[..n]
  {
    var s := Binary(value);
    ToBaseLeading(value, 2);
    ToBaseOfParse(s[..n], 2);
    BinaryIsRendering(value);
    BinaryIsRendering(ReadFirstNBits(value, n).value);
  }

  /** A negative `n` passes the guard and shifts by `(L - n) mod 32`; in
      particular `n = L - 32` shifts by nothing. */
  lemma ReadFirstNBitsWrapsAround(value: byte)
    ensures ReadFirstNBits(value, (BinaryLength(value) - 32) as int32).Success?
    ensures ReadFirstNBits(value, (BinaryLength(value) - 32) as int32).value == value
  {
    var length: int := BinaryLength(value);
    assert ShiftCount(length - (length - 32)) == 0;
    assert ShiftRight(value, 0) == value by {
      assert Pow(2, 0) == 1;
    }
  }

  /** `(byte)((1 << n) - 1)`. For a shift count of 31, `1 << 31` is
      `int.MinValue` and subtracting one wraps to `int.MaxValue`, the same as
      the unbounded `2^31 - 1`; the cast keeps the low eight bits. */
  function Mask(n: int): (m: byte)
    ensures m == Pow(2, if ShiftCount(n) < 8 then ShiftCount(n) else 8) - 1
  {
    MaskBits(ShiftCount(n));
    (Pow(2, ShiftCount(n)) - 1) % 256
  }

  lemma MaskBits(s: nat)
    ensures (Pow(2, s) - 1) % 256 == Pow(2, if s < 8 then s else 8) - 1
  {
    if s < 8 {
      PowTwoMono(s, 8);
      assert Pow(2, 8) == 256;
    } else {
      PowTwoAboveByte(s);
      assert Pow(2, 8) == 256;
      DivModUnique(Pow(2, s) - 1, 256, Pow(2, s - 8) - 1, 255);
    }
  }

  /** `value.ReadLastNBits(n)`: `value & mask` after refusing `n > L`. */
  function ReadLastNBits(value: byte, n: int32): (r: Result<byte>)
    ensures r.Failure? <==> n > BinaryLength(value)
    ensures r.Success? && n >= 0 ==> r.value == value % Pow(2, n)
    ensures r.Success? && n < 0
            ==> r.value == value % Pow(2, if ShiftCount(n) < 8 then ShiftCount(n) else 8)
  {
    var length := BinaryLength(value);
    if n > length then Failure
    else
      MaskedBits(value, n, length, if ShiftCount(n) < 8 then ShiftCount(n) else 8);
      Success(BitAnd(value, Mask(n)))
  }

  /** What `value & mask` keeps: the low `min(n mod 32, 8)` bits, which for
      `0 <= n <= L` are the last `n` binary digits. */
  lemma MaskedBits(value: byte, n: int32, length: nat, kept: nat)
    requires length == BinaryLength(value) && n <= length
    requires kept == if ShiftCount(n) < 8 then ShiftCount(n) else 8
    ensures BitAnd(value, Mask(n)) == value % Pow(2, kept)
    ensures n >= 0 ==> kept == n
  {
    BitAndLowMask(value, kept);
  }

  /** For `0 <= n <= L` the result is the number written by the last `n`
      binary digits of the value. */
  lemma ReadLastNBitsSuffix(value: byte, n: int32)
    requires 0 <= n <= BinaryLength(value)
    ensures ReadLastNBits(value, n).value == Parse(Binary(value)[BinaryLength(value) - n..], 2)
  {
    TrailingBits(value, n, BinaryLength(value));
  }

  /** The trailing `n` binary digits of `value` are `value mod 2^n`. */
  lemma TrailingBits(value: byte, n: nat, length: nat)
    requires length == BinaryLength(value) && n <= length
    ensures ShiftCount(n) == n
    ensures Parse(Binary(value)[length - n..], 2) == value % Pow(2, n)
  {
    var s := Binary(value);
    DigitsDivMod(s, length - n, 2);
    ParseToBase(value, 2);
  }

  /** Reading no bits gives 0 from either end. */
  lemma ReadNothing(value: byte)
    ensures ReadFirstNBits(value, 0) == Success(0)
    ensures ReadLastNBits(value, 0) == Success(0)
  {
    assert Pow(2, 0) == 1;
  }

  /** Reading the last `L` bits gives the value back. */
  lemma ReadAll(value: byte)
    ensures ReadLastNBits(value, BinaryLength(value) as int32) == Success(value)
  {
    ToStringExt.BitLengthIsLeast(value);
    DivModUnique(value, Pow(2, BinaryLength(value)), 0, value);
  }

  /** The leading and trailing readings split the byte: the first `L - n`
      bits shifted up by `n` plus the last `n` bits are the value. */
  lemma ReadSplitsByte(value: byte, n: int32)
    requires 0 <= n <= BinaryLength(value)
    ensures ReadFirstNBits(value, (BinaryLength(value) - n) as int32).value * Pow(2, n)
            + ReadLastNBits(value, n).value == value
  {
    var length := BinaryLength(value);
    LeadingBits(value, length - n, length);
    assert ReadFirstNBits(value, (length - n) as int32).value == value / Pow(2, n);
    DivMod(value, Pow(2, n));
  }

  /* ---------------- arrays ---------------- */

  /** `array.ForEach(methodToRun)`: `methodToRun` applied to each element in
      order. */
  function ForEach<TIn, TOut>(elements: seq<TIn>, methodToRun: TIn -> TOut): (r: seq<TOut>)
    ensures |r| == |elements|
    ensures forall i :: 0 <= i < |elements| ==> r[i] == methodToRun(elements[i])
  {
    if |elements| == 0 then []
    else [methodToRun(elements[0])] + ForEach(elements[1..], methodToRun)
  }

  /** Mapping twice is mapping by the composition, and mapping distributes
      over concatenation. */
  lemma ForEachCompose<A, B, C>(elements: seq<A>, f: A -> B, g: B -> C)
    ensures ForEach(ForEach(elements, f), g) == ForEach(elements, (x: A) => g(f(x)))
  {
  }

  lemma ForEachAppend<A, B>(a: seq<A>, b: seq<A>, f: A -> B)
    ensures ForEach(a + b, f) == ForEach(a, f) + ForEach(b, f)
  {
  }

  /** `array.SubArray(index, length)`: `new T[length]` throws for a negative
      length and `Array.Copy` for a negative index or a range past the end. */
  function SubArray<T>(elements: seq<T>, index: int32, length: int32): (r: Result<seq<T>>)
    ensures r.Failure? <==> index < 0 || length < 0 || index + length > |elements|
    ensures r.Success? ==> |r.value| == length
    ensures r.Success? ==> forall j :: 0 <= j < length ==> r.value[j] == elements[index + j]
  {
    if index < 0 || length < 0 || index + length > |elements| then Failure
    else Success(elements[index..index + length])
  }

  /** Two adjacent sub-arrays concatenate to the sub-array spanning both, and
      the sub-array of everything is the whole array. */
  lemma SubArrayAdjacent<T>(elements: seq<T>, index: int32, m: int32, n: int32)
    requires SubArray(elements, index, m).Success? && m + n < 0x8000_0000 && index + m < 0x8000_0000
    requires SubArray(elements, (index + m) as int32, n).Success?
    ensures SubArray(elements, index, (m + n) as int32).Success?
    ensures SubArray(elements, index, m).value + SubArray(elements, (index + m) as int32, n).value
         == SubArray(elements, index, (m + n) as int32).value
  {
  }

  lemma SubArrayWhole<T>(elements: seq<T>)
    requires |elements| < 0x8000_0000
    ensures SubArray(elements, 0, |elements| as int32) == Success(elements)
  {
    assert elements[0..|elements|] == elements;
  }

  /* ---------------- strings ---------------- */

  /** What the loop of `Join` accumulates: every item followed by
      `joinChar`. */
  function Terminated(items: seq<string>, joinChar: char): (s: string)
    ensures |s| == TotalLength(items) + |items|
  {
    if |items| == 0 then ""
    else items[0] + [joinChar] + Terminated(items[1..], joinChar)
  }

  function TotalLength(items: seq<string>): nat
  {
    if |items| == 0 then 0 else |items[0]| + TotalLength(items[1..])
  }

  /** `elements.Join(joinChar)`: the accumulated string without its last
      character; on no items that is `Substring(0, -1)`, which throws. */
  function Join(items: seq<string>, joinChar: char): (r: Result<string>)
    ensures r.Failure? <==> |items| == 0
    ensures r.Success? ==> |r.value| == TotalLength(items) + |items| - 1
    ensures |items| == 1 ==> r == Success(items[0])
  {
    var str := Terminated(items, joinChar);
    assert |items| == 1 ==> str == items[0] + [joinChar];
    if |str| == 0 then Failure else Success(str[..|str| - 1])
  }

  /** Splits `s` at every occurrence of `sep`; the partner of `Join`. */
  function Split(s: string, sep: char): (parts: seq<string>)
    ensures |parts| >= 1
    decreases |s|
  {
    if sep !in s then [s]
    else
      var i := FirstIndex(s, sep);
      [s[..i]] + Split(s[i + 1..], sep)
  }

  /** When no item contains the separator, splitting the joined string gives
      the items back: the items are separated by exactly one `joinChar` and
      nothing trails. */
  lemma {:induction false} SplitJoin(items: seq<string>, joinChar: char)
    requires |items| > 0
    requires forall i :: 0 <= i < |items| ==> joinChar !in items[i]
    ensures Split(Join(items, joinChar).value, joinChar) == items
  {
    if |items| == 1 {
      assert Join(items, joinChar).value == items[0];
    } else {
      SplitJoin(items[1..], joinChar);
      JoinCons(items, joinChar);
      SplitCons(items[0], Join(items[1..], joinChar).value, joinChar);
      assert items == [items[0]] + items[1..];
    }
  }

  /** Splitting `head + [sep] + tail` when `head` has no separator yields
      `head` followed by the parts of `tail`. */
  lemma SplitCons(head: string, tail: string, sep: char)
    requires sep !in head
    ensures Split(head + [sep] + tail, sep) == [head] + Split(tail, sep)
  {
    var s := head + [sep] + tail;
    SeparatorAfter(head, tail, sep);
    assert s[..|head|] == head;
    assert s[|head| + 1..] == tail;
  }

  /** Joining two or more items is the first, the separator, and the join of
      the rest. */
  lemma JoinCons(items: seq<string>, joinChar: char)
    requires |items| > 1
    ensures Join(items, joinChar).value
         == items[0] + [joinChar] + Join(items[1..], joinChar).value
  {
    var t := Terminated(items[1..], joinChar);
    assert Terminated(items, joinChar) == items[0] + [joinChar] + t;
    assert |t| > 0;
  }

  /** The first separator in `head + [sep] + tail` is just after `head` when
      `head` has none. */
  lemma SeparatorAfter(head: string, tail: string, sep: char)
    requires sep !in head
    ensures FirstIndex(head + [sep] + tail, sep) == |head|
  {
    var s := head + [sep] + tail;
    var i := FirstIndex(s, sep);
    assert s[|head|] == sep;
    assert forall j :: 0 <= j < |head| ==> s[j] == head[j];
  }

  /* ---------------- enumerables ---------------- */

  function Reverse<T>(s: seq<T>): (r: seq<T>)
    ensures |r| == |s|
    ensures forall i :: 0 <= i < |s| ==> r[i] == s[|s| - 1 - i]
    ensures multiset(r) == multiset(s)
  {
    if |s| == 0 then []
    else
      assert s == s[..|s| - 1] + [s[|s| - 1]];
      [s[|s| - 1]] + Reverse(s[..|s| - 1])
  }

  function NonNegative(x: int): nat
  {
    if x < 0 then 0 else x
  }

  /** `values.RemoveOutliers(lowest, highest)`: removes, by value and first
      occurrence, `orderedList[i]` for `i < lowest` and then
      `orderedList[Count - 1 - i]` for `i < highest`. An index past either end
      of the ordered list throws, which happens exactly when `lowest` or
      `highest` exceeds the count; a negative count removes nothing. */
  function RemoveOutliers(values: seq<real>, lowest: int32, highest: int32): (r: Result<seq<real>>)
    ensures r.Failure? <==> lowest > |values| || highest > |values|
    ensures r.Success? ==> IsSubsequence(r.value, values)
    ensures r.Success? && NonNegative(lowest) + NonNegative(highest) <= |values|
            ==> multiset(r.value)
                == multiset(Sort(values)[NonNegative(lowest)..|values| - NonNegative(highest)])
    ensures r.Success? && NonNegative(lowest) + NonNegative(highest) <= |values|
            ==> |r.value| == |values| - NonNegative(lowest) - NonNegative(highest)
    ensures r.Success? && NonNegative(lowest) + NonNegative(highest) > |values| ==> r.value == []
    ensures r.Success? && NonNegative(lowest) + NonNegative(highest) <= |values|
            ==> r.value == KeepLast(values,
                  multiset(Sort(values)[NonNegative(lowest)..|values| - NonNegative(highest)]))
  {
    if lowest > |values| || highest > |values| then Failure
    else Success(Trim(values, NonNegative(lowest), NonNegative(highest)))
  }

  /** The two removal loops of `RemoveOutliers` for counts it accepts. */
  function Trim(values: seq<real>, low: nat, high: nat): (rest: seq<real>)
    requires low <= |values| && high <= |values|
    ensures IsSubsequence(rest, values)
    ensures low + high <= |values| ==> multiset(rest) == multiset(Sort(values)[low..|values| - high])
    ensures low + high <= |values| ==> |rest| == |values| - low - high
    ensures low + high > |values| ==> rest == []
    ensures low + high <= |values| ==> rest == KeepLast(values, multiset(Sort(values)[low..|values| - high]))
  {
    var ordered := Sort(values);
    var smallest := ordered[..low];
    var largest := Reverse(ordered[|ordered| - high..]);
    var once := RemoveEach(values, smallest);
    var rest := RemoveEach(once, largest);
    RemoveEachIsSubsequence(values, smallest);
    RemoveEachIsSubsequence(once, largest);
    SubsequenceTransitive(rest, once, values);
    OutliersRemoved(values, ordered, low, high, rest);
    RemoveEachAppend(values, smallest, largest);
    rest
  }

  /** What is left after removing the `low` first and `high` last elements of
      the sorted arrangement: its middle, or nothing when they overlap. */
  lemma OutliersRemoved(values: seq<real>, ordered: seq<real>, low: nat, high: nat, rest: seq<real>)
    requires |ordered| == |values| && multiset(ordered) == multiset(values)
    requires low <= |values| && high <= |values|
    requires multiset(rest)
             == multiset(values) - multiset(ordered[..low]) - multiset(Reverse(ordered[|ordered| - high..]))
    ensures low + high <= |values| ==> multiset(rest) == multiset(ordered[low..|values| - high])
    ensures low + high <= |values| ==> |rest| == |values| - low - high
    ensures low + high > |values| ==> rest == []
  {
    if low + high <= |values| {
      OutliersMiddle(multiset(values), ordered, low, high, rest);
    } else {
      OutliersOverlap(multiset(values), ordered, low, high, rest);
    }
  }

  lemma OutliersMiddle(all: multiset<real>, ordered: seq<real>, low: nat, high: nat, rest: seq<real>)
    requires multiset(ordered) == all && low + high <= |ordered|
    requires multiset(rest) == all - multiset(ordered[..low]) - multiset(ordered[|ordered| - high..])
    ensures multiset(rest) == multiset(ordered[low..|ordered| - high])
    ensures |rest| == |ordered| - low - high
  {
    var n := |ordered|;
    ThreeParts(ordered, low, n - high);
    RemoveEnds(all, multiset(ordered[..low]), multiset(ordered[low..n - high]), multiset(ordered[n - high..]));
    assert |multiset(rest)| == |multiset(ordered[low..n - high])|;
  }

  lemma OutliersOverlap(all: multiset<real>, ordered: seq<real>, low: nat, high: nat, rest: seq<real>)
    requires multiset(ordered) == all && low <= |ordered| && high <= |ordered| < low + high
    requires multiset(rest) == all - multiset(ordered[..low]) - multiset(ordered[|ordered| - high..])
    ensures rest == []
  {
    var n := |ordered|;
    ThreeParts(ordered, n - high, low);
    RemoveCover(all, multiset(ordered[..low]), multiset(ordered[n - high..]));
    assert |multiset(rest)| == 0;
  }

  /** The multiset of a sequence cut in three places. */
  lemma ThreeParts<T>(s: seq<T>, i: nat, j: nat)
    requires i <= j <= |s|
    ensures multiset(s) == multiset(s[..i]) + multiset(s[i..j]) + multiset(s[j..])
    ensures multiset(s[..j]) == multiset(s[..i]) + multiset(s[i..j])
    ensures multiset(s[i..]) == multiset(s[i..j]) + multiset(s[j..])
  {
    assert s == s[..i] + s[i..j] + s[j..];
    assert s[..j] == s[..i] + s[i..j];
    assert s[i..] == s[i..j] + s[j..];
  }

  lemma RemoveEnds<T>(all: multiset<T>, a: multiset<T>, b: multiset<T>, c: multiset<T>)
    requires all == a + b + c
    ensures all - a - c == b
  {
  }

  lemma RemoveCover<T>(all: multiset<T>, a: multiset<T>, c: multiset<T>)
    requires all <= a + c
    ensures all - a - c == multiset{}
  {
  }

  /** Removing no outliers keeps the input, in its order. */
  lemma RemoveOutliersNothing(values: seq<real>)
    ensures RemoveOutliers(values, 0, 0) == Success(values)
  {
  }

  /** Removing the lowest value of `[1, 5, 1]` deletes its first copy: the
      survivors keep the later 1, behind the 5. */
  lemma RemoveOutliersKeepsLastCopy(values: seq<real>)
    requires values == [1.0, 5.0, 1.0]
    ensures RemoveOutliers(values, 1, 0) == Success([5.0, 1.0])
  {
    ExampleMiddle(values);
    ExampleKeepLast(values);
  }

  lemma ExampleMiddle(values: seq<real>)
    requires values == [1.0, 5.0, 1.0]
    ensures multiset(Sort(values)[1..3]) == multiset{1.0, 5.0}
  {
    ExampleSorted(values, [1.0, 1.0, 5.0]);
    assert Sort(values)[1..3] == [1.0, 5.0];
  }

  lemma ExampleSorted(values: seq<real>, ordered: seq<real>)
    requires values == [1.0, 5.0, 1.0] && ordered == [1.0, 1.0, 5.0]
    ensures Sort(values) == ordered
  {
    assert multiset(ordered) == multiset(values);
    SortedUnique(Sort(values), ordered);
  }

  lemma ExampleKeepLast(values: seq<real>)
    requires values == [1.0, 5.0, 1.0]
    ensures KeepLast(values, multiset{1.0, 5.0}) == [5.0, 1.0]
  {
    var m := multiset{1.0, 5.0};
    var tail := values[1..];
    assert tail == [5.0, 1.0] && tail[1..] == [1.0] && tail[1..][1..] == [];
    assert KeepLast(tail[1..], m) == [1.0];
    assert KeepLast(tail, m) == [5.0, 1.0];
  }

  /* ---------------- string filters ---------------- */

  /** Ordinal `String.Contains`: `sub` occurs in `s` at some position. */
  predicate Contains(s: string, sub: string)
  {
    exists i :: 0 <= i <= |s| && sub <= s[i..]
  }

  lemma ContainsEmpty(s: string)
    ensures Contains(s, "")
  {
    assert "" <= s[0..];
  }

  /** `list.RemoveAll(match)`: the elements not matched, in order. */
  function RemoveAll(values: seq<string>, matches: string -> bool): (r: seq<string>)
    ensures forall x :: multiset(r)[x] == if matches(x) then 0 else multiset(values)[x]
    ensures IsSubsequence(r, values)
  {
    FilterMultiset(values, Unmatched(matches));
    FilterIsSubsequence(values, Unmatched(matches));
    Filter(values, Unmatched(matches))
  }

  function Unmatched(matches: string -> bool): string -> bool
  {
    x => !matches(x)
  }

  function EqualTo(str: string): string -> bool
  {
    s => s == str
  }

  function Containing(str: string): string -> bool
  {
    s => Contains(s, str)
  }

  function NotContaining(str: string): string -> bool
  {
    s => !Contains(s, str)
  }

  /** `list.RemoveAll` is idempotent. */
  lemma RemoveAllIdempotent(values: seq<string>, matches: string -> bool)
    ensures RemoveAll(RemoveAll(values, matches), matches) == RemoveAll(values, matches)
  {
    FilterIdempotent(values, Unmatched(matches));
  }

  /** `values.RemoveEmptyElements()`. */
  function RemoveEmptyElements(values: seq<string>): (r: seq<string>)
    ensures forall x :: multiset(r)[x] == if x == "" then 0 else multiset(values)[x]
    ensures IsSubsequence(r, values)
  {
    RemoveAll(values, EqualTo(""))
  }

  /** `values.RemoveElementsEqualTo(str)`. */
  function RemoveElementsEqualTo(values: seq<string>, str: string): (r: seq<string>)
    ensures forall x :: multiset(r)[x] == if x == str then 0 else multiset(values)[x]
    ensures IsSubsequence(r, values)
  {
    RemoveAll(values, EqualTo(str))
  }

  /** `values.RemoveElementsContaining(str)`. */
  function RemoveElementsContaining(values: seq<string>, str: string): (r: seq<string>)
    ensures forall x :: multiset(r)[x] == if Contains(x, str) then 0 else multiset(values)[x]
    ensures IsSubsequence(r, values)
  {
    RemoveAll(values, Containing(str))
  }

  /** `values.KeepOnlyElementsContaining(str)`. */
  function KeepOnlyElementsContaining(values: seq<string>, str: string): (r: seq<string>)
    ensures forall x :: multiset(r)[x] == if Contains(x, str) then multiset(values)[x] else 0
    ensures IsSubsequence(r, values)
  {
    RemoveAll(values, NotContaining(str))
  }

  /** Removing the empty strings is removing the elements equal to `""`, and
      both filters are idempotent. */
  lemma RemoveEmptyIsRemoveEqual(values: seq<string>)
    ensures RemoveEmptyElements(values) == RemoveElementsEqualTo(values, "")
  {
  }

  lemma RemoveEqualIdempotent(values: seq<string>, str: string)
    ensures RemoveElementsEqualTo(RemoveElementsEqualTo(values, str), str)
         == RemoveElementsEqualTo(values, str)
  {
    RemoveAllIdempotent(values, EqualTo(str));
  }

  lemma RemoveEmptyIdempotent(values: seq<string>)
    ensures RemoveEmptyElements(RemoveEmptyElements(values)) == RemoveEmptyElements(values)
  {
    RemoveAllIdempotent(values, EqualTo(""));
  }

  /** Removing and keeping the elements that contain `str` split the input
      between them. */
  lemma ContainingPartition(values: seq<string>, str: string)
    ensures multiset(RemoveElementsContaining(values, str))
            + multiset(KeepOnlyElementsContaining(values, str)) == multiset(values)
    ensures |RemoveElementsContaining(values, str)|
            + |KeepOnlyElementsContaining(values, str)| == |values|
  {
    FilterComplement(values, Unmatched(Containing(str)), Unmatched(NotContaining(str)));
  }

  /** Every string contains `""`: removing those containing it removes
      everything, keeping them keeps everything. */
  lemma ContainingEmpty(values: seq<string>)
    ensures RemoveElementsContaining(values, "") == []
    ensures KeepOnlyElementsContaining(values, "") == values
  {
    forall i | 0 <= i < |values| {
      ContainsEmpty(values[i]);
    }
    FilterKeepsNone(values, Unmatched(Containing("")));
    FilterKeepsAll(values, Unmatched(NotContaining("")));
  }
}
