/** `OrderBy(num => num)` on doubles, and the rank vocabulary used to state
    what a median or a quartile is without mentioning a sorting algorithm.

    `Sort` is an insertion sort; since a sorted permutation of a multiset is
    unique (`SortedUnique`), every correct sort, `OrderBy` included, returns
    the same sequence, so the choice of algorithm is not observable. */
module Sorting {
  import opened Sequences

  predicate Sorted(s: seq<real>)
  {
    forall i, j :: 0 <= i < j < |s| ==> s[i] <= s[j]
  }

  function Insert(x: real, s: seq<real>): (r: seq<real>)
    requires Sorted(s)
    ensures Sorted(r)
    ensures multiset(r) == multiset(s) + multiset{x}
    ensures |r| == |s| + 1
    ensures forall i :: 0 <= i < |r| ==> r[i] == x || r[i] in s
  {
    if |s| == 0 then [x]
    else if x <= s[0] then
      SortedCons(x, s);
      [x] + s
    else
      var tail := Insert(x, s[1..]);
      assert s == [s[0]] + s[1..];
      assert forall i :: 0 <= i < |tail| ==> s[0] <= tail[i];
      SortedCons(s[0], tail);
      [s[0]] + tail
  }

  lemma SortedCons(h: real, t: seq<real>)
    requires Sorted(t)
    requires forall i :: 0 <= i < |t| ==> h <= t[i]
    ensures Sorted([h] + t)
  {
  }

  /** The ascending arrangement of `s`. */
  function Sort(s: seq<real>): (r: seq<real>)
    ensures Sorted(r)
    ensures multiset(r) == multiset(s)
    ensures |r| == |s|
  {
    if |s| == 0 then []
    else
      assert s == [s[0]] + s[1..];
      Insert(s[0], Sort(s[1..]))
  }

  /** Two sorted sequences with the same elements are equal. */
  lemma {:induction false} SortedUnique(a: seq<real>, b: seq<real>)
    requires Sorted(a) && Sorted(b)
    requires multiset(a) == multiset(b)
    ensures a == b
  {
    assert |a| == |multiset(a)| == |multiset(b)| == |b|;
    if |a| > 0 {
      SortedHeadsAgree(a, b);
      SortedUnique(a[1..], b[1..]);
      assert a == [a[0]] + a[1..];
      assert b == [b[0]] + b[1..];
    }
  }

  /** Two non-empty sorted sequences with the same elements start alike and
      continue with sorted tails holding the same elements. */
  lemma SortedHeadsAgree(a: seq<real>, b: seq<real>)
    requires Sorted(a) && Sorted(b) && |a| > 0 && |b| > 0
    requires multiset(a) == multiset(b)
    ensures a[0] == b[0]
    ensures Sorted(a[1..]) && Sorted(b[1..])
    ensures multiset(a[1..]) == multiset(b[1..])
  {
    SortedHeadIsLeast(a, b[0]);
    SortedHeadIsLeast(b, a[0]);
    MultisetTail(a);
    MultisetTail(b);
  }

  lemma SortedHeadIsLeast(s: seq<real>, x: real)
    requires Sorted(s) && x in multiset(s)
    ensures s[0] <= x
  {
    assert x in s;
  }

  lemma MultisetTail<T>(s: seq<T>)
    requires |s| > 0
    ensures multiset(s[1..]) == multiset(s) - multiset{s[0]}
  {
    assert s == [s[0]] + s[1..];
  }

  /** Sorting depends only on the multiset of the input: a permutation of the
      input, the input re-sorted, or an already sorted input all sort to the
      same sequence. */
  lemma SortPermutation(a: seq<real>, b: seq<real>)
    requires multiset(a) == multiset(b)
    ensures Sort(a) == Sort(b)
  {
    SortedUnique(Sort(a), Sort(b));
  }

  lemma SortOfSorted(s: seq<real>)
    requires Sorted(s)
    ensures Sort(s) == s
  {
    SortedUnique(Sort(s), s);
  }

  lemma SortIdempotent(s: seq<real>)
    ensures Sort(Sort(s)) == Sort(s)
  {
    SortOfSorted(Sort(s));
  }

  lemma SortedSlice(s: seq<real>, start: int, end: int)
    requires Sorted(s) && 0 <= start <= end <= |s|
    ensures Sorted(s[start..end])
  {
  }

  /* ---------------- ranks ---------------- */

  function Below(x: real): real -> bool
  {
    v => v < x
  }

  function AtMost(x: real): real -> bool
  {
    v => v <= x
  }

  /** Number of elements strictly below `x`. */
  function CountBelow(s: seq<real>, x: real): nat
  {
    Count(s, Below(x))
  }

  /** Number of elements at most `x`. */
  function CountAtMost(s: seq<real>, x: real): nat
  {
    Count(s, AtMost(x))
  }

  /** `x` is the element of 0-based rank `k` in ascending order: at most `k`
      elements lie strictly below it and more than `k` lie at or below it. */
  predicate IsRank(s: seq<real>, x: real, k: int)
  {
    x in s && CountBelow(s, x) <= k < CountAtMost(s, x)
  }

  /** Position `k` of a sorted sequence holds its element of rank `k`. */
  lemma SortedRank(t: seq<real>, k: nat)
    requires Sorted(t) && k < |t|
    ensures IsRank(t, t[k], k)
  {
    var x := t[k];
    assert t == t[..k] + t[k..];
    FilterAppend(t[..k], t[k..], Below(x));
    FilterKeepsNone(t[k..], Below(x));
    assert t == t[..k + 1] + t[k + 1..];
    FilterAppend(t[..k + 1], t[k + 1..], AtMost(x));
    FilterKeepsAll(t[..k + 1], AtMost(x));
  }

  /** Rank is a property of the multiset: a permutation has the same ranks. */
  lemma RankPermutation(a: seq<real>, b: seq<real>, x: real, k: int)
    requires multiset(a) == multiset(b)
    ensures IsRank(a, x, k) <==> IsRank(b, x, k)
  {
    FilterPermutation(a, b, Below(x));
    FilterPermutation(a, b, AtMost(x));
    assert x in a <==> x in multiset(a);
    assert x in b <==> x in multiset(b);
  }

  /** Each rank is held by exactly one value. */
  lemma RankUnique(s: seq<real>, x: real, y: real, k: int)
    requires IsRank(s, x, k) && IsRank(s, y, k)
    ensures x == y
  {
    if x < y {
      CountMonotonic(s, AtMost(x), Below(y));
    } else if y < x {
      CountMonotonic(s, AtMost(y), Below(x));
    }
  }

  /** The element of rank `k` of any sequence is position `k` of its sorted
      arrangement. */
  lemma RankIsSortedPosition(s: seq<real>, x: real, k: nat)
    requires k < |s| && IsRank(s, x, k)
    ensures Sort(s)[k] == x
  {
    SortedRank(Sort(s), k);
    RankPermutation(Sort(s), s, Sort(s)[k], k);
    RankUnique(s, x, Sort(s)[k], k);
  }
}
