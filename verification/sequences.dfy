/** Sequence vocabulary shared by the models of the LINQ and `List<T>` calls
    the extension methods make: sums and extrema of a range of doubles,
    `Where`/`RemoveAll`/`Count(predicate)` as `Filter`, `List.Remove` as
    `RemoveFirst`, `GroupBy` key order as `Distinct`, and the subsequence
    relation that states "survivors keep their relative order". */
module Sequences {

  /* ---------------- sums and extrema ---------------- */

  /** Sum of the elements, accumulated from the front as the C# loops do. */
  function Sum(s: seq<real>): real
  {
    if |s| == 0 then 0.0 else s[0] + Sum(s[1..])
  }

  /** `Enumerable.Min` of a non-empty sequence. */
  function SeqMin(s: seq<real>): (m: real)
    requires |s| > 0
    ensures m in s
    ensures forall i :: 0 <= i < |s| ==> m <= s[i]
  {
    if |s| == 1 then s[0]
    else
      var rest := SeqMin(s[1..]);
      if s[0] <= rest then s[0] else rest
  }

  /** `Enumerable.Max` of a non-empty sequence. */
  function SeqMax(s: seq<real>): (m: real)
    requires |s| > 0
    ensures m in s
    ensures forall i :: 0 <= i < |s| ==> s[i] <= m
  {
    if |s| == 1 then s[0]
    else
      var rest := SeqMax(s[1..]);
      if s[0] >= rest then s[0] else rest
  }

  /** A lower bound on every element bounds the sum from below. */
  lemma {:induction false} SumAtLeast(s: seq<real>, lo: real)
    requires forall i :: 0 <= i < |s| ==> lo <= s[i]
    ensures |s| as real * lo <= Sum(s)
  {
    if |s| > 0 {
      SumAtLeast(s[1..], lo);
    }
  }

  /** Extrema depend only on the multiset of the elements. */
  lemma ExtremaPermutation(a: seq<real>, b: seq<real>)
    requires |a| > 0 && multiset(a) == multiset(b)
    ensures |b| > 0
    ensures SeqMin(a) == SeqMin(b) && SeqMax(a) == SeqMax(b)
  {
    assert |multiset(a)| == |multiset(b)|;
    assert SeqMin(a) in multiset(b) && SeqMin(b) in multiset(a);
    assert SeqMax(a) in multiset(b) && SeqMax(b) in multiset(a);
  }

  /** An upper bound on every element bounds the sum from above. */
  lemma {:induction false} SumAtMost(s: seq<real>, hi: real)
    requires forall i :: 0 <= i < |s| ==> s[i] <= hi
    ensures Sum(s) <= |s| as real * hi
  {
    if |s| > 0 {
      SumAtMost(s[1..], hi);
    }
  }

  /* ---------------- filtering and counting ---------------- */

  /** The elements satisfying `p`, in their original order
      (`Where`, or `List.RemoveAll` of the negation). */
  function Filter<T>(s: seq<T>, p: T -> bool): (r: seq<T>)
    ensures |r| <= |s|
    ensures forall i :: 0 <= i < |r| ==> r[i] in s && p(r[i])
    ensures forall i :: 0 <= i < |s| && p(s[i]) ==> s[i] in r
  {
    if |s| == 0 then []
    else (if p(s[0]) then [s[0]] else []) + Filter(s[1..], p)
  }

  /** The first and last elements of a non-empty slice. */
  lemma SliceEnds<T>(s: seq<T>, start: int, end: int)
    requires 0 <= start < end <= |s|
    ensures s[start..end][0] == s[start]
    ensures s[start..end][end - start - 1] == s[end - 1]
  {
  }

  /** `Enumerable.Count(predicate)`. */
  function Count<T>(s: seq<T>, p: T -> bool): nat
  {
    |Filter(s, p)|
  }

  /** Each value keeps all its occurrences when it satisfies `p` and loses
      all of them otherwise. */
  lemma {:induction false} FilterMultiset<T>(s: seq<T>, p: T -> bool)
    ensures forall x :: multiset(Filter(s, p))[x] == if p(x) then multiset(s)[x] else 0
  {
    if |s| > 0 {
      FilterMultiset(s[1..], p);
      assert s == [s[0]] + s[1..];
    }
  }

  /** Filtering (and hence counting) sees only the multiset of its input. */
  lemma FilterPermutation<T>(a: seq<T>, b: seq<T>, p: T -> bool)
    requires multiset(a) == multiset(b)
    ensures multiset(Filter(a, p)) == multiset(Filter(b, p))
    ensures Count(a, p) == Count(b, p)
  {
    FilterMultiset(a, p);
    FilterMultiset(b, p);
    assert multiset(Filter(a, p)) == multiset(Filter(b, p));
    assert |multiset(Filter(a, p))| == |Filter(a, p)|;
    assert |multiset(Filter(b, p))| == |Filter(b, p)|;
  }

  lemma {:induction false} FilterAppend<T>(a: seq<T>, b: seq<T>, p: T -> bool)
    ensures Filter(a + b, p) == Filter(a, p) + Filter(b, p)
  {
    if |a| > 0 {
      FilterAppend(a[1..], b, p);
      assert a + b == [a[0]] + (a[1..] + b);
      assert a == [a[0]] + a[1..];
      FilterCons(a[0], a[1..] + b, p);
      FilterCons(a[0], a[1..], p);
    } else {
      assert a + b == b;
    }
  }

  lemma FilterCons<T>(h: T, t: seq<T>, p: T -> bool)
    ensures Filter([h] + t, p) == (if p(h) then [h] else []) + Filter(t, p)
  {
    assert ([h] + t)[1..] == t;
  }

  /** A second pass of the same filter removes nothing more. */
  lemma {:induction false} FilterIdempotent<T>(s: seq<T>, p: T -> bool)
    ensures Filter(Filter(s, p), p) == Filter(s, p)
  {
    if |s| > 0 {
      FilterIdempotent(s[1..], p);
      var once := Filter(s, p);
      if p(s[0]) {
        assert once == [s[0]] + Filter(s[1..], p);
        assert once[0] == s[0] && once[1..] == Filter(s[1..], p);
        assert Filter(once, p) == [s[0]] + Filter(once[1..], p);
      } else {
        assert once == Filter(s[1..], p);
      }
    }
  }

  lemma {:induction false} FilterKeepsAll<T>(s: seq<T>, p: T -> bool)
    requires forall i :: 0 <= i < |s| ==> p(s[i])
    ensures Filter(s, p) == s
  {
    if |s| > 0 {
      FilterKeepsAll(s[1..], p);
    }
  }

  lemma {:induction false} FilterKeepsNone<T>(s: seq<T>, p: T -> bool)
    requires forall i :: 0 <= i < |s| ==> !p(s[i])
    ensures Filter(s, p) == []
  {
    if |s| > 0 {
      FilterKeepsNone(s[1..], p);
    }
  }

  /** A weaker predicate keeps at least as many elements. */
  lemma {:induction false} CountMonotonic<T>(s: seq<T>, p: T -> bool, q: T -> bool)
    requires forall x :: p(x) ==> q(x)
    ensures Count(s, p) <= Count(s, q)
  {
    if |s| > 0 {
      CountMonotonic(s[1..], p, q);
    }
  }

  /** Two predicates that never hold together, each stronger than `r`, keep
      no more elements between them than `r` does. */
  lemma {:induction false} CountDisjoint<T>(s: seq<T>, p: T -> bool, q: T -> bool, r: T -> bool)
    requires forall x :: !(p(x) && q(x))
    requires forall x :: p(x) || q(x) ==> r(x)
    ensures Count(s, p) + Count(s, q) <= Count(s, r)
  {
    if |s| > 0 {
      CountDisjoint(s[1..], p, q, r);
    }
  }

  /** A predicate that holds exactly when one of two exclusive predicates
      does keeps as many elements as the two of them together. */
  lemma {:induction false} CountSplit<T>(s: seq<T>, p: T -> bool, q: T -> bool, r: T -> bool)
    requires forall x :: p(x) <==> q(x) || r(x)
    requires forall x :: !(q(x) && r(x))
    ensures Count(s, p) == Count(s, q) + Count(s, r)
  {
    if |s| > 0 {
      CountSplit(s[1..], p, q, r);
    }
  }

  /** A filter and its complement split the input between them. */
  lemma FilterComplement<T>(s: seq<T>, p: T -> bool, q: T -> bool)
    requires forall x :: q(x) <==> !p(x)
    ensures multiset(Filter(s, p)) + multiset(Filter(s, q)) == multiset(s)
    ensures |Filter(s, p)| + |Filter(s, q)| == |s|
  {
    FilterMultiset(s, p);
    FilterMultiset(s, q);
    assert multiset(Filter(s, p)) + multiset(Filter(s, q)) == multiset(s);
    assert |multiset(Filter(s, p)) + multiset(Filter(s, q))| == |multiset(s)|;
  }

  /* ---------------- order preservation ---------------- */

  /** `a` can be obtained from `b` by deleting elements: the survivors keep
      their relative order. */
  predicate IsSubsequence<T(==)>(a: seq<T>, b: seq<T>)
    decreases |b|
  {
    |a| == 0 ||
    (|b| > 0 && ((a[0] == b[0] && IsSubsequence(a[1..], b[1..])) || IsSubsequence(a, b[1..])))
  }

  lemma {:induction false} SubsequenceReflexive<T>(s: seq<T>)
    ensures IsSubsequence(s, s)
  {
    if |s| > 0 {
      SubsequenceReflexive(s[1..]);
    }
  }

  lemma {:induction false} SubsequenceTransitive<T>(a: seq<T>, b: seq<T>, c: seq<T>)
    requires IsSubsequence(a, b) && IsSubsequence(b, c)
    ensures IsSubsequence(a, c)
    decreases |c|
  {
    if |a| > 0 {
      assert |b| > 0 && |c| > 0;
      if IsSubsequence(b, c[1..]) {
        SubsequenceTransitive(a, b, c[1..]);
      } else {
        assert b[0] == c[0] && IsSubsequence(b[1..], c[1..]);
        if a[0] == b[0] && IsSubsequence(a[1..], b[1..]) {
          SubsequenceTransitive(a[1..], b[1..], c[1..]);
        } else {
          SubsequenceTransitive(a, b[1..], c[1..]);
        }
      }
    }
  }

  lemma {:induction false} FilterIsSubsequence<T>(s: seq<T>, p: T -> bool)
    ensures IsSubsequence(Filter(s, p), s)
  {
    if |s| > 0 {
      FilterIsSubsequence(s[1..], p);
      var r := Filter(s, p);
      if p(s[0]) {
        assert r == [s[0]] + Filter(s[1..], p);
        assert r[0] == s[0] && r[1..] == Filter(s[1..], p);
      } else {
        assert r == Filter(s[1..], p);
      }
    }
  }

  /* ---------------- removal by value ---------------- */

  /** `List<T>.Remove(x)`: finds the first occurrence of `x` and deletes
      it, leaving the list unchanged when there is none. */
  function RemoveFirst<T(==)>(s: seq<T>, x: T): (r: seq<T>)
    ensures multiset(r) == multiset(s) - multiset{x}
    ensures x in s ==> |r| == |s| - 1
    ensures x !in s ==> r == s
    ensures x in s ==> r == s[..FirstIndex(s, x)] + s[FirstIndex(s, x) + 1..]
  {
    var i := FirstIndex(s, x);
    if i == |s| then s
    else
      DeleteAtMultiset(s, i);
      s[..i] + s[i + 1..]
  }

  /** Deleting index `i` takes one copy of `s[i]` out of the multiset. */
  lemma DeleteAtMultiset<T>(s: seq<T>, i: nat)
    requires i < |s|
    ensures multiset(s[..i] + s[i + 1..]) == multiset(s) - multiset{s[i]}
  {
    assert s == s[..i] + [s[i]] + s[i + 1..];
  }

  /** Deleting one index leaves a subsequence. */
  lemma {:induction false} DeleteAtIsSubsequence<T>(s: seq<T>, i: nat)
    requires i < |s|
    ensures IsSubsequence(s[..i] + s[i + 1..], s)
  {
    var a := s[..i] + s[i + 1..];
    if i == 0 {
      assert a == s[1..];
      SubsequenceReflexive(s[1..]);
    } else {
      DeleteAtIsSubsequence(s[1..], i - 1);
      assert a[0] == s[0];
      assert a[1..] == s[1..][..i - 1] + s[1..][i..];
    }
  }

  lemma RemoveFirstIsSubsequence<T>(s: seq<T>, x: T)
    ensures IsSubsequence(RemoveFirst(s, x), s)
  {
    if x in s {
      DeleteAtIsSubsequence(s, FirstIndex(s, x));
    } else {
      SubsequenceReflexive(s);
    }
  }

  /** Deleting index `i` of the tail of `s` deletes index `i + 1` of `s`. */
  lemma SpliceTail<T>(s: seq<T>, i: nat)
    requires i + 1 < |s|
    ensures [s[0]] + (s[1..][..i] + s[1..][i + 1..]) == s[..i + 1] + s[i + 2..]
  {
    assert [s[0]] + s[1..][..i] == s[..i + 1];
    assert s[1..][i + 1..] == s[i + 2..];
  }

  /** Removing `x` behind a different head keeps the head. */
  lemma RemoveFirstCons<T>(s: seq<T>, x: T)
    requires |s| > 0 && s[0] != x
    ensures RemoveFirst(s, x) == [s[0]] + RemoveFirst(s[1..], x)
  {
    if x in s {
      assert x in s[1..];
      var i := FirstIndex(s[1..], x);
      assert FirstIndex(s, x) == i + 1;
      SpliceTail(s, i);
    } else {
      assert s == [s[0]] + s[1..];
    }
  }

  /** The elements of `s` that are among the last `m[v]` copies of their
      value `v`: index `j` survives exactly when fewer than `m[s[j]]` copies
      of `s[j]` follow it. */
  function KeepLast<T(==)>(s: seq<T>, m: multiset<T>): (r: seq<T>)
    ensures |r| <= |s|
  {
    if |s| == 0 then []
    else if multiset(s[1..])[s[0]] < m[s[0]] then [s[0]] + KeepLast(s[1..], m)
    else KeepLast(s[1..], m)
  }

  /** Keeping at least as many copies as there are keeps everything. */
  lemma {:induction false} KeepLastAll<T>(s: seq<T>, m: multiset<T>)
    requires multiset(s) <= m
    ensures KeepLast(s, m) == s
  {
    if |s| > 0 {
      assert s == [s[0]] + s[1..];
      assert multiset(s)[s[0]] == multiset(s[1..])[s[0]] + 1;
      KeepLastAll(s[1..], m);
    }
  }

  /** Removing the first `x` does not change which copies survive, when
      fewer copies of `x` are kept than `s` holds. */
  lemma {:induction false} KeepLastRemoveFirst<T>(s: seq<T>, x: T, m: multiset<T>)
    requires x in s && m[x] < multiset(s)[x]
    ensures KeepLast(RemoveFirst(s, x), m) == KeepLast(s, m)
  {
    assert s == [s[0]] + s[1..];
    if s[0] == x {
      assert RemoveFirst(s, x) == s[1..];
    } else {
      RemoveFirstCons(s, x);
      var tail := RemoveFirst(s[1..], x);
      assert x in s[1..];
      KeepLastRemoveFirst(s[1..], x, m);
      assert ([s[0]] + tail)[1..] == tail;
      assert multiset(tail)[s[0]] == multiset(s[1..])[s[0]];
    }
  }

  /** One `List<T>.Remove` per target, in the order of `targets`. Each call
      deletes the first remaining copy, so of every value the LAST copies
      survive, as many as the multiset difference leaves. */
  function RemoveEach<T(==)>(s: seq<T>, targets: seq<T>): (r: seq<T>)
    ensures multiset(r) == multiset(s) - multiset(targets)
    ensures r == KeepLast(s, multiset(s) - multiset(targets))
    decreases |targets|
  {
    if |targets| == 0 then
      KeepLastAll(s, multiset(s) - multiset(targets));
      s
    else
      var once := RemoveFirst(s, targets[0]);
      var rest := RemoveEach(once, targets[1..]);
      RemoveEachStep(s, targets, once, rest);
      RemoveEachKeepsLast(s, targets, once, rest);
      rest
  }

  /** Two rounds of removals are one round over both target lists. */
  lemma {:induction false} RemoveEachAppend<T>(s: seq<T>, a: seq<T>, b: seq<T>)
    ensures RemoveEach(RemoveEach(s, a), b) == RemoveEach(s, a + b)
    decreases |a|
  {
    if |a| == 0 {
      assert a + b == b;
    } else {
      assert (a + b)[0] == a[0] && (a + b)[1..] == a[1..] + b;
      RemoveEachAppend(RemoveFirst(s, a[0]), a[1..], b);
    }
  }

  lemma RemoveEachKeepsLast<T>(s: seq<T>, targets: seq<T>, once: seq<T>, rest: seq<T>)
    requires |targets| > 0 && once == RemoveFirst(s, targets[0])
    requires rest == KeepLast(once, multiset(once) - multiset(targets[1..]))
    ensures rest == KeepLast(s, multiset(s) - multiset(targets))
  {
    var x := targets[0];
    var m := multiset(s) - multiset(targets);
    assert targets == [x] + targets[1..];
    assert multiset(once) - multiset(targets[1..]) == m by {
      DifferenceStep(multiset(once) - multiset(targets[1..]), multiset(once), multiset(s),
        multiset{x}, multiset(targets[1..]), multiset(targets));
    }
    if x in s {
      assert m[x] < multiset(s)[x];
      KeepLastRemoveFirst(s, x, m);
    }
  }

  lemma RemoveEachStep<T>(s: seq<T>, targets: seq<T>, once: seq<T>, rest: seq<T>)
    requires |targets| > 0
    requires multiset(once) == multiset(s) - multiset{targets[0]}
    requires multiset(rest) == multiset(once) - multiset(targets[1..])
    ensures multiset(rest) == multiset(s) - multiset(targets)
  {
    assert targets == [targets[0]] + targets[1..];
    DifferenceStep(multiset(rest), multiset(once), multiset(s),
      multiset{targets[0]}, multiset(targets[1..]), multiset(targets));
  }

  /** Subtracting `first` and then `later` subtracts `first + later`. */
  lemma DifferenceStep<T>(r: multiset<T>, once: multiset<T>, s: multiset<T>,
                          first: multiset<T>, later: multiset<T>, all: multiset<T>)
    requires r == once - later && once == s - first && all == first + later
    ensures r == s - all
  {
    assert forall x :: r[x] == (s - all)[x];
  }

  lemma {:induction false} RemoveEachIsSubsequence<T>(s: seq<T>, targets: seq<T>)
    ensures IsSubsequence(RemoveEach(s, targets), s)
    decreases |targets|
  {
    if |targets| == 0 {
      SubsequenceReflexive(s);
    } else {
      var once := RemoveFirst(s, targets[0]);
      RemoveFirstIsSubsequence(s, targets[0]);
      RemoveEachIsSubsequence(once, targets[1..]);
      SubsequenceTransitive(RemoveEach(once, targets[1..]), once, s);
    }
  }

  /** Removing a sub-multiset shortens the sequence by exactly its size. */
  lemma RemoveEachLength<T>(s: seq<T>, targets: seq<T>)
    requires multiset(targets) <= multiset(s)
    ensures |RemoveEach(s, targets)| == |s| - |targets|
  {
    var rest := multiset(s) - multiset(targets);
    assert rest + multiset(targets) == multiset(s);
    assert |rest| + |multiset(targets)| == |multiset(s)|;
    assert |multiset(RemoveEach(s, targets))| == |RemoveEach(s, targets)|;
  }

  /* ---------------- first occurrences ---------------- */

  /** Index of the first occurrence of `x`, or `|s|` when there is none. */
  function FirstIndex<T(==)>(s: seq<T>, x: T): (i: nat)
    ensures i <= |s|
    ensures i < |s| <==> x in s
    ensures i < |s| ==> s[i] == x
    ensures forall j :: 0 <= j < i ==> s[j] != x
  {
    if |s| == 0 then 0
    else if s[0] == x then 0
    else 1 + FirstIndex(s[1..], x)
  }

  lemma {:induction false} FirstIndexAppend<T>(s: seq<T>, z: T)
    ensures forall y :: y in s ==> FirstIndex(s + [z], y) == FirstIndex(s, y)
    ensures z !in s ==> FirstIndex(s + [z], z) == |s|
  {
    forall y | y in s
      ensures FirstIndex(s + [z], y) == FirstIndex(s, y)
    {
      var i := FirstIndex(s, y);
      assert (s + [z])[i] == y;
    }
  }

  predicate NoDuplicates<T(==)>(s: seq<T>)
  {
    forall i, j :: 0 <= i < j < |s| ==> s[i] != s[j]
  }

  /** In a sequence without duplicates each value occurs at most once. */
  lemma {:induction false} NoDuplicatesOnce<T>(s: seq<T>, x: T)
    requires NoDuplicates(s)
    ensures multiset(s)[x] <= 1
  {
    if |s| > 0 {
      assert s == [s[0]] + s[1..];
      assert NoDuplicates(s[1..]);
      NoDuplicatesOnce(s[1..], x);
      if s[0] == x {
        assert x !in s[1..];
      }
    }
  }

  /** The elements of `d` appear in the order of their first occurrence in
      `s` (which also makes them pairwise distinct). */
  predicate InFirstOccurrenceOrder<T(==)>(d: seq<T>, s: seq<T>)
  {
    forall i, j :: 0 <= i < j < |d| ==> FirstIndex(s, d[i]) < FirstIndex(s, d[j])
  }

  lemma FirstOccurrenceOrderNoDuplicates<T>(d: seq<T>, s: seq<T>)
    requires InFirstOccurrenceOrder(d, s)
    ensures NoDuplicates(d)
  {
  }

  lemma HeadPrecedesTail<T>(d: seq<T>, s: seq<T>, x: T)
    requires InFirstOccurrenceOrder(d, s)
    requires |d| > 0 && x in d[1..]
    ensures FirstIndex(s, d[0]) < FirstIndex(s, x)
  {
    var k :| 0 <= k < |d[1..]| && d[1..][k] == x;
    assert d[k + 1] == x;
  }

  lemma ConsFirstOccurrenceOrder<T>(x: T, tail: seq<T>, s: seq<T>)
    requires InFirstOccurrenceOrder(tail, s)
    requires forall i :: 0 <= i < |tail| ==> FirstIndex(s, x) < FirstIndex(s, tail[i])
    ensures InFirstOccurrenceOrder([x] + tail, s)
  {
    var r := [x] + tail;
    forall i, j | 0 <= i < j < |r|
      ensures FirstIndex(s, r[i]) < FirstIndex(s, r[j])
    {
      assert r[j] == tail[j - 1];
      if i > 0 {
        assert r[i] == tail[i - 1];
      }
    }
  }

  lemma {:induction false} FilterKeepsFirstOccurrenceOrder<T>(d: seq<T>, s: seq<T>, p: T -> bool)
    requires InFirstOccurrenceOrder(d, s)
    ensures InFirstOccurrenceOrder(Filter(d, p), s)
  {
    if |d| > 0 {
      var tail := Filter(d[1..], p);
      assert InFirstOccurrenceOrder(d[1..], s);
      FilterKeepsFirstOccurrenceOrder(d[1..], s, p);
      if p(d[0]) {
        forall i | 0 <= i < |tail|
          ensures FirstIndex(s, d[0]) < FirstIndex(s, tail[i])
        {
          HeadPrecedesTail(d, s, tail[i]);
        }
        ConsFirstOccurrenceOrder(d[0], tail, s);
        assert Filter(d, p) == [d[0]] + tail;
      } else {
        assert Filter(d, p) == tail;
      }
    }
  }

  /** The distinct values of `s` in order of first occurrence: the key order
      of `Enumerable.GroupBy`. */
  function Distinct<T(==)>(s: seq<T>): (d: seq<T>)
    ensures forall i :: 0 <= i < |d| ==> d[i] in s
    ensures forall i :: 0 <= i < |s| ==> s[i] in d
    ensures InFirstOccurrenceOrder(d, s)
  {
    if |s| == 0 then []
    else
      var init := s[..|s| - 1];
      var last := s[|s| - 1];
      var prefix := Distinct(init);
      assert s == init + [last];
      FirstIndexAppend(init, last);
      if last in prefix then prefix else prefix + [last]
  }
}
