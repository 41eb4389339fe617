/** A model of `collections.Counter(xs).most_common(n)` followed by the
    `if count > 1` filter that the analysers apply to it.

    `Counter` keeps its keys in first-insertion order, and `most_common(n)` is
    `heapq.nlargest(n, items, key=count)`, which is documented to equal
    `sorted(items, key=count, reverse=True)[:n]`: a STABLE sort by descending
    count. So the ranking is: distinct items in order of first occurrence,
    stably sorted by descending count, cut to n. */
module Counting {

  /** Number of occurrences of `x` in `xs` (the value `Counter(xs)[x]`). */
  function Count<T(==)>(xs: seq<T>, x: T): nat {
    multiset(xs)[x]
  }

  predicate NoDups<T(==)>(s: seq<T>) {
    forall i, j :: 0 <= i < j < |s| ==> s[i] != s[j]
  }

  /** Index of the first occurrence of `x` in `xs`. */
  function FirstIndex<T(==)>(xs: seq<T>, x: T): (k: nat)
    requires x in xs
    ensures k < |xs| && xs[k] == x
  {
    if xs[0] == x then 0 else 1 + FirstIndex(xs[1..], x)
  }

  /** No occurrence of `x` comes before its first one. */
  lemma {:induction false} FirstIndexIsFirst<T>(xs: seq<T>, x: T, j: nat)
    requires x in xs && j < FirstIndex(xs, x)
    ensures xs[j] != x
  {
    if j > 0 {
      FirstIndexIsFirst(xs[1..], x, j - 1);
    }
  }

  /** The first occurrence is the only index with `x` there and not before. */
  lemma {:induction false} FirstIndexIs<T>(xs: seq<T>, x: T, k: nat)
    requires k < |xs| && xs[k] == x && x !in xs[..k]
    ensures FirstIndex(xs, x) == k
  {
    if k < FirstIndex(xs, x) {
      FirstIndexIsFirst(xs, x, k);
    }
  }

  /** An item already present in a prefix has its first occurrence there. */
  lemma FirstIndexInPrefix<T>(xs: seq<T>, m: nat, x: T)
    requires m <= |xs| && x in xs[..m]
    ensures FirstIndex(xs, x) == FirstIndex(xs[..m], x)
  {
    var k := FirstIndex(xs[..m], x);
    forall j | 0 <= j < k
      ensures xs[j] != x
    {
      FirstIndexIsFirst(xs[..m], x, j);
    }
    FirstIndexIs(xs, x, k);
  }

  /** The keys of `Counter(xs)`, in the order in which they were first inserted. */
  function Distinct<T(==)>(xs: seq<T>): (d: seq<T>)
    ensures NoDups(d)
    ensures forall i :: 0 <= i < |d| ==> d[i] in xs
    ensures forall i :: 0 <= i < |xs| ==> xs[i] in d
    ensures forall i, j :: 0 <= i < j < |d| ==> FirstIndex(xs, d[i]) < FirstIndex(xs, d[j])
    decreases |xs|
  {
    if xs == [] then []
    else
      var d := Distinct(xs[..|xs| - 1]);
      DistinctStep(xs, d);
      if xs[|xs| - 1] in d then d else d + [xs[|xs| - 1]]
  }

  /** One step of `Distinct`: the keys of `Counter(xs[..n])` become those of
      `Counter(xs)` by appending `xs[n]` when it is new. */
  lemma DistinctStep<T>(xs: seq<T>, d: seq<T>)
    requires |xs| > 0
    requires NoDups(d)
    requires forall i :: 0 <= i < |d| ==> d[i] in xs[..|xs| - 1]
    requires forall i :: 0 <= i < |xs| - 1 ==> xs[i] in d
    requires forall i, j :: 0 <= i < j < |d| ==> FirstIndex(xs[..|xs| - 1], d[i]) < FirstIndex(xs[..|xs| - 1], d[j])
    ensures var e := if xs[|xs| - 1] in d then d else d + [xs[|xs| - 1]];
      && NoDups(e)
      && (forall i :: 0 <= i < |e| ==> e[i] in xs)
      && (forall i :: 0 <= i < |xs| ==> xs[i] in e)
      && (forall i, j :: 0 <= i < j < |e| ==> FirstIndex(xs, e[i]) < FirstIndex(xs, e[j]))
  {
    var n := |xs| - 1;
    var e := if xs[n] in d then d else d + [xs[n]];
    forall i | 0 <= i < |d|
      ensures FirstIndex(xs, d[i]) == FirstIndex(xs[..n], d[i]) < n
    {
      FirstIndexInPrefix(xs, n, d[i]);
    }
    if xs[n] !in d {
      assert xs[n] !in xs[..n];
      FirstIndexIs(xs, xs[n], n);
      forall i, j | 0 <= i < j < |e|
        ensures FirstIndex(xs, e[i]) < FirstIndex(xs, e[j])
      {
        assert e[i] == d[i];
      }
    }
    forall i | 0 <= i < |xs|
      ensures xs[i] in e
    {
      if i < n {
        assert xs[i] in d;
      }
    }
  }

  /** `[x for x in s if keep(x)]`. */
  function Filter<T>(keep: T -> bool, s: seq<T>): (r: seq<T>)
    ensures |r| <= |s|
    ensures forall i :: 0 <= i < |r| ==> keep(r[i]) && r[i] in s
  {
    if s == [] then []
    else
      assert forall x :: x in s[1..] ==> x in s;
      (if keep(s[0]) then [s[0]] else []) + Filter(keep, s[1..])
  }

  /** A kept item keeps all its occurrences. */
  lemma {:induction false} FilterCount<T>(keep: T -> bool, s: seq<T>, x: T)
    requires keep(x)
    ensures Count(Filter(keep, s), x) == Count(s, x)
  {
    if s != [] {
      FilterCount(keep, s[1..], x);
      assert Filter(keep, s) == (if keep(s[0]) then [s[0]] else []) + Filter(keep, s[1..]);
      assert s == [s[0]] + s[1..];
    }
  }

  /** Filtering works piece by piece, so the kept items stay in input
      order. */
  lemma {:induction false} FilterAppend<T>(keep: T -> bool, a: seq<T>, b: seq<T>)
    ensures Filter(keep, a + b) == Filter(keep, a) + Filter(keep, b)
  {
    if a == [] {
      assert a + b == b;
    } else {
      assert (a + b)[0] == a[0] && (a + b)[1..] == a[1..] + b;
      FilterAppend(keep, a[1..], b);
    }
  }

  /** Nothing is kept when nothing qualifies. */
  lemma {:induction false} FilterNone<T>(keep: T -> bool, s: seq<T>)
    requires forall i :: 0 <= i < |s| ==> !keep(s[i])
    ensures Filter(keep, s) == []
  {
    if s != [] {
      FilterNone(keep, s[1..]);
    }
  }

  /** Filtering twice is filtering once by the stronger condition. */
  lemma {:induction false} FilterFilter<T>(strong: T -> bool, weak: T -> bool, s: seq<T>)
    requires forall x :: strong(x) ==> weak(x)
    ensures Filter(strong, Filter(weak, s)) == Filter(strong, s)
  {
    if s != [] {
      FilterFilter(strong, weak, s[1..]);
      var w := Filter(weak, s[1..]);
      if weak(s[0]) {
        assert ([s[0]] + w)[0] == s[0] && ([s[0]] + w)[1..] == w;
      } else {
        assert Filter(weak, s) == w;
      }
    }
  }

  /** `x` ranks strictly before `y` among the items of `xs`: a higher count, or
      the same count and an earlier first occurrence. */
  predicate Before<T(==)>(xs: seq<T>, x: T, y: T) {
    && x in xs && y in xs
    && (|| Count(xs, x) > Count(xs, y)
        || (Count(xs, x) == Count(xs, y) && FirstIndex(xs, x) < FirstIndex(xs, y)))
  }

  /** `r` lists items of `xs` in strictly decreasing rank. */
  predicate Ranked<T(==)>(xs: seq<T>, r: seq<T>) {
    && (forall x :: x in r ==> x in xs)
    && (forall i, j :: 0 <= i < j < |r| ==> Before(xs, r[i], r[j]))
  }

  lemma BeforeTransitive<T>(xs: seq<T>, x: T, y: T, z: T)
    requires Before(xs, x, y) && Before(xs, y, z)
    ensures Before(xs, x, z)
  {
  }

  /** A ranked list never repeats an item. */
  lemma RankedNoDups<T>(xs: seq<T>, r: seq<T>)
    requires Ranked(xs, r)
    ensures NoDups(r)
  {
    forall i, j | 0 <= i < j < |r|
      ensures r[i] != r[j]
    {
      assert Before(xs, r[i], r[j]);
    }
  }

  lemma RankedSlice<T>(xs: seq<T>, r: seq<T>, a: nat, b: nat)
    requires Ranked(xs, r) && a <= b <= |r|
    ensures Ranked(xs, r[a..b])
  {
    forall i, j | 0 <= i < j < b - a
      ensures Before(xs, r[a..b][i], r[a..b][j])
    {
      assert r[a..b][i] == r[a + i] && r[a..b][j] == r[a + j];
    }
  }

  /** One step of a stable insertion sort by descending count: `x` goes after
      every item whose count is at least its own. */
  function InsertByCount<T(==)>(xs: seq<T>, x: T, r: seq<T>): seq<T> {
    if r == [] then [x]
    else if Count(xs, r[0]) >= Count(xs, x) then [r[0]] + InsertByCount(xs, x, r[1..])
    else [x] + r
  }

  /** Stable sort of `d` by descending count in `xs`. */
  function SortByCount<T(==)>(xs: seq<T>, d: seq<T>): seq<T> {
    if d == [] then []
    else InsertByCount(xs, d[|d| - 1], SortByCount(xs, d[..|d| - 1]))
  }

  /** `Counter(xs).most_common()` with no limit. */
  function Rank<T(==)>(xs: seq<T>): (r: seq<T>)
    ensures multiset(r) == multiset(Distinct(xs))
  {
    SortByCountRanked(xs, Distinct(xs));
    SortByCount(xs, Distinct(xs))
  }

  /** `s[:n]` for a non-negative `n`; nothing for `n <= 0`, as `heapq.nlargest` does. */
  function Take<T>(s: seq<T>, n: int): (r: seq<T>)
    ensures |r| <= |s| && (n <= 0 ==> r == [])
    ensures 0 <= n <= |s| ==> |r| == n
    ensures n >= |s| ==> r == s
    ensures r == s[..|r|]
  {
    if n <= 0 then [] else if n < |s| then s[..n] else s
  }

  /** `Counter(xs).most_common(n)`, keys only. */
  function MostCommon<T(==)>(xs: seq<T>, n: int): (r: seq<T>)
    ensures |r| <= |Rank(xs)| && r == Rank(xs)[..|r|]
    ensures n <= 0 ==> r == []
    ensures 0 <= n <= |Rank(xs)| ==> |r| == n
    ensures n >= |Rank(xs)| ==> r == Rank(xs)
  {
    Take(Rank(xs), n)
  }

  /** `[x for x in r if Counter(xs)[x] > 1]`. */
  function KeepRepeated<T(==)>(xs: seq<T>, r: seq<T>): (k: seq<T>)
    ensures |k| <= |r|
    ensures forall y :: y in k ==> y in r && Count(xs, y) > 1
  {
    if r == [] then []
    else (if Count(xs, r[0]) > 1 then [r[0]] else []) + KeepRepeated(xs, r[1..])
  }

  /** `[x for x, c in Counter(xs).most_common(n) if c > 1]`. */
  function Top<T(==)>(xs: seq<T>, n: int): (t: seq<T>)
    ensures forall x :: x in t ==> x in xs && Count(xs, x) >= 2
  {
    KeepRepeated(xs, MostCommon(xs, n))
  }

  /** An item ranked before every item of a ranked list can head it. */
  lemma RankedCons<T>(xs: seq<T>, h: T, t: seq<T>)
    requires Ranked(xs, t) && h in xs
    requires forall z :: z in t ==> Before(xs, h, z)
    ensures Ranked(xs, [h] + t)
  {
    var u := [h] + t;
    forall i, j | 0 <= i < j < |u|
      ensures Before(xs, u[i], u[j])
    {
      if i == 0 {
        assert u[j] == t[j - 1] && u[j] in t;
      } else {
        assert u[i] == t[i - 1] && u[j] == t[j - 1];
      }
    }
  }

  /** The head of a ranked list ranks before `x` and the rest of the list,
      when its count is at least that of `x`, which occurs later. */
  lemma HeadBeforeInserted<T>(xs: seq<T>, x: T, r: seq<T>, t: seq<T>)
    requires Ranked(xs, r) && r != [] && x in xs
    requires FirstIndex(xs, r[0]) < FirstIndex(xs, x) && Count(xs, r[0]) >= Count(xs, x)
    requires multiset(t) == multiset(r[1..]) + multiset{x}
    ensures forall z :: z in t ==> Before(xs, r[0], z)
  {
    forall z | z in t
      ensures Before(xs, r[0], z)
    {
      assert z in multiset(t);
      if z != x {
        assert z in multiset(r[1..]);
        var k :| 0 <= k < |r| - 1 && r[1..][k] == z;
        assert Before(xs, r[0], r[k + 1]);
      }
    }
  }

  /** An item counted more often than the head of a ranked list ranks before
      all of it. */
  lemma NewHeadBefore<T>(xs: seq<T>, x: T, r: seq<T>)
    requires Ranked(xs, r) && r != [] && x in xs
    requires Count(xs, x) > Count(xs, r[0])
    ensures forall z :: z in r ==> Before(xs, x, z)
  {
    forall z | z in r
      ensures Before(xs, x, z)
    {
      var k :| 0 <= k < |r| && r[k] == z;
      if k > 0 {
        assert Before(xs, r[0], r[k]);
      }
    }
  }

  lemma {:induction false} InsertRanked<T>(xs: seq<T>, x: T, r: seq<T>)
    requires Ranked(xs, r) && x in xs && x !in r
    requires forall y :: y in r ==> FirstIndex(xs, y) < FirstIndex(xs, x)
    ensures Ranked(xs, InsertByCount(xs, x, r))
    ensures multiset(InsertByCount(xs, x, r)) == multiset(r) + multiset{x}
  {
    if r == [] {
    } else if Count(xs, r[0]) >= Count(xs, x) {
      RankedSlice(xs, r, 1, |r|);
      assert r == [r[0]] + r[1..];
      InsertRanked(xs, x, r[1..]);
      var t := InsertByCount(xs, x, r[1..]);
      HeadBeforeInserted(xs, x, r, t);
      RankedCons(xs, r[0], t);
    } else {
      NewHeadBefore(xs, x, r);
      RankedCons(xs, x, r);
    }
  }

  /** Every item sorted so far occurs first before the next item of `d`. */
  lemma EarlierItems<T>(xs: seq<T>, d: seq<T>, s: seq<T>)
    requires d != [] && forall y :: y in d ==> y in xs
    requires forall i, j :: 0 <= i < j < |d| ==> FirstIndex(xs, d[i]) < FirstIndex(xs, d[j])
    requires multiset(s) == multiset(d[..|d| - 1])
    ensures forall y :: y in s ==> y in xs && FirstIndex(xs, y) < FirstIndex(xs, d[|d| - 1])
  {
    forall y | y in s
      ensures y in xs && FirstIndex(xs, y) < FirstIndex(xs, d[|d| - 1])
    {
      assert y in multiset(d[..|d| - 1]);
      var k :| 0 <= k < |d| - 1 && d[k] == y;
    }
  }

  lemma {:induction false} SortByCountRanked<T>(xs: seq<T>, d: seq<T>)
    requires forall y :: y in d ==> y in xs
    requires forall i, j :: 0 <= i < j < |d| ==> FirstIndex(xs, d[i]) < FirstIndex(xs, d[j])
    ensures Ranked(xs, SortByCount(xs, d))
    ensures multiset(SortByCount(xs, d)) == multiset(d)
  {
    if d != [] {
      var n := |d| - 1;
      SortByCountRanked(xs, d[..n]);
      var s := SortByCount(xs, d[..n]);
      EarlierItems(xs, d, s);
      InsertRanked(xs, d[n], s);
      assert d == d[..n] + [d[n]];
    }
  }

  /** The full ranking lists every distinct item of `xs` once, in rank order. */
  lemma RankSpec<T>(xs: seq<T>)
    ensures Ranked(xs, Rank(xs))
    ensures NoDups(Rank(xs))
    ensures forall x :: x in Rank(xs) <==> x in xs
    ensures |Rank(xs)| == |Distinct(xs)|
  {
    var d := Distinct(xs);
    SortByCountRanked(xs, d);
    RankedNoDups(xs, Rank(xs));
    forall x
      ensures x in Rank(xs) <==> x in xs
    {
      assert x in Rank(xs) <==> x in multiset(Rank(xs));
      assert x in d <==> x in multiset(d);
    }
    assert |multiset(Rank(xs))| == |multiset(d)|;
  }

  /** On a ranked list the `count > 1` filter keeps a prefix. */
  lemma {:induction false} KeepRepeatedIsPrefix<T>(xs: seq<T>, r: seq<T>)
    requires Ranked(xs, r)
    ensures KeepRepeated(xs, r) == r[..|KeepRepeated(xs, r)|]
    ensures forall x :: x in KeepRepeated(xs, r) <==> x in r && Count(xs, x) > 1
  {
    if r != [] {
      RankedSlice(xs, r, 1, |r|);
      KeepRepeatedIsPrefix(xs, r[1..]);
      var t := KeepRepeated(xs, r[1..]);
      if Count(xs, r[0]) > 1 {
        assert r[..|t| + 1] == [r[0]] + r[1..][..|t|];
      }
    }
  }

  /** What `[x for x, c in Counter(xs).most_common(n) if c > 1]` promises:
      at most n items, pairwise distinct, each occurring at least twice in
      `xs`, with non-increasing counts and equal counts in order of first
      occurrence. */
  lemma TopSpec<T>(xs: seq<T>, n: int)
    ensures |Top(xs, n)| <= if n < 0 then 0 else n
    ensures NoDups(Top(xs, n))
    ensures Ranked(xs, Top(xs, n))
    ensures forall x :: x in Top(xs, n) ==> x in xs && Count(xs, x) >= 2
  {
    var m := MostCommon(xs, n);
    RankSpec(xs);
    RankedSlice(xs, Rank(xs), 0, |m|);
    assert Rank(xs)[0..|m|] == m;
    KeepRepeatedIsPrefix(xs, m);
    var t := Top(xs, n);
    RankedSlice(xs, m, 0, |t|);
    assert m[0..|t|] == t;
    RankedNoDups(xs, t);
  }

  /** The `count > 1` filter changes nothing when every item is repeated. */
  lemma {:induction false} KeepRepeatedAll<T>(xs: seq<T>, r: seq<T>)
    requires forall i :: 0 <= i < |r| ==> Count(xs, r[i]) > 1
    ensures KeepRepeated(xs, r) == r
  {
    if r != [] {
      KeepRepeatedAll(xs, r[1..]);
    }
  }

  /** An item counted less than twice is never kept. */
  lemma {:induction false} KeepRepeatedNone<T>(xs: seq<T>, r: seq<T>)
    requires forall i :: 0 <= i < |r| ==> Count(xs, r[i]) < 2
    ensures KeepRepeated(xs, r) == []
  {
    if r != [] {
      KeepRepeatedNone(xs, r[1..]);
    }
  }

  /** With no item occurring twice, nothing passes `count > 1`. */
  lemma TopOfUnrepeated<T>(xs: seq<T>, n: int)
    requires forall x :: x in xs ==> Count(xs, x) < 2
    ensures Top(xs, n) == []
  {
    var m := MostCommon(xs, n);
    forall i | 0 <= i < |m|
      ensures Count(xs, m[i]) < 2
    {
      if m[i] !in xs {
        assert m[i] !in multiset(xs);
      }
    }
    KeepRepeatedNone(xs, m);
  }

  /** Nothing repeated is left out of `Top(xs, n)` unless the list is already
      full with items that all rank above it. */
  lemma TopComplete<T>(xs: seq<T>, n: int, x: T)
    requires x in xs && Count(xs, x) >= 2 && x !in Top(xs, n)
    ensures |Top(xs, n)| == (if n < 0 then 0 else n)
    ensures forall y :: y in Top(xs, n) ==> Before(xs, y, x)
  {
    var R := Rank(xs);
    RankSpec(xs);
    var m := MostCommon(xs, n);
    RankedSlice(xs, R, 0, |m|);
    assert R[0..|m|] == m;
    KeepRepeatedIsPrefix(xs, m);
    assert x !in m;
    if n > 0 {
      var p :| 0 <= p < |R| && R[p] == x;
      assert n < |R| && m == R[..n];
      assert n <= p;
      forall i | 0 <= i < n
        ensures Before(xs, m[i], x) && Count(xs, m[i]) > 1
      {
        assert m[i] == R[i];
      }
      KeepRepeatedAll(xs, m);
    }
  }
}
