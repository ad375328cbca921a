/** Bottom-up merge sort on sequences: what the list sorts of utlist.h and uthash.h compute,
    and what is true of it. */
module MergeSpec {

  /** The comparison orders the elements of u, ties allowed. */
  ghost predicate TotalPreorder<T>(le: (T, T) -> bool, u: set<T>) {
    && (forall a, b :: a in u && b in u ==> le(a, b) || le(b, a))
    && (forall a, b, c :: a in u && b in u && c in u && le(a, b) && le(b, c) ==> le(a, c))
  }

  ghost predicate Within<T>(s: seq<T>, u: set<T>) {
    forall y :: y in s ==> y in u
  }

  /** Merging two runs; on a tie the left one goes first. */
  function Merge<T>(a: seq<T>, b: seq<T>, le: (T, T) -> bool): (r: seq<T>)
    ensures |r| == |a| + |b|
  {
    if a == [] then b
    else if b == [] then a
    else if le(a[0], b[0]) then [a[0]] + Merge(a[1..], b, le)
    else [b[0]] + Merge(a, b[1..], le)
  }

  function Take<T>(w: nat, s: seq<T>): (r: seq<T>) {
    if |s| <= w then s else s[..w]
  }

  function Drop<T>(w: nat, s: seq<T>): (r: seq<T>) {
    if |s| <= w then [] else s[w..]
  }

  lemma TakeDropWithin<T>(w: nat, s: seq<T>, u: set<T>)
    requires Within(s, u)
    ensures Within(Take(w, s), u) && Within(Drop(w, s), u)
  {}

  /** One pass: runs of w elements merged pairwise. */
  function Pass<T>(w: nat, s: seq<T>, le: (T, T) -> bool): (r: seq<T>)
    requires w >= 1
    ensures |r| == |s|
    decreases |s|
  {
    if s == [] then []
    else Merge(Take(w, s), Take(w, Drop(w, s)), le) + Pass(w, Drop(w, Drop(w, s)), le)
  }

  /** Passes over runs of w, 2w, 4w, ... until one merge covers the list. */
  function SortFrom<T>(w: nat, s: seq<T>, le: (T, T) -> bool): (r: seq<T>)
    requires w >= 1
    ensures |r| == |s|
    decreases if |s| <= 2 * w then 0 else |s| - w
  {
    if |s| <= 2 * w then Pass(w, s, le)
    else SortFrom(2 * w, Pass(w, s, le), le)
  }

  function Sort<T>(s: seq<T>, le: (T, T) -> bool): seq<T> {
    SortFrom(1, s, le)
  }

  // ----- a permutation

  lemma {:induction false} MergePermutes<T>(a: seq<T>, b: seq<T>, le: (T, T) -> bool)
    ensures multiset(Merge(a, b, le)) == multiset(a) + multiset(b)
  {
    if a != [] && b != [] {
      if le(a[0], b[0]) {
        MergePermutes(a[1..], b, le);
        assert a == [a[0]] + a[1..];
      } else {
        MergePermutes(a, b[1..], le);
        assert b == [b[0]] + b[1..];
      }
    }
  }

  lemma TakeDrop<T>(w: nat, s: seq<T>)
    ensures Take(w, s) + Drop(w, s) == s
  {}

  lemma {:induction false} PassPermutes<T>(w: nat, s: seq<T>, le: (T, T) -> bool)
    requires w >= 1
    ensures multiset(Pass(w, s, le)) == multiset(s)
    decreases |s|
  {
    if s != [] {
      var a, b, rest := Take(w, s), Take(w, Drop(w, s)), Drop(w, Drop(w, s));
      MergePermutes(a, b, le);
      PassPermutes(w, rest, le);
      TakeDrop(w, s);
      TakeDrop(w, Drop(w, s));
    }
  }

  lemma PassWithin<T>(w: nat, s: seq<T>, le: (T, T) -> bool, u: set<T>)
    requires w >= 1 && Within(s, u)
    ensures Within(Pass(w, s, le), u)
  {
    PassPermutes(w, s, le);
    forall y | y in Pass(w, s, le)
      ensures y in s
    {
      assert y in multiset(Pass(w, s, le));
    }
  }

  lemma {:induction false} SortFromPermutes<T>(w: nat, s: seq<T>, le: (T, T) -> bool)
    requires w >= 1
    ensures multiset(SortFrom(w, s, le)) == multiset(s)
    decreases if |s| <= 2 * w then 0 else |s| - w
  {
    PassPermutes(w, s, le);
    if |s| > 2 * w {
      SortFromPermutes(2 * w, Pass(w, s, le), le);
    }
  }

  /** Sorting permutes the list, whatever the comparison. */
  lemma SortPermutes<T>(s: seq<T>, le: (T, T) -> bool)
    ensures multiset(Sort(s, le)) == multiset(s)
  {
    SortFromPermutes(1, s, le);
  }

  // ----- sorted

  ghost predicate Sorted<T>(s: seq<T>, le: (T, T) -> bool) {
    forall i, j :: 0 <= i < j < |s| ==> le(s[i], s[j])
  }

  /** Every run of w elements is sorted. */
  ghost predicate RunsSorted<T>(w: nat, s: seq<T>, le: (T, T) -> bool)
    requires w >= 1
    decreases |s|
  {
    s != [] ==> Sorted(Take(w, s), le) && RunsSorted(w, Drop(w, s), le)
  }

  lemma {:induction false} MergeBounds<T>(a: seq<T>, b: seq<T>, le: (T, T) -> bool, x: T)
    requires forall y :: y in a || y in b ==> le(x, y)
    ensures forall y :: y in Merge(a, b, le) ==> le(x, y)
  {
    if a != [] && b != [] {
      if le(a[0], b[0]) {
        MergeBounds(a[1..], b, le, x);
      } else {
        MergeBounds(a, b[1..], le, x);
      }
    }
  }

  lemma SortedCons<T>(x: T, s: seq<T>, le: (T, T) -> bool)
    requires Sorted(s, le) && forall y :: y in s ==> le(x, y)
    ensures Sorted([x] + s, le)
  {}

  lemma {:induction false} MergeSorted<T>(a: seq<T>, b: seq<T>, le: (T, T) -> bool, u: set<T>)
    requires TotalPreorder(le, u) && Within(a, u) && Within(b, u)
    requires Sorted(a, le) && Sorted(b, le)
    ensures Sorted(Merge(a, b, le), le)
  {
    if a != [] && b != [] {
      if le(a[0], b[0]) {
        MergeSorted(a[1..], b, le, u);
        forall y | y in a[1..] || y in b
          ensures le(a[0], y)
        {}
        MergeBounds(a[1..], b, le, a[0]);
        SortedCons(a[0], Merge(a[1..], b, le), le);
      } else {
        MergeSorted(a, b[1..], le, u);
        forall y | y in a || y in b[1..]
          ensures le(b[0], y)
        {}
        MergeBounds(a, b[1..], le, b[0]);
        SortedCons(b[0], Merge(a, b[1..], le), le);
      }
    }
  }

  lemma {:induction false} PassSorts<T>(w: nat, s: seq<T>, le: (T, T) -> bool, u: set<T>)
    requires w >= 1 && TotalPreorder(le, u) && Within(s, u) && RunsSorted(w, s, le)
    ensures RunsSorted(2 * w, Pass(w, s, le), le)
    decreases |s|
  {
    if s != [] {
      var a, b, rest := Take(w, s), Take(w, Drop(w, s)), Drop(w, Drop(w, s));
      assert RunsSorted(w, Drop(w, s), le);
      TakeDropWithin(w, s, u);
      TakeDropWithin(w, Drop(w, s), u);
      MergeSorted(a, b, le, u);
      PassSorts(w, rest, le, u);
      var m, p := Merge(a, b, le), Pass(w, rest, le);
      if rest == [] {
        assert m + p == m;
        assert Take(2 * w, m) == m && Drop(2 * w, m) == [];
      } else {
        assert |m| == 2 * w;
        assert Take(2 * w, m + p) == m && Drop(2 * w, m + p) == p;
      }
    }
  }

  lemma {:induction false} SortFromSorted<T>(w: nat, s: seq<T>, le: (T, T) -> bool, u: set<T>)
    requires w >= 1 && TotalPreorder(le, u) && Within(s, u) && RunsSorted(w, s, le)
    ensures Sorted(SortFrom(w, s, le), le)
    decreases if |s| <= 2 * w then 0 else |s| - w
  {
    PassSorts(w, s, le, u);
    if |s| > 2 * w {
      PassWithin(w, s, le, u);
      SortFromSorted(2 * w, Pass(w, s, le), le, u);
    } else {
      assert Take(2 * w, Pass(w, s, le)) == Pass(w, s, le);
    }
  }

  lemma {:induction false} SingletonRuns<T>(s: seq<T>, le: (T, T) -> bool)
    ensures RunsSorted(1, s, le)
    decreases |s|
  {
    if s != [] {
      SingletonRuns(Drop(1, s), le);
    }
  }

  /** The result is in order, for every comparison that is a total preorder. */
  lemma SortSorts<T>(s: seq<T>, le: (T, T) -> bool, u: set<T>)
    requires TotalPreorder(le, u) && Within(s, u)
    ensures Sorted(Sort(s, le), le)
  {
    SingletonRuns(s, le);
    SortFromSorted(1, s, le, u);
  }

  // ----- stable

  /** The elements of s that compare equal to x, in order. */
  function Ties<T>(x: T, s: seq<T>, le: (T, T) -> bool): seq<T> {
    if s == [] then []
    else if le(x, s[0]) && le(s[0], x) then [s[0]] + Ties(x, s[1..], le)
    else Ties(x, s[1..], le)
  }

  /** [y] if y is tied with x. */
  function Tie<T>(x: T, y: T, le: (T, T) -> bool): seq<T> {
    if le(x, y) && le(y, x) then [y] else []
  }

  lemma TiesFirst<T>(x: T, y: T, s: seq<T>, le: (T, T) -> bool)
    ensures Ties(x, [y] + s, le) == Tie(x, y, le) + Ties(x, s, le)
  {
    assert ([y] + s)[1..] == s;
  }

  lemma FirstAndRest<T>(s: seq<T>)
    requires s != []
    ensures s == [s[0]] + s[1..]
  {}

  lemma {:induction false} TiesAppend<T>(x: T, a: seq<T>, b: seq<T>, le: (T, T) -> bool)
    ensures Ties(x, a + b, le) == Ties(x, a, le) + Ties(x, b, le)
  {
    if a == [] {
      assert a + b == b;
    } else {
      hide Ties, Tie;
      TiesAppend(x, a[1..], b, le);
      FirstAndRest(a);
      ConcatAssociates([a[0]], a[1..], b);
      TiesFirst(x, a[0], a[1..] + b, le);
      TiesFirst(x, a[0], a[1..], le);
      ConcatAssociates(Tie(x, a[0], le), Ties(x, a[1..], le), Ties(x, b, le));
    }
  }

  lemma {:induction false} NoTies<T>(x: T, a: seq<T>, le: (T, T) -> bool)
    requires forall y :: y in a ==> !(le(x, y) && le(y, x))
    ensures Ties(x, a, le) == []
  {
    if a != [] {
      NoTies(x, a[1..], le);
    }
  }

  lemma {:induction false} MergeStable<T>(x: T, a: seq<T>, b: seq<T>, le: (T, T) -> bool, u: set<T>)
    requires x in u && TotalPreorder(le, u) && Within(a, u) && Within(b, u) && Sorted(a, le)
    ensures Ties(x, Merge(a, b, le), le) == Ties(x, a, le) + Ties(x, b, le)
  {
    if a != [] && b != [] {
      MergeTakes(a, b, le);
      FirstAndRest(a);
      FirstAndRest(b);
      TiesFirst(x, a[0], a[1..], le);
      TiesFirst(x, b[0], b[1..], le);
      if le(a[0], b[0]) {
        hide TotalPreorder, Ties, Tie, Merge;
        MergeStable(x, a[1..], b, le, u);
        TiesFirst(x, a[0], Merge(a[1..], b, le), le);
        ConcatAssociates(Tie(x, a[0], le), Ties(x, a[1..], le), Ties(x, b, le));
      } else {
        hide TotalPreorder, Ties, Merge;
        MergeStable(x, a, b[1..], le, u);
        TiesFirst(x, b[0], Merge(a, b[1..], le), le);
        if le(x, b[0]) && le(b[0], x) {
          RightTieIsFirst(x, a, b[0], le, u);
        }
      }
    }
  }

  lemma MergeTakes<T>(a: seq<T>, b: seq<T>, le: (T, T) -> bool)
    requires a != [] && b != []
    ensures Merge(a, b, le) == if le(a[0], b[0]) then [a[0]] + Merge(a[1..], b, le) else [b[0]] + Merge(a, b[1..], le)
  {}

  /** An element tied with x that goes before a sorted run means that none of the run is. */
  lemma RightTieIsFirst<T>(x: T, a: seq<T>, y: T, le: (T, T) -> bool, u: set<T>)
    requires x in u && y in u && TotalPreorder(le, u) && Within(a, u) && Sorted(a, le)
    requires a != [] && !le(a[0], y) && le(x, y) && le(y, x)
    ensures Ties(x, a, le) == []
  {
    forall z | z in a
      ensures !(le(x, z) && le(z, x))
    {
      assert le(a[0], z);
    }
    NoTies(x, a, le);
  }

  lemma {:induction false} PassStable<T>(x: T, w: nat, s: seq<T>, le: (T, T) -> bool, u: set<T>)
    requires x in u && w >= 1 && TotalPreorder(le, u) && Within(s, u) && RunsSorted(w, s, le)
    ensures Ties(x, Pass(w, s, le), le) == Ties(x, s, le)
    decreases |s|
  {
    if s != [] {
      var a, b, rest := Take(w, s), Take(w, Drop(w, s)), Drop(w, Drop(w, s));
      assert RunsSorted(w, Drop(w, s), le);
      TakeDropWithin(w, s, u);
      TakeDropWithin(w, Drop(w, s), u);
      var m, p := Merge(a, b, le), Pass(w, rest, le);
      assert Pass(w, s, le) == m + p && RunsSorted(w, rest, le) && Sorted(a, le);
      hide *;
      MergeStable(x, a, b, le, u);
      PassStable(x, w, rest, le, u);
      TiesAppend(x, m, p, le);
      TiesSplit(x, w, s, le);
      ConcatAssociates(Ties(x, a, le), Ties(x, b, le), Ties(x, rest, le));
    }
  }

  lemma ConcatAssociates<T>(a: seq<T>, b: seq<T>, c: seq<T>)
    ensures (a + b) + c == a + (b + c)
  {}

  lemma TiesSplit<T>(x: T, w: nat, s: seq<T>, le: (T, T) -> bool)
    ensures Ties(x, s, le) ==
      Ties(x, Take(w, s), le) + (Ties(x, Take(w, Drop(w, s)), le) + Ties(x, Drop(w, Drop(w, s)), le))
  {
    TakeDrop(w, s);
    TakeDrop(w, Drop(w, s));
    hide *;
    TiesAppend(x, Take(w, s), Drop(w, s), le);
    TiesAppend(x, Take(w, Drop(w, s)), Drop(w, Drop(w, s)), le);
  }

  lemma {:induction false} SortFromStable<T>(x: T, w: nat, s: seq<T>, le: (T, T) -> bool, u: set<T>)
    requires x in u && w >= 1 && TotalPreorder(le, u) && Within(s, u) && RunsSorted(w, s, le)
    ensures Ties(x, SortFrom(w, s, le), le) == Ties(x, s, le)
    decreases if |s| <= 2 * w then 0 else |s| - w
  {
    PassStable(x, w, s, le, u);
    if |s| > 2 * w {
      PassSorts(w, s, le, u);
      PassWithin(w, s, le, u);
      SortFromStable(x, 2 * w, Pass(w, s, le), le, u);
    }
  }

  /** Elements that compare equal keep their order. */
  lemma SortStable<T>(x: T, s: seq<T>, le: (T, T) -> bool, u: set<T>)
    requires x in u && TotalPreorder(le, u) && Within(s, u)
    ensures Ties(x, Sort(s, le), le) == Ties(x, s, le)
  {
    SingletonRuns(s, le);
    SortFromStable(x, 1, s, le, u);
  }

  // ----- the O(n log n) claim

  /** Comparisons made by the merge loop. */
  function MergeCost<T>(a: seq<T>, b: seq<T>, le: (T, T) -> bool): (n: nat) {
    if a == [] || b == [] then 0
    else if le(a[0], b[0]) then 1 + MergeCost(a[1..], b, le)
    else 1 + MergeCost(a, b[1..], le)
  }

  function PassCost<T>(w: nat, s: seq<T>, le: (T, T) -> bool): (n: nat)
    requires w >= 1
    decreases |s|
  {
    if s == [] then 0
    else MergeCost(Take(w, s), Take(w, Drop(w, s)), le) + PassCost(w, Drop(w, Drop(w, s)), le)
  }

  function SortCost<T>(w: nat, s: seq<T>, le: (T, T) -> bool): (n: nat)
    requires w >= 1
    decreases if |s| <= 2 * w then 0 else |s| - w
  {
    PassCost(w, s, le) + if |s| <= 2 * w then 0 else SortCost(2 * w, Pass(w, s, le), le)
  }

  /** Passes made over a list of n elements, from runs of w. */
  function Passes(w: nat, n: nat): (p: nat)
    requires w >= 1
    decreases if n <= 2 * w then 0 else n - w
  {
    if n <= 2 * w then 1 else 1 + Passes(2 * w, n)
  }

  /** The least k with n <= 2^k. */
  function CeilLog2(n: nat): nat {
    if n <= 1 then 0 else 1 + CeilLog2((n + 1) / 2)
  }

  lemma {:induction false} PassesHalve(w: nat, n: nat)
    requires w >= 1
    ensures Passes(2 * w, n) == Passes(w, (n + 1) / 2)
    decreases if n <= 4 * w then 0 else n - w
  {
    if n > 4 * w {
      PassesHalve(2 * w, n);
    }
  }

  /** A list of n elements takes max(1, ceil(log2 n)) passes. */
  lemma {:induction false} PassesAreLog(n: nat)
    ensures Passes(1, n) == if n <= 2 then 1 else CeilLog2(n)
  {
    if n > 2 {
      PassesHalve(1, n);
      PassesAreLog((n + 1) / 2);
    }
  }

  lemma {:induction false} MergeCostBound<T>(a: seq<T>, b: seq<T>, le: (T, T) -> bool)
    ensures MergeCost(a, b, le) <= |a| + |b|
    ensures a == [] || b == [] ==> MergeCost(a, b, le) == 0
    ensures a != [] && b != [] ==> MergeCost(a, b, le) < |a| + |b|
  {
    if a != [] && b != [] {
      if le(a[0], b[0]) {
        MergeCostBound(a[1..], b, le);
      } else {
        MergeCostBound(a, b[1..], le);
      }
    }
  }

  lemma {:induction false} PassCostBound<T>(w: nat, s: seq<T>, le: (T, T) -> bool)
    requires w >= 1
    ensures PassCost(w, s, le) <= |s| && (|s| <= 1 ==> PassCost(w, s, le) == 0)
    decreases |s|
  {
    if s != [] {
      MergeCostBound(Take(w, s), Take(w, Drop(w, s)), le);
      PassCostBound(w, Drop(w, Drop(w, s)), le);
    }
  }

  lemma {:induction false} SortCostBound<T>(w: nat, s: seq<T>, le: (T, T) -> bool)
    requires w >= 1
    ensures SortCost(w, s, le) <= |s| * Passes(w, |s|)
    decreases if |s| <= 2 * w then 0 else |s| - w
  {
    PassCostBound(w, s, le);
    var n := |s|;
    if n > 2 * w {
      var t, p := Pass(w, s, le), Passes(2 * w, n);
      SortCostBound(2 * w, t, le);
      OneMore(n, p);
      hide Pass, PassCost;
      assert Passes(w, n) == 1 + p;
    } else {
      hide Pass, PassCost;
      assert Passes(w, n) == 1;
    }
  }

  lemma OneMore(n: nat, p: nat)
    ensures n * (1 + p) == n + n * p
  {}

  /** At most n * ceil(log2 n) comparisons. */
  lemma SortIsNLogN<T>(s: seq<T>, le: (T, T) -> bool)
    ensures SortCost(1, s, le) <= |s| * CeilLog2(|s|)
  {
    SortCostBound(1, s, le);
    PassesAreLog(|s|);
    PassCostBound(1, s, le);
    if |s| == 2 {
      assert CeilLog2(2) == 1;
    }
  }
}
