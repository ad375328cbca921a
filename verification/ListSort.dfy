/** The in-place list sorts: LL_SORT2, DL_SORT2 and CDL_SORT2 of utlist.h, and HASH_SRT of
    uthash.h, which are one algorithm with different link repair. */
module ListSort {
  import opened Sequences
  import opened MergeSpec

  /** A list element: its data, the list links, and, when it is in a hash table, the bucket
      links and hash value of its handle. */
  class Node<T> {
    const data: T
    var prev: Node?<T>
    var next: Node?<T>
    var hhPrev: Node?<T>
    var hhNext: Node?<T>
    var hashv: nat

    constructor (data: T)
      ensures this.data == data && prev == null && next == null && hhPrev == null && hhNext == null
    {
      this.data := data;
      prev, next, hhPrev, hhNext, hashv := null, null, null, null, 0;
    }
  }

  datatype Kind = Single | Double | Circular | Handle

  /** The `next` links run through q and leave it for `end`. */
  ghost predicate Chain<T>(q: seq<Node<T>>, end: Node?<T>)
    reads q`next
  {
    forall i {:trigger q[i].next} :: 0 <= i < |q| ==> q[i].next == if i + 1 < |q| then q[i + 1] else end
  }

  /** The `next` links inside q. */
  ghost predicate Inner<T>(q: seq<Node<T>>)
    reads q`next
  {
    forall i {:trigger q[i].next} :: 0 <= i < |q| - 1 ==> q[i].next == q[i + 1]
  }

  /** The `prev` links inside q; the first node's is null. */
  ghost predicate Back<T>(q: seq<Node<T>>, kind: Kind)
    reads q`prev
  {
    kind != Single ==>
      forall i {:trigger q[i].prev} :: 0 <= i < |q| ==> q[i].prev == if i > 0 then q[i - 1] else null
  }

  function First<T>(q: seq<Node<T>>): Node?<T> { if q == [] then null else q[0] }

  function Last<T>(q: seq<Node<T>>): Node?<T> { if q == [] then null else q[|q| - 1] }

  /** Where the last node's `next` points. */
  function End<T>(q: seq<Node<T>>, kind: Kind): Node?<T> {
    if kind == Circular then First(q) else null
  }

  /** q is a list of the given kind, all links in place. */
  ghost predicate IsList<T>(q: seq<Node<T>>, kind: Kind)
    reads q`next, q`prev
  {
    && NoDup(q)
    && Chain(q, End(q, kind))
    && (kind != Single ==> forall i {:trigger q[i].prev} :: 0 < i < |q| ==> q[i].prev == q[i - 1])
    && (q != [] && kind != Single ==> q[0].prev == if kind == Handle then null else Last(q))
  }

  ghost predicate Disjoint<T>(a: seq<Node<T>>, b: seq<Node<T>>) {
    forall x :: x in a ==> x !in b
  }

  /** The node after x; a circular list ends before its old head. */
  method After<T>(x: Node<T>, kind: Kind, oldhead: Node?<T>) returns (n: Node?<T>)
    ensures n == if kind == Circular && x.next == oldhead then null else x.next
  {
    n := if kind == Circular && x.next == oldhead then null else x.next;
  }

  /** tail->next = e or list = e; e->prev = tail. */
  method Append<T>(list: Node?<T>, tail: Node?<T>, e: Node<T>, kind: Kind,
                   ghost out: seq<Node<T>>) returns (list': Node?<T>)
    requires NoDup(out) && e !in out && Inner(out) && Back(out, kind)
    requires list == First(out) && tail == Last(out)
    modifies (if tail == null then {} else {tail})`next, e`prev
    ensures NoDup(out + [e]) && Inner(out + [e]) && Back(out + [e], kind)
    ensures list' == First(out + [e])
    ensures e.next == old(e.next)
  {
    list' := list;
    if tail != null {
      tail.next := e;
    } else {
      list' := e;
    }
    if kind != Single {
      e.prev := tail;
    }
  }

  /** What a merge has still to place: the left run, and the right run with all behind it;
      in a circular list the old head, which `end` is, is not ahead. */
  ghost predicate Pending<T>(out: seq<Node<T>>, left: seq<Node<T>>, right: seq<Node<T>>, end: Node?<T>, kind: Kind,
                             nodes: set<Node<T>>)
    reads nodes
  {
    && (forall x :: x in out ==> x in nodes) && (forall x :: x in left ==> x in nodes)
         && (forall x :: x in right ==> x in nodes)
    && NoDup(out) && NoDup(left) && NoDup(right)
    && Disjoint(out, left) && Disjoint(out, right) && Disjoint(left, right)
    && Inner(out) && Back(out, kind) && Inner(left) && Chain(right, end)
    && (kind != Circular ==> end == null)
    && (kind == Circular ==> end != null && end !in right && forall i :: 0 < i < |left| ==> left[i] != end)
  }

  /** The merge loop's cursors stand at the runs they should. */
  ghost predicate Cursors<T>(out: seq<Node<T>>, left: seq<Node<T>>, right: seq<Node<T>>,
                             list: Node?<T>, tail: Node?<T>, p: Node?<T>, q: Node?<T>, psize: nat) {
    && list == First(out) && tail == Last(out)
    && psize == |left| && (left != [] ==> p == left[0])
    && q == First(right)
  }

  /** Move e, the first of the left run or of the right one, to the end of the output. */
  method Place<T>(list: Node?<T>, tail: Node?<T>, e: Node<T>, kind: Kind, fromLeft: bool,
                  ghost out: seq<Node<T>>, ghost left: seq<Node<T>>, ghost right: seq<Node<T>>, ghost end: Node?<T>,
                  ghost nodes: set<Node<T>>)
      returns (list': Node?<T>)
    requires Pending(out, left, right, end, kind, nodes)
    requires if fromLeft then left != [] && e == left[0] else right != [] && e == right[0]
    requires list == First(out) && tail == Last(out)
    modifies (if tail == null then {} else {tail})`next, e`prev
    ensures list' == First(out + [e])
    ensures Pending(out + [e], if fromLeft then left[1..] else left, if fromLeft then right else right[1..],
                    end, kind, nodes)
  {
    assert e !in out && (e in left || e in right);
    assert tail != null ==> tail in out && tail !in left && tail !in right;
    if fromLeft {
      TailChains(left, null);
      assert e !in left[1..] && tail !in left[1..];
    } else {
      TailChains(right, end);
      assert e !in right[1..] && tail !in right[1..];
    }
    list' := Append(list, tail, e, kind, out);
    if fromLeft {
      assert Pending(out + [e], left[1..], right, end, kind, nodes);
    } else {
      assert Pending(out + [e], left, right[1..], end, kind, nodes);
    }
  }

  lemma TailChains<T>(q: seq<Node<T>>, end: Node?<T>)
    requires q != [] && (Inner(q) || Chain(q, end))
    ensures Inner(q) ==> Inner(q[1..])
    ensures Chain(q, end) ==> Chain(q[1..], end)
    ensures NoDup(q) ==> NoDup(q[1..]) && q[0] !in q[1..]
  {
    forall i | 0 <= i < |q| - 1
      ensures q[1..][i] == q[i + 1]
    {}
  }

  /** Count the left run off from p. */
  method CountRun<T>(p: Node<T>, w: nat, kind: Kind, oldhead: Node?<T>, ghost rest: seq<Node<T>>, ghost end: Node?<T>)
      returns (q: Node?<T>, psize: nat)
    requires rest != [] && p == rest[0] && Chain(rest, end) && w >= 1
    requires kind == Circular ==> end == oldhead && oldhead != null && oldhead !in rest[1..]
    requires kind != Circular ==> end == null
    ensures psize == |Take(w, rest)| && q == First(Drop(w, rest))
  {
    q, psize := p, 0;
    var i := 0;
    while i < w && q != null
      invariant 0 <= i == psize <= w && psize <= |rest|
      invariant q == if psize < |rest| then rest[psize] else null
    {
      psize := psize + 1;
      assert psize < |rest| ==> rest[psize] in rest[1..] by {
        assert psize < |rest| ==> rest[1..][psize - 1] == rest[psize];
      }
      q := After(q, kind, oldhead);
      i := i + 1;
    }
  }

  /** Which run the merge takes its next node from. */
  predicate FromLeft<T>(left: seq<T>, right: seq<T>, qsize: nat, le: (T, T) -> bool) {
    left != [] && (qsize == 0 || right == [] || le(left[0], right[0]))
  }

  lemma MergeStep<T>(left: seq<T>, right: seq<T>, qsize: nat, le: (T, T) -> bool, compared: nat)
    requires left != [] || (qsize > 0 && right != [])
    requires compared == if left != [] && qsize > 0 && right != [] then 1 else 0
    ensures if FromLeft(left, right, qsize, le) then
        && Merge(left, Take(qsize, right), le) == [left[0]] + Merge(left[1..], Take(qsize, right), le)
        && MergeCost(left, Take(qsize, right), le) == compared + MergeCost(left[1..], Take(qsize, right), le)
      else
        && qsize > 0 && right != []
        && Merge(left, Take(qsize, right), le) == [right[0]] + Merge(left, Take(qsize - 1, right[1..]), le)
        && MergeCost(left, Take(qsize, right), le) == compared + MergeCost(left, Take(qsize - 1, right[1..]), le)
        && Drop(qsize - 1, right[1..]) == Drop(qsize, right)
  {
    var run := Take(qsize, right);
    if qsize > 0 && right != [] {
      assert run[0] == right[0] && run[1..] == Take(qsize - 1, right[1..]);
    }
  }

  /** One turn of the merge loop. It calls `le` `compared` times. */
  method MergeOne<T>(list: Node?<T>, tail: Node?<T>, p: Node?<T>, q: Node?<T>, psize: nat, qsize: nat, kind: Kind,
                     oldhead: Node?<T>,
                     le: (Node<T>, Node<T>) -> bool, ghost out: seq<Node<T>>, ghost left: seq<Node<T>>,
                     ghost right: seq<Node<T>>,
                     ghost nodes: set<Node<T>>)
      returns (list': Node?<T>, tail': Node?<T>, p': Node?<T>, q': Node?<T>, psize': nat, qsize': nat,
               ghost compared: nat)
    requires Pending(out, left, right, if kind == Circular then oldhead else null, kind, nodes)
    requires Cursors(out, left, right, list, tail, p, q, psize)
    requires psize > 0 || (qsize > 0 && q != null)
    modifies nodes`next, nodes`prev
    ensures var fromLeft := FromLeft(left, right, qsize, le);
      && (!fromLeft ==> right != [] && qsize > 0)
      && qsize' == (if fromLeft then qsize else qsize - 1)
      && var out' := out + [if fromLeft then left[0] else right[0]];
      && var left', right' := if fromLeft then left[1..] else left, if fromLeft then right else right[1..];
      && Pending(out', left', right', if kind == Circular then oldhead else null, kind, nodes)
      && Cursors(out', left', right', list', tail', p', q', psize')
    ensures compared == if left != [] && qsize > 0 && right != [] then 1 else 0
  {
    var e: Node<T>, fromLeft;
    compared := 0;
    if psize == 0 {
      e, fromLeft := q, false;
    } else if qsize == 0 || q == null {
      e, fromLeft := p, true;
    } else {
      fromLeft := le(p, q);
      compared := compared + 1;
      e := if fromLeft then p else q;
    }
    assert e in left || e in right;
    assert tail != null ==> tail in out;
    var n := After(e, kind, oldhead);
    list' := Place(list, tail, e, kind, fromLeft, out, left, right, if kind == Circular then oldhead else null, nodes);
    tail' := e;
    p', q', psize', qsize' := p, q, psize, qsize;
    if fromLeft {
      p', psize' := n, psize - 1;
    } else {
      q', qsize' := n, qsize - 1;
    }
  }

  /** Between two merges: the output so far, and the list still to go, from its old head or
      past it. */
  ghost predicate Ready<T>(out: seq<Node<T>>, rest: seq<Node<T>>, end: Node?<T>, kind: Kind, nodes: set<Node<T>>)
    reads nodes
  {
    && (forall x :: x in out ==> x in nodes) && (forall x :: x in rest ==> x in nodes)
    && NoDup(out) && NoDup(rest) && Disjoint(out, rest)
    && Inner(out) && Back(out, kind) && Chain(rest, end)
    && (kind != Circular ==> end == null)
    && (kind == Circular ==> end != null && (rest != [] ==> end !in rest[1..]))
  }

  lemma ReadySplits<T>(out: seq<Node<T>>, rest: seq<Node<T>>, end: Node?<T>, kind: Kind, nodes: set<Node<T>>, w: nat)
    requires Ready(out, rest, end, kind, nodes) && w >= 1 && rest != []
    ensures Pending(out, Take(w, rest), Drop(w, rest), end, kind, nodes)
  {
    var left, right := Take(w, rest), Drop(w, rest);
    assert forall i :: 0 <= i < |right| ==> right[i] == rest[w + i];
    assert forall i :: 0 < i < |rest| ==> rest[i] == rest[1..][i - 1];
    assert Inner(left);
    assert Chain(right, end);
    assert forall x :: x in left ==> x in rest;
    assert forall x :: x in right ==> x in rest;
    if kind == Circular {
      forall i | 0 <= i < |right|
        ensures right[i] != end
      {
        assert right[i] == rest[1..][w + i - 1];
      }
    }
  }

  lemma PendingReady<T>(out: seq<Node<T>>, rest: seq<Node<T>>, end: Node?<T>, kind: Kind, nodes: set<Node<T>>)
    requires Pending(out, [], rest, end, kind, nodes)
    ensures Ready(out, rest, end, kind, nodes)
  {
    assert kind == Circular && rest != [] ==> end !in rest[1..];
  }

  /** Merge the run of w nodes at p with the one after it, at the end of the output. */
  method MergeRuns<T>(list: Node?<T>, tail: Node?<T>, p: Node<T>, w: nat, kind: Kind, oldhead: Node?<T>,
                      le: (Node<T>, Node<T>) -> bool, ghost out: seq<Node<T>>, ghost rest: seq<Node<T>>,
                      ghost nodes: set<Node<T>>)
      returns (list': Node?<T>, tail': Node?<T>, q: Node?<T>, ghost out': seq<Node<T>>, ghost cost: nat)
    requires w >= 1 && rest != []
    requires Ready(out, rest, if kind == Circular then oldhead else null, kind, nodes)
    requires list == First(out) && tail == Last(out) && p == rest[0]
    modifies nodes`next, nodes`prev
    ensures out' == out + Merge(Take(w, rest), Take(w, Drop(w, rest)), le)
    ensures Ready(out', Drop(w, Drop(w, rest)), if kind == Circular then oldhead else null, kind, nodes)
    ensures list' == First(out') && tail' == Last(out') && q == First(Drop(w, Drop(w, rest)))
    ensures cost == MergeCost(Take(w, rest), Take(w, Drop(w, rest)), le)
  {
    var psize;
    ReadySplits(out, rest, if kind == Circular then oldhead else null, kind, nodes, w);
    q, psize := CountRun(p, w, kind, oldhead, rest, if kind == Circular then oldhead else null);
    var qsize := w;
    var p': Node?<T> := p;
    ghost var left, right := Take(w, rest), Drop(w, rest);
    list', tail', out', cost := list, tail, out, 0;
    ghost var goal, costs := out + Merge(left, Take(w, right), le), MergeCost(left, Take(w, right), le);
    while psize > 0 || (qsize > 0 && q != null)
      invariant Pending(out', left, right, if kind == Circular then oldhead else null, kind, nodes)
      invariant Cursors(out', left, right, list', tail', p', q, psize)
      invariant out' + Merge(left, Take(qsize, right), le) == goal
      invariant cost + MergeCost(left, Take(qsize, right), le) == costs
      invariant Drop(qsize, right) == Drop(w, Drop(w, rest))
      decreases psize + qsize
    {
      hide Pending, Merge, MergeCost, Take, Drop;
      ghost var fromLeft, size := FromLeft(left, right, qsize, le), qsize;
      ghost var compared;
      list', tail', p', q, psize, qsize, compared :=
        MergeOne(list', tail', p', q, psize, qsize, kind, oldhead, le, out', left, right, nodes);
      MergeStep(left, right, size, le, compared);
      cost := cost + compared;
      ghost var e := if fromLeft then left[0] else right[0];
      if fromLeft {
        left := left[1..];
      } else {
        right := right[1..];
      }
      ConcatAssociates(out', [e], Merge(left, Take(qsize, right), le));
      out' := out' + [e];
    }
    PendingReady(out', right, if kind == Circular then oldhead else null, kind, nodes);
  }

  /** The links that close the list after a pass. */
  method CloseList<T>(list: Node<T>, tail: Node<T>, kind: Kind, ghost q: seq<Node<T>>)
    requires q != [] && NoDup(q) && Inner(q) && Back(q, kind) && list == q[0] && tail == q[|q| - 1]
    modifies list`prev, tail`next
    ensures IsList(q, kind)
  {
    if kind == Double || kind == Circular {
      list.prev := tail;
    }
    tail.next := if kind == Circular then list else null;
  }

  lemma PassStep<T>(w: nat, rest: seq<T>, out: seq<T>, le: (T, T) -> bool)
    requires w >= 1 && rest != []
    ensures out + Pass(w, rest, le) ==
      out + Merge(Take(w, rest), Take(w, Drop(w, rest)), le) + Pass(w, Drop(w, Drop(w, rest)), le)
    ensures PassCost(w, rest, le) ==
      MergeCost(Take(w, rest), Take(w, Drop(w, rest)), le) + PassCost(w, Drop(w, Drop(w, rest)), le)
    ensures |Drop(w, Drop(w, rest))| < |rest|
  {
    ConcatAssociates(out, Merge(Take(w, rest), Take(w, Drop(w, rest)), le), Pass(w, Drop(w, Drop(w, rest)), le));
  }

  lemma DropTwice<T>(w: nat, s: seq<T>)
    requires w >= 1
    ensures |Drop(w, Drop(w, s))| > 0 <==> |s| > 2 * w
  {}

  /** The middle loop: merge the runs of w nodes pairwise, counting the merges. */
  method MergeAll<T>(head: Node<T>, w: nat, kind: Kind, le: (Node<T>, Node<T>) -> bool, ghost s: seq<Node<T>>,
                     ghost nodes: set<Node<T>>)
      returns (list: Node?<T>, tail: Node?<T>, nmerges: nat, ghost out: seq<Node<T>>, ghost cost: nat)
    requires w >= 1 && s != [] && head == s[0] && Ready([], s, if kind == Circular then head else null, kind, nodes)
    modifies nodes`next, nodes`prev
    ensures Ready(out, [], if kind == Circular then head else null, kind, nodes)
    ensures out == Pass(w, s, le) && list == First(out) && tail == Last(out)
    ensures nmerges <= 1 <==> |s| <= 2 * w
    ensures cost == PassCost(w, s, le)
  {
    hide Pass, PassCost, Take, Drop, Merge, MergeCost, Ready;
    var p: Node?<T> := head;
    list, tail, nmerges, cost := null, null, 0, 0;
    ghost var end := if kind == Circular then head else null;
    ghost var goal, goalCost, rest := Pass(w, s, le), PassCost(w, s, le), s;
    out := [];
    StartPass(w, s, le);
    DropTwice(w, s);
    while p != null
      invariant Ready(out, rest, end, kind, nodes)
      invariant list == First(out) && tail == Last(out) && p == First(rest)
      invariant out + Pass(w, rest, le) == goal
      invariant cost + PassCost(w, rest, le) == goalCost
      invariant nmerges == 0 ==> rest == s
      invariant nmerges == 1 ==> rest == Drop(w, Drop(w, s))
      invariant nmerges >= 2 ==> |s| > 2 * w
      decreases |rest|
    {
      PassStep(w, rest, out, le);
      nmerges := nmerges + 1;
      ghost var d;
      list, tail, p, out, d := MergeRuns(list, tail, p, w, kind, head, le, out, rest, nodes);
      rest, cost := Drop(w, Drop(w, rest)), cost + d;
    }
    EndPass(w, rest, out, le);
  }

  /** One pass over the list: the body of the outer loop. */
  method RunPass<T>(head: Node<T>, w: nat, kind: Kind, le: (Node<T>, Node<T>) -> bool, ghost s: seq<Node<T>>,
                    ghost nodes: set<Node<T>>)
      returns (list: Node<T>, tail: Node<T>, nmerges: nat, ghost cost: nat)
    requires w >= 1 && s != [] && head == s[0] && NoDup(s) && Chain(s, End(s, kind))
    requires forall x :: x in s ==> x in nodes
    modifies nodes`next, nodes`prev
    ensures IsList(Pass(w, s, le), kind) && list == Pass(w, s, le)[0] && tail == Pass(w, s, le)[|s| - 1]
    ensures forall x :: x in Pass(w, s, le) ==> x in nodes
    ensures nmerges <= 1 <==> |s| <= 2 * w
    ensures cost == PassCost(w, s, le)
  {
    hide Pass, PassCost;
    PassPermutes(w, s, le);
    var l: Node?<T>, t: Node?<T>;
    ghost var out;
    l, t, nmerges, out, cost := MergeAll(head, w, kind, le, s, nodes);
    list, tail := l, t;
    CloseList(list, tail, kind, out);
  }

  lemma StartPass<T>(w: nat, s: seq<T>, le: (T, T) -> bool)
    requires w >= 1
    ensures [] + Pass(w, s, le) == Pass(w, s, le)
  {}

  lemma EndPass<T>(w: nat, rest: seq<T>, out: seq<T>, le: (T, T) -> bool)
    requires w >= 1 && rest == []
    ensures out + Pass(w, rest, le) == out && PassCost(w, rest, le) == 0
  {}

  /** The sort: passes over runs of 1, 2, 4, ... until a single merge covers the list. */
  method SortList<T>(head: Node?<T>, kind: Kind, le: (Node<T>, Node<T>) -> bool, ghost s: seq<Node<T>>,
                     ghost nodes: set<Node<T>>)
      returns (list: Node?<T>, tail: Node?<T>, ghost passes: nat, ghost cost: nat)
    requires head == First(s) && NoDup(s) && Chain(s, End(s, kind)) && forall x :: x in s ==> x in nodes
    modifies nodes`next, nodes`prev
    ensures IsList(Sort(s, le), kind)
    ensures list == First(Sort(s, le)) && (s != [] ==> tail == Last(Sort(s, le)))
    ensures passes == (if s == [] then 0 else Passes(1, |s|)) && cost == SortCost(1, s, le)
  {
    hide Pass, PassCost, SortFrom, SortCost, Passes, Chain, NoDup;
    list, tail, passes, cost := head, null, 0, 0;
    if list == null {
      NothingToSort(s, kind, le);
      return;
    }
    var insize, looping := 1, true;
    ghost var cur, n := s, |s|;
    ghost var goal, goalPasses, goalCost := SortFrom(1, s, le), Passes(1, n), SortCost(1, s, le);
    while looping
      invariant insize >= 1 && |cur| == n && list == First(cur) && NoDup(cur) && Chain(cur, End(cur, kind))
      invariant forall x :: x in cur ==> x in nodes
      invariant goal == if looping then SortFrom(insize, cur, le) else cur
      invariant goalPasses == passes + if looping then Passes(insize, n) else 0
      invariant goalCost == cost + if looping then SortCost(insize, cur, le) else 0
      invariant !looping ==> IsList(cur, kind) && tail == Last(cur)
      decreases looping, if n <= 2 * insize then 0 else n - insize
    {
      SortStep(insize, cur, le);
      var nmerges;
      ghost var c;
      list, tail, nmerges, c := RunPass(list, insize, kind, le, cur, nodes);
      passes, cost := passes + 1, cost + c;
      cur := Pass(insize, cur, le);
      if nmerges <= 1 {
        looping := false;
      }
      insize := insize * 2;
    }
  }

  lemma NothingToSort<T>(s: seq<Node<T>>, kind: Kind, le: (Node<T>, Node<T>) -> bool)
    requires s == []
    ensures IsList(Sort(s, le), kind) && Sort(s, le) == [] && SortCost(1, s, le) == 0
  {}

  lemma SortStep<T>(w: nat, s: seq<T>, le: (T, T) -> bool)
    requires w >= 1
    ensures |Pass(w, s, le)| == |s| && multiset(Pass(w, s, le)) == multiset(s)
    ensures SortFrom(w, s, le) == if |s| <= 2 * w then Pass(w, s, le) else SortFrom(2 * w, Pass(w, s, le), le)
    ensures SortCost(w, s, le) == PassCost(w, s, le) + if |s| <= 2 * w then 0 else SortCost(2 * w, Pass(w, s, le), le)
    ensures Passes(w, |s|) == 1 + if |s| <= 2 * w then 0 else Passes(2 * w, |s|)
  {
    PassPermutes(w, s, le);
  }
}
