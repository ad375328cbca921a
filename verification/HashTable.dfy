/** The hash table of uthash.h: bucket chains for lookup, a list in insertion order through the
    same nodes, and doubling expansion. The hash function is any function of the key. */
module HashTable {
  import opened Sequences
  import opened ListSort
  import opened HashChains
  import opened Words
  import MergeSpec

  const INITIAL_NUM_BUCKETS := 32
  const INITIAL_LOG2 := 5
  const CAPACITY_THRESH := 10

  ghost function Elems<K>(s: seq<Node<K>>): set<Node<K>> {
    set x | x in s
  }

  /** No two nodes have the same key. */
  ghost predicate Distinct<K>(s: seq<Node<K>>) {
    forall x, y :: x in s && y in s && x.data == y.data ==> x == y
  }

  /** The finite map a sequence of nodes stands for. */
  ghost function AsMap<K>(s: seq<Node<K>>): map<K, Node<K>> {
    if s == [] then map[] else AsMap(s[..|s| - 1])[s[|s| - 1].data := s[|s| - 1]]
  }

  lemma {:induction false} AsMapHolds<K>(s: seq<Node<K>>)
    ensures forall k {:trigger k in AsMap(s)} {:trigger AsMap(s)[k]} :: k in AsMap(s) ==>
      AsMap(s)[k] in s && AsMap(s)[k].data == k
    ensures forall x :: x in s ==> x.data in AsMap(s)
  {
    if s != [] {
      AsMapHolds(s[..|s| - 1]);
      assert s == s[..|s| - 1] + [s[|s| - 1]];
    }
  }

  lemma AsMapAdd<K>(s: seq<Node<K>>, x: Node<K>)
    requires Distinct(s) && x.data !in AsMap(s)
    ensures Distinct(s + [x]) && AsMap(s + [x]) == AsMap(s)[x.data := x]
    ensures x !in s
  {
    AsMapHolds(s);
    assert (s + [x])[..|s|] == s;
  }

  /** The chains hold exactly the items, each in the chain of its hash. */
  ghost predicate Filed<K>(items: seq<Node<K>>, chains: seq<seq<Node<K>>>, hash: K -> nat) {
    && Homed(chains, hash) && |chains| > 0
    && (forall x :: x in items ==> x in chains[Home(x, |chains|, hash)])
    && forall b {:trigger chains[b]} :: 0 <= b < |chains| ==> forall x :: x in chains[b] ==> x in items
  }

  lemma FiledPut<K>(items: seq<Node<K>>, x: Node<K>, chains: seq<seq<Node<K>>>, hash: K -> nat)
    requires Filed(items, chains, hash) && x !in items
    ensures Filed(items + [x], PutFront(chains, Home(x, |chains|, hash), x), hash)
  {
    var b := Home(x, |chains|, hash);
    PutFrontHomed(chains, b, x, hash);
  }

  lemma StillIn<K>(x: Node<K>, chains: seq<seq<Node<K>>>, to: seq<seq<Node<K>>>, hash: K -> nat)
    requires |chains| > 0 && x in chains[Home(x, |chains|, hash)] && Filled(to, chains, |chains|, hash)
    ensures x in to[Home(x, |to|, hash)]
  {
    HomeDoubles(x, |chains|, hash);
    PartMembers(chains[Home(x, |chains|, hash)], Home(x, |to|, hash), |to|, hash);
  }

  lemma ComesFrom<K>(b: nat, chains: seq<seq<Node<K>>>, to: seq<seq<Node<K>>>, hash: K -> nat)
    requires b < |to| && Filled(to, chains, |chains|, hash)
    ensures forall x :: x in to[b] ==> x in chains[if b < |chains| then b else b - |chains|]
  {
    PartMembers(chains[if b < |chains| then b else b - |chains|], b, |to|, hash);
  }

  lemma FiledDoubled<K>(items: seq<Node<K>>, chains: seq<seq<Node<K>>>, to: seq<seq<Node<K>>>, hash: K -> nat)
    requires Filed(items, chains, hash) && Filled(to, chains, |chains|, hash) && Homed(to, hash)
    ensures Filed(items, to, hash)
  {
    assert |to| == 2 * |chains|;
    hide Filled, Homed, Home;
    forall x | x in items
      ensures x in to[Home(x, |to|, hash)]
    {
      StillIn(x, chains, to, hash);
    }
    forall b {:trigger to[b]} | 0 <= b < |to|
      ensures forall x :: x in to[b] ==> x in items
    {
      ComesFrom(b, chains, to, hash);
    }
  }

  lemma FiledHomed<K>(items: seq<Node<K>>, chains: seq<seq<Node<K>>>, hash: K -> nat)
    requires Filed(items, chains, hash)
    ensures Homed(chains, hash) && |chains| > 0
  {}

  lemma MovedAll<K>(bks: seq<Bucket<K>>, ideal: nat, nonideal: nat, chains: seq<seq<Node<K>>>, zone: set<Node<K>>,
                    hash: K -> nat)
    requires ideal > 0 && Moving(bks, ideal, nonideal, [], chains, zone, hash)
    ensures Hung(bks, chains, zone) && Homed(chains, hash) && Hashed(zone, hash)
    ensures Multiples(bks, chains, ideal) && nonideal == Excess(chains, ideal) && |chains| == |bks|
  {}

  /** q is n / d rounded up. */
  predicate Ceiling(q: nat, n: nat, d: nat) {
    n <= q * d && (q > 0 ==> (q - 1) * d < n)
  }

  lemma DivCeiling(n: nat, d: nat)
    requires d > 0
    ensures Ceiling(n / d + if n % d != 0 then 1 else 0, n, d)
    ensures n > 0 ==> n / d + (if n % d != 0 then 1 else 0) > 0
  {
    var q := n / d;
    assert n == q * d + n % d;
    assert (q + 1) * d == q * d + d;
    assert q > 0 ==> (q - 1) * d == q * d - d;
  }

  /** The expansion's shift and mask: the number of nodes per bucket, rounded up. */
  function IdealLength(n: nat, k: nat): nat {
    Shr(n, k) + if And(n, Pow2(k) - 1) != 0 then 1 else 0
  }

  lemma IdealIsCeiling(n: nat, k: nat)
    ensures Ceiling(IdealLength(n, k), n, Pow2(k))
    ensures n > 0 ==> IdealLength(n, k) > 0
  {
    LowBits(n, k);
    ShrDivides(n, k);
    DivCeiling(n, Pow2(k));
  }

  /** The buckets, a power of two in number, hold the items, all of them in nodes. */
  ghost predicate Stored<K>(items: seq<Node<K>>, nodes: set<Node<K>>, bks: seq<Bucket<K>>, chains: seq<seq<Node<K>>>,
                            numBuckets: nat, log2: nat, hash: K -> nat)
    reads nodes`hhNext, nodes`hhPrev, nodes`hashv
  {
    && numBuckets == |chains| == Pow2(log2)
    && Hung(bks, chains, nodes) && Filed(items, chains, hash) && Hashed(nodes, hash)
  }

  lemma StoredFacts<K>(items: seq<Node<K>>, nodes: set<Node<K>>, bks: seq<Bucket<K>>, chains: seq<seq<Node<K>>>,
                       numBuckets: nat, log2: nat, hash: K -> nat)
    requires Stored(items, nodes, bks, chains, numBuckets, log2, hash)
    ensures numBuckets == |chains| == |bks| == Pow2(log2) > 0
    ensures Hung(bks, chains, nodes) && Homed(chains, hash) && Filed(items, chains, hash) && Hashed(nodes, hash)
  {}

  lemma StoredDoubled<K>(items: seq<Node<K>>, nodes: set<Node<K>>, was: seq<seq<Node<K>>>, bks: seq<Bucket<K>>,
                         to: seq<seq<Node<K>>>, numBuckets: nat, log2: nat, ideal: nat, nonideal: nat, hash: K -> nat)
    requires Filed(items, was, hash) && |was| == numBuckets == Pow2(log2)
    requires ideal > 0 && Moving(bks, ideal, nonideal, [], to, nodes, hash) && Filled(to, was, |was|, hash)
    ensures Stored(items, nodes, bks, to, numBuckets * 2, log2 + 1, hash)
    ensures Multiples(bks, to, ideal) && nonideal == Excess(to, ideal) && |to| == |bks| == 2 * numBuckets
  {
    hide Filed, Hung, Homed;
    MovedAll(bks, ideal, nonideal, to, nodes, hash);
    FiledDoubled(items, was, to, hash);
    Pow2Double(log2 + 1);
  }

  /** Append to the list in insertion order. */
  method LinkLast<K>(tail: Node<K>, add: Node<K>, ghost q: seq<Node<K>>)
    requires q != [] && tail == q[|q| - 1] && add !in q && IsList(q, Handle) && add.next == null
    modifies tail`next, add`prev
    ensures IsList(q + [add], Handle)
  {
    tail.next := add;
    add.prev := tail;
  }

  lemma MinusMembers<K>(s: seq<Node<K>>, x: Node<K>)
    requires x in s && NoDup(s)
    ensures forall y :: y in Minus(s, x) <==> y in s && y != x
    ensures NoDup(Minus(s, x)) && (Distinct(s) ==> Distinct(Minus(s, x)))
  {
    var i := Index(s, x);
    forall y | y in s && y != x
      ensures y in Minus(s, x)
    {
      var k := Index(s, y);
      assert Minus(s, x)[if k < i then k else k - 1] == y;
    }
  }

  lemma AsMapMinus<K>(s: seq<Node<K>>, x: Node<K>)
    requires x in s && NoDup(s) && Distinct(s)
    ensures AsMap(Minus(s, x)) == AsMap(s) - {x.data}
  {
    var r := Minus(s, x);
    MinusMembers(s, x);
    hide AsMap, Minus, NoDup;
    AsMapHolds(s);
    AsMapHolds(r);
    var a, b := AsMap(r), AsMap(s) - {x.data};
    forall k | k in a
      ensures k in b && a[k] == b[k]
    {
      assert a[k] in r;
    }
    forall k | k in b
      ensures k in a
    {
      assert AsMap(s)[k] in r;
    }
  }

  lemma AsMapPermuted<K>(s: seq<Node<K>>, r: seq<Node<K>>)
    requires multiset(r) == multiset(s) && Distinct(s)
    ensures Distinct(r) && AsMap(r) == AsMap(s) && Elems(r) == Elems(s)
  {
    assert forall x :: x in r <==> x in multiset(r);
    assert forall x :: x in s <==> x in multiset(s);
    assert Distinct(r);
    hide AsMap;
    AsMapHolds(s);
    AsMapHolds(r);
    var a, b := AsMap(r), AsMap(s);
    forall k | k in a
      ensures k in b && a[k] == b[k]
    {
      assert a[k] in s;
    }
    forall k | k in b
      ensures k in a
    {
      assert b[k] in r;
    }
  }

  lemma FiledPermuted<K>(s: seq<Node<K>>, r: seq<Node<K>>, chains: seq<seq<Node<K>>>, hash: K -> nat)
    requires Filed(s, chains, hash) && Elems(r) == Elems(s)
    ensures Filed(r, chains, hash)
  {
    assert forall x :: x in r <==> x in Elems(r);
    assert forall x :: x in s <==> x in Elems(s);
  }

  lemma HomedMinus<K>(x: Node<K>, chains: seq<seq<Node<K>>>, b: nat, hash: K -> nat)
    requires Homed(chains, hash) && b < |chains| && x in chains[b]
    ensures Homed(chains[b := Minus(chains[b], x)], hash)
  {
    MinusMembers(chains[b], x);
    hide Minus, Home, NoDup;
  }

  lemma FiledMinus<K>(items: seq<Node<K>>, x: Node<K>, chains: seq<seq<Node<K>>>, hash: K -> nat)
    requires Filed(items, chains, hash) && x in items && NoDup(items)
    ensures var b := Home(x, |chains|, hash);
      (x in chains[b] && Filed(Minus(items, x), chains[b := Minus(chains[b], x)], hash)
       && forall y :: y in chains[b] ==> y in items)
  {
    hide Minus, Home;
    var b := Home(x, |chains|, hash);
    assert NoDup(chains[b]);
    HomedMinus(x, chains, b, hash);
    MinusMembers(items, x);
    MinusMembers(chains[b], x);
    hide NoDup;
    NotElsewhere(x, chains, hash);
    hide Homed;
  }

  lemma NotElsewhere<K>(x: Node<K>, chains: seq<seq<Node<K>>>, hash: K -> nat)
    requires Homed(chains, hash) && |chains| > 0
    ensures forall b {:trigger chains[b]} :: 0 <= b < |chains| && b != Home(x, |chains|, hash) ==> x !in chains[b]
  {}

  lemma HungAmong<K>(bks: seq<Bucket<K>>, chains: seq<seq<Node<K>>>, zone: set<Node<K>>, items: seq<Node<K>>,
                     hash: K -> nat)
    requires Hung(bks, chains, zone) && Filed(items, chains, hash)
    ensures Hung(bks, chains, Elems(items))
  {}

  /** Take the node at i out of the list in insertion order. */
  method Unlink<K>(head: Node<K>, tail: Node<K>, del: Node<K>, ghost i: nat,
                   ghost q: seq<Node<K>>) returns (head': Node?<K>, tail': Node?<K>)
    requires IsList(q, Handle) && i < |q| && del == q[i] && head == q[0] && tail == q[|q| - 1]
    modifies (if i > 0 then {q[i - 1]} else {})`next, (if i + 1 < |q| then {q[i + 1]} else {})`prev
    ensures IsList(Without(q, i), Handle) && head' == First(Without(q, i)) && tail' == Last(Without(q, i))
  {
    head', tail' := head, tail;
    assert del.prev == if i > 0 then q[i - 1] else null;
    assert del.next == if i + 1 < |q| then q[i + 1] else null;
    if del == tail {
      tail' := del.prev;
    }
    if del.prev != null {
      del.prev.next := del.next;
    } else {
      head' := del.next;
    }
    if del.next != null {
      del.next.prev := del.prev;
    }
    ghost var r := Without(q, i);
    assert NoDup(r);
    assert Chain(r, null);
    hide NoDup, Chain;
  }

  /** The number of nodes in all chains. */
  ghost function Total<K>(chains: seq<seq<Node<K>>>): nat {
    if chains == [] then 0 else Total(chains[..|chains| - 1]) + |chains[|chains| - 1]|
  }

  lemma TotalStep<K>(chains: seq<seq<Node<K>>>, i: nat)
    requires i < |chains|
    ensures Total(chains[..i + 1]) == Total(chains[..i]) + |chains[i]|
  {
    assert chains[..i + 1][..i] == chains[..i];
  }

  lemma {:induction false} ElemsSize<K>(s: seq<Node<K>>)
    requires NoDup(s)
    ensures |Elems(s)| == |s|
  {
    if s != [] {
      var r := s[..|s| - 1];
      ElemsSize(r);
      assert s == r + [s[|s| - 1]];
      assert Elems(s) == Elems(r) + {s[|s| - 1]};
    }
  }

  /** The nodes of the first i chains are as many as their lengths say. */
  lemma {:induction false} TotalFiled<K>(chains: seq<seq<Node<K>>>, i: nat, nodes: set<Node<K>>, hash: K -> nat)
    requires i <= |chains| && |chains| > 0 && Homed(chains, hash)
    requires forall b {:trigger chains[b]} :: 0 <= b < |chains| ==>
      forall x :: x in chains[b] <==> x in nodes && Home(x, |chains|, hash) == b
    ensures Total(chains[..i]) == |Moved(nodes, |chains|, i, hash)|
  {
    if i == 0 {
      assert Moved(nodes, |chains|, i, hash) == {};
    } else {
      TotalFiled(chains, i - 1, nodes, hash);
      TotalStep(chains, i - 1);
      ElemsSize(chains[i - 1]);
      var a, b := Moved(nodes, |chains|, i - 1, hash), Elems(chains[i - 1]);
      assert Moved(nodes, |chains|, i, hash) == a + b && a !! b;
    }
  }

  /** Every node is in exactly one chain. */
  lemma AllFiled<K>(items: seq<Node<K>>, chains: seq<seq<Node<K>>>, hash: K -> nat)
    requires Filed(items, chains, hash) && NoDup(items)
    ensures Total(chains) == |items|
  {
    TotalFiled(chains, |chains|, Elems(items), hash);
    AllMoved(Elems(items), |chains|, hash);
    ElemsSize(items);
    assert chains[..|chains|] == chains;
  }

  lemma NothingStored<K>(nodes: set<Node<K>>, bks: seq<Bucket<K>>, chains: seq<seq<Node<K>>>, hash: K -> nat)
    requires Hashed(nodes, hash) && |bks| == |chains| == INITIAL_NUM_BUCKETS
    requires forall b :: 0 <= b < |bks| ==> bks[b] == Bucket(null, 0, 0) && chains[b] == []
    ensures Stored([], nodes, bks, chains, INITIAL_NUM_BUCKETS, INITIAL_LOG2, hash)
  {
    assert Pow2(1) == 2 && Pow2(2) == 4 && Pow2(3) == 8 && Pow2(4) == 16 && Pow2(5) == 32;
  }

  method NewBuckets<K>(n: nat) returns (bs: array<Bucket<K>>)
    ensures fresh(bs) && bs.Length == n
    ensures forall b :: 0 <= b < n ==> bs[b] == Bucket(null, 0, 0)
  {
    bs := new Bucket<K>[n](_ => Bucket(null, 0, 0));
  }

  /** The chains are spread over twice as many buckets if the one added to was full, and are
      else as they were. */
  ghost predicate Grown<K>(to: seq<seq<Node<K>>>, from: seq<seq<Node<K>>>, full: bool, hash: K -> nat) {
    if full then Filled(to, from, |from|, hash) else to == from
  }

  /** What an expansion that leaves n nodes in these buckets records: the ideal chain length is
      n over the number of buckets, rounded up; the nodes past it are counted; and a bucket's
      multiple is how many times over it is. */
  ghost predicate Statistics<K>(bks: seq<Bucket<K>>, chains: seq<seq<Node<K>>>, n: nat, ideal: nat, nonideal: nat) {
    && ideal > 0 && Ceiling(ideal, n, |chains|)
    && nonideal == Excess(chains, ideal) && Multiples(bks, chains, ideal)
  }

  /** The links forward run from the head through c. */
  ghost predicate Runs<K>(head: Node?<K>, c: seq<Node<K>>)
    reads c`hhNext
  {
    && head == First(c)
    && forall i {:trigger c[i].hhNext} :: 0 <= i < |c| ==> c[i].hhNext == if i + 1 < |c| then c[i + 1] else null
  }

  /** The links back of the first n nodes. */
  ghost predicate BackTo<K>(c: seq<Node<K>>, n: nat)
    requires n <= |c|
    reads c`hhPrev
  {
    forall i {:trigger c[i].hhPrev} :: 0 <= i < n ==> c[i].hhPrev == if i > 0 then c[i - 1] else null
  }

  /** The chains once a node is taken out of them. */
  ghost function Cut<K>(chains: seq<seq<Node<K>>>, del: Node<K>, hash: K -> nat): seq<seq<Node<K>>> {
    if |chains| > 0 && del in chains[Home(del, |chains|, hash)] then
      chains[Home(del, |chains|, hash) := Minus(chains[Home(del, |chains|, hash)], del)]
    else chains
  }

  class Table<K(==)> {
    const hash: K -> nat
    var head: Node?<K>
    var tail: Node?<K>
    var buckets: array<Bucket<K>>
    var numBuckets: nat
    var log2: nat
    var numItems: nat
    var ideal: nat
    var nonideal: nat
    var ineff: nat
    var noexpand: bool
    ghost var order: seq<Node<K>>
    ghost var chains: seq<seq<Node<K>>>

    /** The buckets hold the items, all of them among the nodes in order. */
    ghost predicate InTable(items: seq<Node<K>>)
      reads this, buckets, order
    {
      && buckets.Length == |chains|
      && Stored(items, Elems(order), buckets[..], chains, numBuckets, log2, hash)
      && ineff <= 2 && (noexpand <==> ineff > 1)
    }

    /** HASH_FSCK's conditions, unique keys, and each item in the chain of its hash. A table
        with no items does not exist: its head is null. */
    ghost predicate Valid()
      reads this, buckets, order
    {
      && IsList(order, Handle) && Distinct(order) && head == First(order)
      && (order != [] ==> tail == Last(order) && numItems == |order| && InTable(order))
    }

    ghost function Map(): map<K, Node<K>>
      reads this
    {
      AsMap(order)
    }

    constructor (hash: K -> nat)
      ensures Valid() && order == [] && this.hash == hash
    {
      this.hash := hash;
      head, tail, order, chains := null, null, [], [];
      buckets := new Bucket<K>[0];
    }

    /** The expansion multiples are as before. */
    twostate predicate SameMultiples()
      reads this, buckets
    {
      && buckets == old(buckets)
      && forall k :: 0 <= k < buckets.Length ==> buckets[k].expandMult == old(buckets[k]).expandMult
    }

    /** Size and statistics are as before. */
    twostate predicate SameStatistics()
      reads this, buckets
    {
      && SameMultiples() && numBuckets == old(numBuckets) && log2 == old(log2)
      && ideal == old(ideal) && nonideal == old(nonideal) && ineff == old(ineff) && noexpand == old(noexpand)
    }

    /** An expansion has been counted: one more in a row that did not help, or none. */
    twostate predicate Counted()
      reads this, buckets
    {
      && Statistics(buckets[..], chains, numItems, ideal, nonideal)
      && ineff == if nonideal > numItems / 2 then old(ineff) + 1 else 0
    }

    /** HASH_FIND */
    method Find(key: K) returns (out: Node?<K>)
      requires Valid()
      ensures out == if key in Map() then Map()[key] else null
    {
      out := null;
      AsMapHolds(order);
      if head != null {
        LowBits(hash(key), log2);
        var b := And(hash(key), numBuckets - 1);
        out := FindInBucket(buckets[b], key, chains[b]);
      }
    }

    /** The new buckets of HASH_EXPAND_BUCKETS and what it counts while filling them. */
    method Refill() returns (into: array<Bucket<K>>, length: nat, late: nat, ghost to: seq<seq<Node<K>>>)
      requires InTable(order) && numItems == |order| > 0
      modifies order`hhNext, order`hhPrev
      ensures fresh(into) && into.Length == |to|
      ensures Stored(order, Elems(order), into[..], to, numBuckets * 2, log2 + 1, hash)
      ensures Filled(to, chains, |chains|, hash) && Statistics(into[..], to, numItems, length, late)
    {
      hide IdealLength, Ceiling, Filled, Filed, Stored, Homed, Hung, Hashed, Pow2, And, Multiples, Excess, Moving;
      ghost var zone := Elems(order);
      StoredFacts(order, zone, buckets[..], chains, numBuckets, log2, hash);
      into := NewBuckets(2 * numBuckets);
      IdealIsCeiling(numItems, log2 + 1);
      Pow2Double(log2 + 1);
      length := IdealLength(numItems, log2 + 1);
      late, to := Redistribute(buckets, into, log2 + 1, length, chains, zone, hash);
      StoredDoubled(order, zone, chains, into[..], to, numBuckets, log2, length, late, hash);
    }

    /** HASH_EXPAND_BUCKETS */
    method Expand()
      requires InTable(order) && numItems == |order| > 0 && !noexpand
      modifies this`buckets, this`numBuckets, this`log2, this`ideal, this`nonideal, this`ineff, this`noexpand,
               this`chains, order`hhNext, order`hhPrev
      ensures InTable(order) && fresh(buckets)
      ensures Filled(chains, old(chains), old(|chains|), hash)
      ensures numBuckets == 2 * old(numBuckets) && log2 == old(log2) + 1
      ensures Statistics(buckets[..], chains, numItems, ideal, nonideal)
      ensures ineff == if nonideal > numItems / 2 then old(ineff) + 1 else 0
    {
      hide Filled, Stored, Statistics;
      var into;
      ghost var to;
      into, ideal, nonideal, to := Refill();
      numBuckets, log2, buckets, chains := numBuckets * 2, log2 + 1, into, to;
      ineff := if nonideal > numItems / 2 then ineff + 1 else 0;
      if ineff > 1 {
        noexpand := true;
      }
    }

    /** HASH_ADD_TO_BKT: count the node in at the front of bucket b, and expand when the count
        reaches a multiple of the threshold and expansion is not given up. */
    method AddToBucket(add: Node<K>, b: nat, ghost items: seq<Node<K>>)
      requires InTable(items) && order == items + [add] && add !in items && numItems == |order|
      requires add.hashv == hash(add.data) && b == Home(add, |chains|, hash)
      modifies this`buckets, this`numBuckets, this`log2, this`ideal, this`nonideal, this`ineff, this`noexpand,
               this`chains, buckets, order`hhNext, order`hhPrev
      ensures InTable(order)
      ensures var put := PutFront(old(chains), b, add);
        if |put[b]| >= (old(buckets[b]).expandMult + 1) * CAPACITY_THRESH && !old(noexpand) then
          Filled(chains, put, |put|, hash) && numBuckets == 2 * old(numBuckets) && Counted() && fresh(buckets)
        else
          chains == put && SameStatistics()
    {
      hide Ceiling, Filled, Homed, Hashed, Pow2, Multiples, Excess, Statistics;
      ghost var zone := Elems(order);
      StoredFacts(items, zone, buckets[..], chains, numBuckets, log2, hash);
      assert add in order && add !in chains[b] && (chains[b] != [] ==> chains[b][0] in chains[b]);
      assert Hang(buckets[b], chains[b]);
      FiledPut(items, add, chains, hash);
      Push(buckets, b, add, chains, zone, hash);
      chains := PutFront(chains, b, add);
      hide Hung, Filed, Home, Hang;
      assert Stored(order, zone, buckets[..], chains, numBuckets, log2, hash);
      if buckets[b].count >= (buckets[b].expandMult + 1) * CAPACITY_THRESH && !noexpand {
        Expand();
      }
    }

    /** The chains a node is added to: c, or those of a new table if there are no items. */
    static ghost function Base(items: seq<Node<K>>, c: seq<seq<Node<K>>>): (r: seq<seq<Node<K>>>)
      ensures |r| > 0
    {
      if items == [] || c == [] then seq(INITIAL_NUM_BUCKETS, _ => []) else c
    }

    ghost function Before(): (c: seq<seq<Node<K>>>)
      ensures |c| > 0
      reads this
    {
      Base(order, chains)
    }

    /** With n nodes bucket b is filled to the threshold, and expansion is not given up. */
    ghost predicate Fills(b: nat, n: nat)
      reads this, buckets
    {
      b < buckets.Length && !noexpand && n >= (buckets[b].expandMult + 1) * CAPACITY_THRESH
    }

    /** Adding the node fills its bucket. */
    ghost predicate Full(add: Node<K>)
      reads this, buckets
    {
      && |chains| == buckets.Length > 0
      && var b := Home(add, |chains|, hash);
      Fills(b, |chains[b]| + 1)
    }

    /** The node was put in front of its chain among those that were, which had no node before
        if anew: the buckets are doubled, with the statistics of that, if this filled its bucket,
        and else size and statistics are as they were. */
    twostate predicate Joined(new add: Node<K>, was: seq<seq<Node<K>>>, anew: bool)
      requires |was| > 0
      reads this, buckets
    {
      && var b := Home(add, |was|, hash);
      && var full := !anew && old(Fills(b, |was[b]| + 1));
      && Grown(chains, PutFront(was, b, add), full, hash)
      && if anew then ideal == nonideal == ineff == 0 else if full then Counted() else SameStatistics()
    }

    /** The node added stands at the end of the insertion order, in no bucket yet. */
    ghost predicate Appended(add: Node<K>, items: seq<Node<K>>)
      reads this, buckets, order, add
    {
      && order == items + [add] && add !in items && IsList(order, Handle) && head == First(order) && tail == add
      && add.hashv == hash(add.data) && InTable(items)
    }

    /** HASH_MAKE_TABLE */
    method MakeTable()
      requires head != null
      modifies this
      ensures head == old(head) && order == old(order)
      ensures tail == head && numItems == 0 && !noexpand && ideal == nonideal == ineff == 0 && fresh(buckets)
      ensures buckets.Length == |chains| == numBuckets == INITIAL_NUM_BUCKETS && log2 == INITIAL_LOG2
      ensures (forall b :: 0 <= b < |chains| ==> buckets[b] == Bucket(null, 0, 0))
      ensures chains == seq(INITIAL_NUM_BUCKETS, _ => [])
    {
      tail := head;
      numBuckets, log2 := INITIAL_NUM_BUCKETS, INITIAL_LOG2;
      buckets := NewBuckets(INITIAL_NUM_BUCKETS);
      numItems, ideal, nonideal, ineff, noexpand := 0, 0, 0, 0, false;
      chains := seq(INITIAL_NUM_BUCKETS, _ => []);
    }

    /** The first node: its table is made with it. */
    method AppendFirst(add: Node<K>)
      requires order == []
      modifies this, add
      ensures Appended(add, []) && fresh(buckets) && chains == old(Before()) && numItems == 0 && !Full(add)
      ensures ideal == nonideal == ineff == 0
    {
      hide Stored;
      add.next := null;
      add.hashv := hash(add.data);
      head := add;
      add.prev := null;
      MakeTable();
      order := [add];
      NothingStored({add}, buckets[..], chains, hash);
      assert Elems(order) == {add};
      assert [add] == [] + [add];
    }

    /** A further node. */
    method AppendLast(add: Node<K>)
      requires Valid() && order != [] && add !in order
      modifies this`tail, this`order, order`next, add
      ensures Appended(add, old(order)) && (Full(add) <==> old(Full(add)))
    {
      hide Filed, Pow2;
      ghost var items := order;
      assert tail in order;
      add.next := null;
      add.hashv := hash(add.data);
      LinkLast(tail, add, order);
      tail := add;
      order := items + [add];
      assert Elems(order) == Elems(items) + {add};
      assert Stored(items, Elems(order), buckets[..], chains, numBuckets, log2, hash);
    }

    /** Put the node at the end of the insertion order, in a new table if there is none. */
    method Append(add: Node<K>)
      requires Valid() && add !in order
      modifies this, order`next, add
      ensures Appended(add, old(order)) && numItems == |old(order)|
      ensures chains == old(Before()) && (buckets == old(buckets) || fresh(buckets))
      ensures Full(add) <==> old(order != [] && Full(add))
      ensures old(order) == [] ==> ideal == nonideal == ineff == 0
      ensures old(order) != [] ==> SameStatistics()
    {
      hide Full;
      if head == null {
        AppendFirst(add);
      } else {
        hide Stored, Distinct, IsList;
        AppendLast(add);
      }
    }

    /** Count the node appended and put it in its bucket. */
    method FileLast(add: Node<K>, ghost items: seq<Node<K>>)
      requires Appended(add, items) && numItems == |items|
      modifies this`numItems, this`buckets, this`numBuckets, this`log2, this`ideal, this`nonideal, this`ineff,
               this`noexpand, this`chains, buckets, order`hhNext, order`hhPrev
      ensures InTable(order) && numItems == |order| && IsList(order, Handle)
      ensures Grown(chains, PutFront(old(chains), Home(add, old(|chains|), hash), add), old(Full(add)), hash)
      ensures if old(Full(add)) then Counted() && fresh(buckets) else SameStatistics()
    {
      hide Stored, Distinct, Statistics, Filled;
      numItems := numItems + 1;
      StoredFacts(items, Elems(order), buckets[..], chains, numBuckets, log2, hash);
      LowBits(add.hashv, log2);
      var b := And(add.hashv, numBuckets - 1);
      AddToBucket(add, b, items);
    }

    /** HASH_ADD_KEYPTR, of a key that is absent. */
    method Add(add: Node<K>)
      requires Valid() && add.data !in Map()
      modifies this, buckets, order`next, order`hhNext, order`hhPrev, add
      ensures Valid() && order == old(order) + [add]
      ensures Map() == old(Map())[add.data := add]
      ensures Joined(add, old(Before()), old(order) == [])
      ensures buckets == old(buckets) || fresh(buckets)
    {
      hide Stored, AsMap, Distinct, Filled, Home, IsList, Grown, Fills;
      AsMapAdd(order, add);
      ghost var items := order;
      Append(add);
      hide InTable;
      FileLast(add, items);
    }

    /** Add a node for a key that is absent. */
    method AddNew(key: K) returns (e: Node<K>)
      requires Valid() && key !in Map()
      modifies this, buckets, order`next, order`hhNext, order`hhPrev
      ensures Valid() && fresh(e) && e.data == key && order == old(order) + [e] && Map() == old(Map())[key := e]
      ensures buckets == old(buckets) || fresh(buckets)
      ensures Joined(e, old(Before()), old(order) == [])
    {
      hide AsMap, Grown, Statistics, Home, PutFront;
      e := new Node(key);
      hide Valid;
      assert Valid();
      Add(e);
    }

    /** Look a key up, and add a node for it if there is none. */
    method FindOrAdd(key: K) returns (e: Node<K>)
      requires Valid()
      modifies this, buckets, order`next, order`hhNext, order`hhPrev
      ensures Valid() && e.data == key
      ensures key in old(Map()) ==>
        e == old(Map())[key] && order == old(order) && Map() == old(Map()) && chains == old(chains)
      ensures buckets == old(buckets) || fresh(buckets)
      ensures key !in old(Map()) ==> fresh(e) && order == old(order) + [e] && Map() == old(Map())[key := e]
      ensures key in old(Map()) ==> SameStatistics()
      ensures key !in old(Map()) ==> Joined(e, old(Before()), old(order) == [])
    {
      hide Valid, AsMap, Statistics, Home, Grown, Fills, Base;
      AsMapHolds(order);
      var out := Find(key);
      if out == null {
        e := AddNew(key);
      } else {
        e := out;
      }
    }

    /** The bucket half of HASH_DELETE: take the node out of its chain and the count. */
    method Unfile(del: Node<K>)
      requires InTable(order) && numItems == |order| && del in order && NoDup(order)
      modifies this`numItems, this`chains, buckets, order`hhNext, order`hhPrev
      ensures Stored(Minus(order, del), Elems(Minus(order, del)), buckets[..], chains, numBuckets, log2, hash)
      ensures buckets.Length == |chains|
      ensures numItems == |order| - 1
      ensures del in old(chains)[Home(del, old(|chains|), hash)] && chains == Cut(old(chains), del, hash)
      ensures SameMultiples()
    {
      hide Filed, Homed, Pow2, And, Minus;
      LowBits(del.hashv, log2);
      var b := And(del.hashv, numBuckets - 1);
      FiledHomed(order, chains, hash);
      FiledMinus(order, del, chains, hash);
      assert forall k :: 0 <= k < |chains[b]| ==> chains[b][k] in chains[b];
      DelInBucket(buckets, b, del, Index(chains[b], del), chains, Elems(order), hash);
      MinusIs(chains[b], del);
      chains := chains[b := Minus(chains[b], del)];
      hide Home, Hung;
      HungAmong(buckets[..], chains, Elems(order), Minus(order, del), hash);
      numItems := numItems - 1;
    }

    /** The list half of HASH_DELETE. */
    method UnlinkNode(del: Node<K>)
      requires IsList(order, Handle) && head == First(order) && tail == Last(order) && del in order && InTable(order)
      modifies this`head, this`tail, order`next, order`prev
      ensures IsList(Minus(order, del), Handle) && head == First(Minus(order, del)) && tail == Last(Minus(order, del))
      ensures InTable(order)
    {
      hide Filed, Pow2;
      ghost var i := Index(order, del);
      assert i > 0 ==> order[i - 1] in order;
      assert i + 1 < |order| ==> order[i + 1] in order;
      head, tail := Unlink(head, tail, del, i, order);
      assert Stored(order, Elems(order), buckets[..], chains, numBuckets, log2, hash);
    }

    /** The same, once the node is out of the list. */
    method UnfileUnlinked(del: Node<K>)
      requires InTable(order) && numItems == |order| && del in order && NoDup(order)
      requires IsList(Minus(order, del), Handle)
      modifies this`numItems, this`chains, this`order, buckets, order`hhNext, order`hhPrev
      ensures order == Minus(old(order), del) && IsList(order, Handle)
      ensures numItems == |order| && InTable(order)
      ensures chains == Cut(old(chains), del, hash) && SameMultiples()
    {
      hide Stored, Distinct, Minus;
      ghost var rest := Minus(order, del);
      assert forall k :: 0 <= k < |rest| ==> rest[k] in rest;
      Unfile(del);
      order := rest;
    }

    /** HASH_DELETE of one node among several. */
    method DeleteOne(del: Node<K>)
      requires IsList(order, Handle) && head == First(order) && tail == Last(order) && numItems == |order|
      requires InTable(order) && del in order
      modifies this`head, this`tail, this`numItems, this`chains, this`order, buckets, order`next, order`prev,
        order`hhNext, order`hhPrev
      ensures order == Minus(old(order), del) && IsList(order, Handle) && head == First(order) && tail == Last(order)
      ensures numItems == |order| && InTable(order)
      ensures chains == Cut(old(chains), del, hash) && SameMultiples()
    {
      hide Stored, Distinct, Minus;
      assert NoDup(order);
      hide IsList;
      UnlinkNode(del);
      UnfileUnlinked(del);
    }

    /** HASH_DELETE. The last node takes the table with it. */
    method Delete(del: Node<K>)
      requires Valid() && del in order
      modifies this, buckets, order`next, order`prev, order`hhNext, order`hhPrev
      ensures Valid() && order == Minus(old(order), del) && Map() == old(Map()) - {del.data}
      ensures SameMultiples() && (order != [] ==> chains == Cut(old(chains), del, hash))
      ensures unchanged(this`numBuckets, this`log2, this`ideal, this`nonideal, this`ineff, this`noexpand)
    {
      hide Stored, AsMap, Distinct, Cut, Minus, InTable;
      ghost var items := order;
      AsMapMinus(items, del);
      MinusMembers(items, del);
      if del.prev == null && del.next == null {
        head := null;
        assert |items| == 1;
        order := [];
      } else {
        hide IsList;
        DeleteOne(del);
      }
    }

    /** The node left order and chain, and the other was added to what there then was. */
    twostate predicate Exchanged(new del: Node<K>, new add: Node<K>)
      reads this, buckets
    {
      var rest := Minus(old(order), del);
      order == rest + [add] && Joined(add, Base(rest, Cut(old(chains), del, hash)), rest == [])
    }

    /** HASH_REPLACE */
    method Replace(add: Node<K>) returns (replaced: Node?<K>)
      requires Valid() && add !in order
      modifies this, buckets, order`next, order`prev, order`hhNext, order`hhPrev, add
      ensures Valid() && Map() == old(Map())[add.data := add]
      ensures replaced == if add.data in old(Map()) then old(Map())[add.data] else null
      ensures if add.data in old(Map()) then Exchanged(old(Map())[add.data], add)
        else order == old(order) + [add] && Joined(add, old(Before()), old(order) == [])
      ensures buckets == old(buckets) || fresh(buckets)
    {
      hide AsMap, Grown, InTable, IsList, Distinct, Minus, Cut;
      AsMapHolds(order);
      replaced := Find(add.data);
      if replaced == null {
        Add(add);
      } else {
        Exchange(replaced, add);
      }
    }

    /** HASH_REPLACE of a node that is present. */
    method Exchange(del: Node<K>, add: Node<K>)
      requires Valid() && add !in order && del in order && del.data == add.data
      modifies this, buckets, order`next, order`prev, order`hhNext, order`hhPrev, add
      ensures Valid() && Map() == old(Map())[add.data := add] && Exchanged(del, add)
      ensures buckets == old(buckets) || fresh(buckets)
    {
      hide AsMap, Grown, InTable, IsList, Distinct, Minus, Cut;
      Delete(del);
      assert forall k :: 0 <= k < |order| ==> order[k] in old(order);
      Add(add);
    }

    method SortLinks(le: (Node<K>, Node<K>) -> bool)
      requires IsList(order, Handle) && head == First(order) && order != []
      modifies this`head, this`tail, order`next, order`prev
      ensures IsList(MergeSpec.Sort(order, le), Handle) && head == First(MergeSpec.Sort(order, le))
      ensures tail == Last(MergeSpec.Sort(order, le))
    {
      var h, t;
      ghost var passes, cost;
      h, t, passes, cost := SortList(head, Handle, le, order, Elems(order));
      head, tail := h, t;
    }

    /** The list half of HASH_SRT. */
    method SortOrder(le: (Node<K>, Node<K>) -> bool)
      requires IsList(order, Handle) && head == First(order) && order != [] && InTable(order)
      modifies this`head, this`tail, order`next, order`prev
      ensures IsList(MergeSpec.Sort(order, le), Handle) && head == First(MergeSpec.Sort(order, le))
      ensures tail == Last(MergeSpec.Sort(order, le))
      ensures InTable(order)
    {
      hide Filed, Pow2, IsList;
      SortLinks(le);
      assert Stored(order, Elems(order), buckets[..], chains, numBuckets, log2, hash);
    }

    /** HASH_SRT: the insertion order is sorted; the buckets do not change. */
    method SortBy(le: (Node<K>, Node<K>) -> bool)
      requires Valid()
      modifies this`head, this`tail, this`order, order`next, order`prev
      ensures Valid() && order == MergeSpec.Sort(old(order), le) && Map() == old(Map())
    {
      hide AsMap, Distinct, IsList, Filed;
      ghost var s, r := order, MergeSpec.Sort(order, le);
      MergeSpec.SortPermutes(s, le);
      AsMapPermuted(s, r);
      if head != null {
        SortOrder(le);
        FiledPermuted(s, r, chains, hash);
      }
      order := r;
    }

    /** HASH_CLEAR */
    method Clear()
      requires Valid()
      modifies this`head, this`order
      ensures Valid() && order == [] && Map() == map[]
    {
      head, order := null, [];
    }

    /** All nodes of the table. */
    ghost function Nodes(): (r: set<Node<K>>)
      ensures forall b {:trigger chains[b]} :: 0 <= b < |chains| ==> forall x :: x in chains[b] ==> x in r
      reads this
    {
      (set b, x | 0 <= b < |chains| && x in chains[b] :: x) + Elems(order)
    }

    /** The links forward, at least, come to an end: those of bucket b run through chain b, those
        of the list through the order. */
    ghost predicate Walkable()
      reads this, buckets, Nodes()`hhNext, Nodes()`next
    {
      && head == First(order) && Chain(order, null)
      && (head != null ==>
           && numBuckets == buckets.Length == |chains|
           && forall b {:trigger chains[b]} :: 0 <= b < |chains| ==> Runs(buckets[b].head, chains[b]))
    }

    /** The links back, the counts of the buckets and the count of items agree with them. */
    ghost predicate Agrees()
      reads this, buckets, Nodes()
    {
      head != null ==>
        && |chains| == buckets.Length
        && (forall b {:trigger chains[b]} :: 0 <= b < |chains| ==> Hang(buckets[b], chains[b]))
        && Total(chains) == numItems == |order| && Back(order, Handle)
    }

    lemma ValidAgrees()
      requires Valid()
      ensures Walkable() && Agrees()
    {
      if head != null {
        AllFiled(order, chains, hash);
        forall b {:trigger chains[b]} | 0 <= b < |chains|
          ensures Hang(buckets[b], chains[b])
        {
          assert Hang(buckets[..][b], chains[b]);
        }
      }
    }

    /** HASH_FSCK's walk down one bucket. */
    method CheckBucket(b: nat) returns (ok: bool, count: nat)
      requires b < buckets.Length == |chains| && Runs(buckets[b].head, chains[b])
      ensures count == |chains[b]| && (ok <==> Hang(buckets[b], chains[b]))
    {
      ok, count := true, 0;
      var thh: Node?<K>, prev: Node?<K> := buckets[b].head, null;
      while thh != null
        invariant count <= |chains[b]|
        invariant thh == (if count < |chains[b]| then chains[b][count] else null)
        invariant prev == if count > 0 then chains[b][count - 1] else null
        invariant ok <==> BackTo(chains[b], count)
        decreases |chains[b]| - count
      {
        if prev != thh.hhPrev {
          ok := false;
        }
        count := count + 1;
        prev := thh;
        thh := thh.hhNext;
      }
      if buckets[b].count != count {
        ok := false;
      }
    }

    /** HASH_FSCK's walk in insertion order. */
    method CheckOrder() returns (ok: bool, count: nat)
      requires head == First(order) && Chain(order, null)
      ensures count == |order| && (ok <==> Back(order, Handle))
    {
      ok, count := true, 0;
      var thh: Node?<K>, prev: Node?<K> := head, null;
      while thh != null
        invariant count <= |order|
        invariant thh == (if count < |order| then order[count] else null)
        invariant prev == if count > 0 then order[count - 1] else null
        invariant ok <==> forall k {:trigger order[k].prev} :: 0 <= k < count ==>
          order[k].prev == if k > 0 then order[k - 1] else null
        decreases |order| - count
      {
        count := count + 1;
        if prev != thh.prev {
          ok := false;
        }
        prev := thh;
        thh := thh.next;
      }
    }

    /** HASH_FSCK finds out exactly whether they agree. */
    method Fsck() returns (ok: bool)
      requires Walkable()
      ensures ok <==> Agrees()
    {
      ok := true;
      if head != null {
        hide IsList, Hang, Chain, Back;
        var i, count := 0, 0;
        while i < numBuckets
          invariant i <= numBuckets && count == Total(chains[..i])
          invariant ok <==> forall b {:trigger chains[b]} :: 0 <= b < i ==> Hang(buckets[b], chains[b])
        {
          var fine, n := CheckBucket(i);
          ok := ok && fine;
          count := count + n;
          TotalStep(chains, i);
          i := i + 1;
        }
        assert chains[..numBuckets] == chains;
        if count != numItems {
          ok := false;
        }
        var fine, n := CheckOrder();
        ok := ok && fine;
        if n != numItems {
          ok := false;
        }
      }
    }
  }
}
