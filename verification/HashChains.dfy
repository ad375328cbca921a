/** The bucket chains of a hash table: HASH_FIND_IN_BKT, HASH_DEL_IN_BKT, the linking half of
    HASH_ADD_TO_BKT, and the redistribution loops of HASH_EXPAND_BUCKETS. */
module HashChains {
  import opened Sequences
  import opened ListSort
  import opened Words

  datatype Bucket<K> = Bucket(head: Node?<K>, count: nat, expandMult: nat)

  /** The bucket of a node among n. */
  function Home<K>(x: Node<K>, n: nat, hash: K -> nat): (b: nat)
    requires n > 0
    ensures b < n
  {
    hash(x.data) % n
  }

  /** A bucket's head, count and links hold the chain c. */
  ghost predicate Hang<K>(bk: Bucket<K>, c: seq<Node<K>>)
    reads c`hhNext, c`hhPrev
  {
    && bk.head == First(c) && bk.count == |c|
    && (forall i {:trigger c[i].hhNext} :: 0 <= i < |c| ==> c[i].hhNext == if i + 1 < |c| then c[i + 1] else null)
    && (forall i {:trigger c[i].hhPrev} :: 0 <= i < |c| ==> c[i].hhPrev == if i > 0 then c[i - 1] else null)
  }

  /** Each bucket holds its chain, all of nodes in zone. */
  ghost predicate Hung<K>(bks: seq<Bucket<K>>, chains: seq<seq<Node<K>>>, zone: set<Node<K>>)
    reads zone`hhNext, zone`hhPrev
  {
    && |bks| == |chains|
    && forall b {:trigger chains[b]} :: 0 <= b < |chains| ==>
         (forall x :: x in chains[b] ==> x in zone) && Hang(bks[b], chains[b])
  }

  /** Each node stands in the chain of its hash, once. */
  ghost predicate Homed<K>(chains: seq<seq<Node<K>>>, hash: K -> nat) {
    forall b {:trigger chains[b]} :: 0 <= b < |chains| ==>
      NoDup(chains[b]) && forall x :: x in chains[b] ==> Home(x, |chains|, hash) == b
  }

  /** The chains once x is put at the front of chain b. */
  function PutFront<K>(chains: seq<seq<Node<K>>>, b: nat, x: Node<K>): seq<seq<Node<K>>>
    requires b < |chains|
  {
    chains[b := [x] + chains[b]]
  }

  lemma PutFrontHomed<K>(chains: seq<seq<Node<K>>>, b: nat, x: Node<K>, hash: K -> nat)
    requires Homed(chains, hash) && b < |chains| && x !in chains[b] && Home(x, |chains|, hash) == b
    ensures Homed(PutFront(chains, b, x), hash)
  {
    var c := [x] + chains[b];
    assert forall i :: 0 < i < |c| ==> c[i] in chains[b];
    assert NoDup(c);
  }

  /** Count x in and link it at the front of bucket b. */
  method Push<K>(buckets: array<Bucket<K>>, b: nat, x: Node<K>, ghost chains: seq<seq<Node<K>>>,
                 ghost zone: set<Node<K>>, ghost hash: K -> nat)
    requires Hung(buckets[..], chains, zone) && Homed(chains, hash)
    requires b < buckets.Length && x in zone && x !in chains[b] && Home(x, |chains|, hash) == b
    modifies buckets, x`hhNext, x`hhPrev, (if chains[b] == [] then {} else {chains[b][0]})`hhPrev
    ensures Hung(buckets[..], PutFront(chains, b, x), zone)
    ensures buckets[..] == old(buckets[..])[b := Bucket(x, old(buckets[b]).count + 1, old(buckets[b]).expandMult)]
  {
    var bk := buckets[b];
    ghost var c := chains[b];
    assert Hang(bk, c);
    assert forall b' {:trigger chains[b']} :: 0 <= b' < |chains| && b' != b ==>
        x !in chains[b'] && (c != [] ==> c[0] !in chains[b']) by {
      assert c != [] ==> c[0] in c;
    }
    x.hhNext := bk.head;
    x.hhPrev := null;
    if bk.head != null {
      bk.head.hhPrev := x;
    }
    buckets[b] := bk.(count := bk.count + 1, head := x);
    assert Hang(buckets[b], [x] + c);
  }

  /** HASH_FIND_IN_BKT: walk the chain for a node with the key. */
  method FindInBucket<K(==)>(bk: Bucket<K>, key: K, ghost c: seq<Node<K>>) returns (out: Node?<K>)
    requires Hang(bk, c)
    ensures out != null ==> out in c && out.data == key
    ensures out == null ==> forall x :: x in c ==> x.data != key
  {
    out := bk.head;
    ghost var k := 0;
    while out != null
      invariant 0 <= k <= |c| && out == (if k < |c| then c[k] else null)
      invariant forall i :: 0 <= i < k ==> c[i].data != key
      decreases |c| - k
    {
      if out.data == key {
        break;
      }
      out := out.hhNext;
      k := k + 1;
    }
  }

  /** Count x, node i of the chain c, out and take it from between its neighbours. */
  method CutOut<K>(bk: Bucket<K>, x: Node<K>, ghost i: nat, ghost c: seq<Node<K>>) returns (bk': Bucket<K>)
    requires Hang(bk, c) && NoDup(c) && i < |c| && x == c[i]
    modifies (if i > 0 then {c[i - 1]} else {})`hhNext, (if i + 1 < |c| then {c[i + 1]} else {})`hhPrev
    ensures Hang(bk', Without(c, i)) && bk'.expandMult == bk.expandMult
  {
    assert x.hhPrev == if i > 0 then c[i - 1] else null;
    assert x.hhNext == if i + 1 < |c| then c[i + 1] else null;
    bk' := bk.(count := bk.count - 1);
    if bk'.head == x {
      bk' := bk'.(head := x.hhNext);
    }
    if x.hhPrev != null {
      x.hhPrev.hhNext := x.hhNext;
    }
    if x.hhNext != null {
      x.hhNext.hhPrev := x.hhPrev;
    }
  }

  /** HASH_DEL_IN_BKT: x is node i of chain b. */
  method DelInBucket<K>(buckets: array<Bucket<K>>, b: nat, x: Node<K>, ghost i: nat, ghost chains: seq<seq<Node<K>>>,
                        ghost zone: set<Node<K>>, ghost hash: K -> nat)
    requires Hung(buckets[..], chains, zone) && Homed(chains, hash)
    requires b < buckets.Length && i < |chains[b]| && x == chains[b][i]
    modifies buckets, (if i > 0 then {chains[b][i - 1]} else {})`hhNext,
      (if i + 1 < |chains[b]| then {chains[b][i + 1]} else {})`hhPrev
    ensures Hung(buckets[..], chains[b := Without(chains[b], i)], zone)
    ensures buckets[..] == old(buckets[..])[b := buckets[b]] && buckets[b].expandMult == old(buckets[b]).expandMult
  {
    ghost var c := chains[b];
    assert Hang(buckets[b], c);
    assert forall b' {:trigger chains[b']} :: 0 <= b' < |chains| && b' != b ==> forall y :: y in c ==> y !in chains[b'];
    assert (i > 0 ==> c[i - 1] in c) && (i + 1 < |c| ==> c[i + 1] in c);
    var bk := CutOut(buckets[b], x, i, c);
    buckets[b] := bk;
    assert forall y :: y in Without(c, i) ==> y in c;
    ghost var chains' := chains[b := Without(c, i)];
    assert forall b' {:trigger chains'[b']} :: 0 <= b' < |chains| ==>
        chains'[b'] == if b' == b then Without(c, i) else chains[b'];
  }

  /** What a chain leaves in bucket b when its nodes are pushed, one by one, into n buckets:
      those whose bucket is b, the last first. */
  function Part<K>(c: seq<Node<K>>, b: nat, n: nat, hash: K -> nat): (p: seq<Node<K>>)
    requires n > 0
  {
    if c == [] then [] else Part(c[1..], b, n, hash) + if Home(c[0], n, hash) == b then [c[0]] else []
  }

  lemma {:induction false} PartMembers<K>(c: seq<Node<K>>, b: nat, n: nat, hash: K -> nat)
    requires n > 0
    ensures forall x :: x in Part(c, b, n, hash) <==> x in c && Home(x, n, hash) == b
    ensures NoDup(c) ==> NoDup(Part(c, b, n, hash))
  {
    if c != [] {
      PartMembers(c[1..], b, n, hash);
      assert c == [c[0]] + c[1..];
      assert NoDup(c) ==> NoDup(c[1..]) && c[0] !in c[1..];
    }
  }

  /** Two nodes of the chain that share a new bucket change places in it. */
  lemma {:induction false} PartReverses<K>(c: seq<Node<K>>, i: nat, j: nat, n: nat, hash: K -> nat)
      returns (k: nat, l: nat)
    requires n > 0 && i < j < |c| && Home(c[i], n, hash) == Home(c[j], n, hash)
    ensures var p := Part(c, Home(c[i], n, hash), n, hash); k < l < |p| && p[k] == c[j] && p[l] == c[i]
  {
    var b := Home(c[i], n, hash);
    if i == 0 {
      PartMembers(c[1..], b, n, hash);
      var rest := Part(c[1..], b, n, hash);
      assert c[j] == c[1..][j - 1];
      k :| 0 <= k < |rest| && rest[k] == c[j];
      l := |rest|;
    } else {
      k, l := PartReverses(c[1..], i - 1, j - 1, n, hash);
    }
  }

  /** The number of nodes whose place in their chain is past the ideal length. */
  function Excess<K>(chains: seq<seq<Node<K>>>, ideal: nat): nat {
    if chains == [] then 0 else (if |chains[0]| > ideal then |chains[0]| - ideal else 0) + Excess(chains[1..], ideal)
  }

  lemma {:induction false} ExcessPut<K>(chains: seq<seq<Node<K>>>, b: nat, x: Node<K>, ideal: nat)
    requires b < |chains|
    ensures Excess(PutFront(chains, b, x), ideal) == Excess(chains, ideal) + if |chains[b]| + 1 > ideal then 1 else 0
  {
    if b == 0 {
      assert PutFront(chains, b, x)[1..] == chains[1..];
    } else {
      ExcessPut(chains[1..], b - 1, x, ideal);
      assert PutFront(chains, b, x)[1..] == PutFront(chains[1..], b - 1, x);
    }
  }

  /** Each bucket's expansion multiple: how many times over the ideal length its chain is. */
  ghost predicate Multiples<K>(bks: seq<Bucket<K>>, chains: seq<seq<Node<K>>>, ideal: nat)
    requires ideal > 0
  {
    && |bks| == |chains|
    && forall b {:trigger chains[b]} :: 0 <= b < |bks| ==>
         bks[b].expandMult == if |chains[b]| > ideal then |chains[b]| / ideal else 0
  }

  /** The stored hash values are those of the keys. */
  ghost predicate Hashed<K>(nodes: set<Node<K>>, hash: K -> nat)
    reads nodes`hashv
  {
    forall x :: x in nodes ==> x.hashv == hash(x.data)
  }

  /** Each chain of `to` is the part of c that goes there, in front of what `from` had. */
  ghost predicate Spread<K>(to: seq<seq<Node<K>>>, c: seq<Node<K>>, from: seq<seq<Node<K>>>, hash: K -> nat) {
    && |to| == |from|
    && forall b {:trigger to[b]} {:trigger from[b]} :: 0 <= b < |to| ==> to[b] == Part(c, b, |to|, hash) + from[b]
  }

  function SpreadOut<K>(c: seq<Node<K>>, from: seq<seq<Node<K>>>, hash: K -> nat): seq<seq<Node<K>>> {
    seq(|from|, b requires 0 <= b < |from| => Part(c, b, |from|, hash) + from[b])
  }

  lemma SpreadOutSpreads<K>(c: seq<Node<K>>, from: seq<seq<Node<K>>>, hash: K -> nat)
    ensures Spread(SpreadOut(c, from, hash), c, from, hash)
  {}

  lemma SpreadRest<K>(to: seq<seq<Node<K>>>, c: seq<Node<K>>, from: seq<seq<Node<K>>>, hash: K -> nat)
    requires c != [] && |from| > 0 && Spread(to, c, from, hash)
    ensures Spread(to, c[1..], PutFront(from, Home(c[0], |from|, hash), c[0]), hash)
  {
    var mid := PutFront(from, Home(c[0], |from|, hash), c[0]);
    forall b {:trigger to[b]} {:trigger mid[b]} | 0 <= b < |to|
      ensures to[b] == Part(c[1..], b, |to|, hash) + mid[b]
    {
      assert to[b] == Part(c, b, |to|, hash) + from[b];
    }
  }

  lemma SpreadNone<K>(to: seq<seq<Node<K>>>, c: seq<Node<K>>, chains: seq<seq<Node<K>>>, hash: K -> nat)
    requires Spread(to, c, chains, hash) && c == []
    ensures to == chains
  {
    assert forall b :: 0 <= b < |to| ==> to[b] == Part(c, b, |to|, hash) + chains[b] == chains[b];
  }

  /** The nodes still to be moved: linked by hh_next, and in no new chain. */
  ghost predicate Ahead<K>(rest: seq<Node<K>>, chains: seq<seq<Node<K>>>, zone: set<Node<K>>)
    reads zone`hhNext
  {
    && NoDup(rest) && (forall x :: x in rest ==> x in zone)
    && (forall i {:trigger rest[i].hhNext} :: 0 <= i < |rest| ==>
         rest[i].hhNext == if i + 1 < |rest| then rest[i + 1] else null)
    && forall b {:trigger chains[b]} :: 0 <= b < |chains| ==> Disjoint(rest, chains[b])
  }

  /** The new buckets half filled, with the nodes still to be moved. */
  ghost predicate Moving<K>(bks: seq<Bucket<K>>, ideal: nat, nonideal: nat,
                            rest: seq<Node<K>>, chains: seq<seq<Node<K>>>, zone: set<Node<K>>, hash: K -> nat)
    requires ideal > 0
    reads zone
  {
    && Ahead(rest, chains, zone) && Hashed(zone, hash)
    && Hung(bks, chains, zone) && Homed(chains, hash)
    && Multiples(bks, chains, ideal) && nonideal == Excess(chains, ideal)
  }

  lemma AheadStep<K>(rest: seq<Node<K>>, chains: seq<seq<Node<K>>>, b: nat, zone: set<Node<K>>)
    requires rest != [] && b < |chains| && Ahead(rest, chains, zone)
    ensures Ahead(rest[1..], PutFront(chains, b, rest[0]), zone)
    ensures rest[0] in zone && rest[0] !in chains[b] && rest[0] !in rest[1..]
    ensures rest[0].hhNext == First(rest[1..])
  {
    assert forall i :: 0 <= i < |rest| - 1 ==> rest[1..][i] == rest[i + 1];
    assert rest[0] in rest;
    assert forall x :: x in rest[1..] ==> x in rest;
    assert Disjoint(rest[1..], [rest[0]] + chains[b]);
  }

  /** Push one node into its new bucket, keeping the statistics. */
  method MoveNode<K>(x: Node<K>, into: array<Bucket<K>>, log2: nat, ideal: nat, nonideal: nat,
                     ghost rest: seq<Node<K>>, ghost chains: seq<seq<Node<K>>>, ghost zone: set<Node<K>>,
                     ghost hash: K -> nat)
      returns (next: Node?<K>, nonideal': nat)
    requires rest != [] && x == rest[0] && into.Length == |chains| == Pow2(log2)
    requires ideal > 0 && Moving(into[..], ideal, nonideal, rest, chains, zone, hash)
    modifies into, zone`hhNext, zone`hhPrev
    ensures next == First(rest[1..])
    ensures Moving(into[..], ideal, nonideal', rest[1..], PutFront(chains, Home(x, |chains|, hash), x), zone, hash)
  {
    hide Pow2, And, Excess;
    nonideal' := nonideal;
    next := x.hhNext;
    LowBits(x.hashv, log2);
    var b := And(x.hashv, into.Length - 1);
    AheadStep(rest, chains, b, zone);
    ExcessPut(chains, b, x, ideal);
    PutFrontHomed(chains, b, x, hash);
    assert Hang(into[b], chains[b]);
    if into[b].count + 1 > ideal {
      nonideal' := nonideal' + 1;
      into[b] := into[b].(expandMult := (into[b].count + 1) / ideal);
    }
    assert Hung(into[..], chains, zone);
    Push(into, b, x, chains, zone, hash);
    hide Hung, Homed, Hang;
  }

  /** The inner loop of HASH_EXPAND_BUCKETS: move the nodes of one old chain. */
  method MoveChain<K>(bk: Bucket<K>, into: array<Bucket<K>>, log2: nat, ideal: nat, nonideal: nat,
                      ghost c: seq<Node<K>>, ghost chains: seq<seq<Node<K>>>, ghost zone: set<Node<K>>,
                      ghost hash: K -> nat)
      returns (nonideal': nat, ghost chains': seq<seq<Node<K>>>)
    requires bk.head == First(c) && into.Length == |chains| == Pow2(log2)
    requires ideal > 0 && Moving(into[..], ideal, nonideal, c, chains, zone, hash)
    modifies into, zone`hhNext, zone`hhPrev
    ensures Spread(chains', c, chains, hash)
    ensures Moving(into[..], ideal, nonideal', [], chains', zone, hash)
  {
    hide Moving, Spread, Pow2;
    nonideal', chains' := nonideal, chains;
    var thh := bk.head;
    ghost var rest, goal := c, SpreadOut(c, chains, hash);
    SpreadOutSpreads(c, chains, hash);
    while thh != null
      invariant thh == First(rest) && |chains'| == |chains|
      invariant Moving(into[..], ideal, nonideal', rest, chains', zone, hash)
      invariant Spread(goal, rest, chains', hash)
      decreases |rest|
    {
      SpreadRest(goal, rest, chains', hash);
      ghost var b := Home(thh, |chains'|, hash);
      thh, nonideal' := MoveNode(thh, into, log2, ideal, nonideal', rest, chains', zone, hash);
      chains' := PutFront(chains', b, rest[0]);
      rest := rest[1..];
    }
    SpreadNone(goal, rest, chains', hash);
  }

  /** The first i old chains are redistributed over twice as many new ones: the nodes of
      chain b stay in b or go to b + |chains|. */
  ghost predicate Filled<K>(to: seq<seq<Node<K>>>, chains: seq<seq<Node<K>>>, i: nat, hash: K -> nat) {
    && |to| == 2 * |chains|
    && (forall b {:trigger to[b]} :: 0 <= b < |chains| ==>
         to[b] == if b < i then Part(chains[b], b, |to|, hash) else [])
    && (forall b {:trigger to[b]} :: |chains| <= b < |to| ==>
         to[b] == if b - |chains| < i then Part(chains[b - |chains|], b, |to|, hash) else [])
  }

  lemma HomeDoubles<K>(x: Node<K>, n: nat, hash: K -> nat)
    requires n > 0
    ensures Home(x, 2 * n, hash) == Home(x, n, hash) || Home(x, 2 * n, hash) == Home(x, n, hash) + n
  {
    var h := hash(x.data);
    var q, r := h / n, h % n;
    assert h == q * n + r;
    assert q * n == (q / 2) * (2 * n) + (q % 2) * n;
    Arith.DivUnique(h, 2 * n, q / 2, (q % 2) * n + r);
  }

  lemma {:induction false} PartNone<K>(c: seq<Node<K>>, b: nat, n: nat, hash: K -> nat)
    requires n > 0 && forall x :: x in c ==> Home(x, n, hash) != b
    ensures Part(c, b, n, hash) == []
  {
    if c != [] {
      assert c[0] in c;
      PartNone(c[1..], b, n, hash);
    }
  }

  lemma PartElsewhere<K>(chains: seq<seq<Node<K>>>, i: nat, b: nat, hash: K -> nat)
    requires i < |chains| && Homed(chains, hash) && b != i && b != i + |chains|
    ensures Part(chains[i], b, 2 * |chains|, hash) == []
  {
    forall x | x in chains[i]
      ensures Home(x, 2 * |chains|, hash) != b
    {
      HomeDoubles(x, |chains|, hash);
    }
    PartNone(chains[i], b, 2 * |chains|, hash);
  }

  lemma FilledStep<K>(to: seq<seq<Node<K>>>, from: seq<seq<Node<K>>>, chains: seq<seq<Node<K>>>, i: nat, hash: K -> nat)
    requires i < |chains| && Homed(chains, hash) && Filled(from, chains, i, hash) && Spread(to, chains[i], from, hash)
    ensures Filled(to, chains, i + 1, hash) && |to| == 2 * |chains|
  {
    hide Part, Homed;
    forall b {:trigger to[b]} | 0 <= b < |to|
      ensures to[b] == if b == i || b == i + |chains| then Part(chains[i], b, |to|, hash) else from[b]
    {
      assert to[b] == Part(chains[i], b, |to|, hash) + from[b];
      if b != i && b != i + |chains| {
        PartElsewhere(chains, i, b, hash);
      }
    }
  }

  /** The nodes of the first i chains. */
  ghost function Moved<K>(nodes: set<Node<K>>, n: nat, i: nat, hash: K -> nat): (m: set<Node<K>>)
    requires n > 0
    ensures m <= nodes
  {
    set x | x in nodes && Home(x, n, hash) < i
  }

  /** The old buckets from i on still hold their chains. */
  ghost predicate Left<K>(bks: seq<Bucket<K>>, chains: seq<seq<Node<K>>>, i: nat, nodes: set<Node<K>>)
    reads nodes`hhNext, nodes`hhPrev
  {
    && |bks| == |chains|
    && forall b {:trigger chains[b]} :: i <= b < |chains| ==>
         (forall x :: x in chains[b] ==> x in nodes) && Hang(bks[b], chains[b])
  }

  lemma NextChain<K>(bks: seq<Bucket<K>>, chains: seq<seq<Node<K>>>, i: nat, nodes: set<Node<K>>,
                     into: seq<Bucket<K>>, chains': seq<seq<Node<K>>>, ideal: nat, nonideal: nat, hash: K -> nat)
    requires i < |chains| && ideal > 0 && Left(bks, chains, i, nodes) && Homed(chains, hash) && Hashed(nodes, hash)
    requires Moving(into, ideal, nonideal, [], chains', Moved(nodes, |chains|, i, hash), hash)
    ensures bks[i].head == First(chains[i])
    ensures Moving(into, ideal, nonideal, chains[i], chains', Moved(nodes, |chains|, i + 1, hash), hash)
  {
    var zone, wide, c := Moved(nodes, |chains|, i, hash), Moved(nodes, |chains|, i + 1, hash), chains[i];
    assert zone <= wide;
    assert Hang(bks[i], c);
    assert Hung(into, chains', wide);
    assert Ahead(c, chains', wide);
  }

  lemma StartMoving<K>(bks: seq<Bucket<K>>, into: seq<Bucket<K>>, chains: seq<seq<Node<K>>>, chains': seq<seq<Node<K>>>,
                       nodes: set<Node<K>>, ideal: nat, hash: K -> nat)
    requires ideal > 0 && |chains| > 0 && Hung(bks, chains, nodes) && Hashed(nodes, hash)
    requires |into| == |chains'| == 2 * |chains|
    requires (forall b :: 0 <= b < |into| ==> into[b] == Bucket(null, 0, 0) && chains'[b] == [])
    ensures Left(bks, chains, 0, nodes) && Filled(chains', chains, 0, hash)
    ensures Moving(into, ideal, 0, [], chains', Moved(nodes, |chains|, 0, hash), hash)
  {
    assert Moved(nodes, |chains|, 0, hash) == {};
    ExcessNone(chains', ideal);
  }

  lemma {:induction false} ExcessNone<K>(chains: seq<seq<Node<K>>>, ideal: nat)
    requires forall b :: 0 <= b < |chains| ==> chains[b] == []
    ensures Excess(chains, ideal) == 0
  {
    if chains != [] {
      ExcessNone(chains[1..], ideal);
    }
  }

  lemma AllMoved<K>(nodes: set<Node<K>>, n: nat, hash: K -> nat)
    requires n > 0
    ensures Moved(nodes, n, n, hash) == nodes
  {}

  /** The outer loop's body: move old chain i. */
  method MoveBucket<K>(buckets: array<Bucket<K>>, i: nat, into: array<Bucket<K>>, log2: nat, ideal: nat, nonideal: nat,
                       ghost chains: seq<seq<Node<K>>>, ghost from: seq<seq<Node<K>>>, ghost nodes: set<Node<K>>,
                       ghost hash: K -> nat)
      returns (nonideal': nat, ghost to: seq<seq<Node<K>>>)
    requires buckets != into && i < buckets.Length == |chains| && into.Length == 2 * buckets.Length == Pow2(log2)
    requires ideal > 0
    requires Left(buckets[..], chains, i, nodes) && Filled(from, chains, i, hash) && Homed(chains, hash)
    requires Hashed(nodes, hash)
    requires Moving(into[..], ideal, nonideal, [], from, Moved(nodes, |chains|, i, hash), hash)
    modifies into, nodes`hhNext, nodes`hhPrev
    ensures Left(buckets[..], chains, i + 1, nodes) && Filled(to, chains, i + 1, hash)
    ensures Moving(into[..], ideal, nonideal', [], to, Moved(nodes, |chains|, i + 1, hash), hash)
  {
    assert |from| == into.Length;
    hide Moving, Spread, Pow2, Filled;
    NextChain(buckets[..], chains, i, nodes, into[..], from, ideal, nonideal, hash);
    nonideal', to := MoveChain(buckets[i], into, log2, ideal, nonideal, chains[i], from,
        Moved(nodes, |chains|, i + 1, hash), hash);
    forall b {:trigger chains[b]} | i < b < |chains|
      ensures Hang(buckets[b], chains[b])
    {
      forall k | 0 <= k < |chains[b]|
        ensures chains[b][k] in nodes - Moved(nodes, |chains|, i + 1, hash)
      {
        assert chains[b][k] in chains[b];
      }
    }
    FilledStep(to, from, chains, i, hash);
  }

  /** The loops of HASH_EXPAND_BUCKETS. */
  method Redistribute<K>(buckets: array<Bucket<K>>, into: array<Bucket<K>>, log2: nat, ideal: nat,
                         ghost chains: seq<seq<Node<K>>>, ghost nodes: set<Node<K>>, ghost hash: K -> nat)
      returns (nonideal: nat, ghost chains': seq<seq<Node<K>>>)
    requires buckets != into && buckets.Length == |chains| > 0 && into.Length == 2 * buckets.Length == Pow2(log2)
    requires ideal > 0
    requires Hung(buckets[..], chains, nodes) && Homed(chains, hash) && Hashed(nodes, hash)
    requires forall b :: 0 <= b < into.Length ==> into[b] == Bucket(null, 0, 0)
    modifies into, nodes`hhNext, nodes`hhPrev
    ensures Filled(chains', chains, |chains|, hash)
    ensures Moving(into[..], ideal, nonideal, [], chains', nodes, hash)
  {
    hide Moving, Moved, Left, Spread, Pow2, Filled, Homed, Hung;
    nonideal, chains' := 0, seq(into.Length, _ => []);
    StartMoving(buckets[..], into[..], chains, chains', nodes, ideal, hash);
    var i := 0;
    while i < buckets.Length
      invariant i <= buckets.Length
      invariant Left(buckets[..], chains, i, nodes)
      invariant Filled(chains', chains, i, hash)
      invariant Moving(into[..], ideal, nonideal, [], chains', Moved(nodes, |chains|, i, hash), hash)
    {
      nonideal, chains' := MoveBucket(buckets, i, into, log2, ideal, nonideal, chains, chains', nodes, hash);
      i := i + 1;
    }
    AllMoved(nodes, |chains|, hash);
  }
}
