/** Every change the allocator makes to a pool, and the proof that it keeps the invariant. */
module SlabSteps {
  import opened Sequences
  import opened Words
  import opened SlabModel
  import opened SlabInvariant

  // ----- list bookkeeping shared by all steps

  lemma HomeIsUnique(kinds: seq<Kind>, minShift: nat, x: nat, l: nat, m: nat)
    requires minShift <= 12
    requires Home(kinds, minShift, x, l) && Home(kinds, minShift, x, m)
    ensures l == m
  {}

  lemma ListsApart(kinds: seq<Kind>, lists: seq<seq<nat>>, minShift: nat, l: nat)
    requires minShift <= 12 && Listed(kinds, lists, minShift) && l < |lists|
    ensures Apart(|kinds| + l, lists[l])
    ensures forall x: nat :: x in lists[l] ==> x < |kinds|
  {
    forall x: nat | x in lists[l]
      ensures x < |kinds|
    {
      assert Home(kinds, minShift, x, l);
    }
  }

  /** Only list l's sentinel and nodes, and pages lo..hi, on none of the other lists, have
      had their links rewritten. */
  ghost predicate TouchedOnly(p: Pool, pages: seq<Page>, l: nat, lo: nat, hi: nat)
    requires l < |p.lists|
  {
    && |pages| == |p.pages|
    && hi <= |p.kinds|
    && (forall y, m :: lo <= y < hi && 0 <= m < |p.lists| && m != l ==> y !in p.lists[m])
    && forall y :: 0 <= y < |pages| && y != Sentinel(p, l) && y !in p.lists[l] && !(lo <= y < hi) ==>
         pages[y].next == p.pages[y].next && pages[y].prev == p.pages[y].prev
  }

  lemma OtherRing(p: Pool, pages: seq<Page>, l: nat, m: nat, lo: nat, hi: nat)
    requires Shape(p) && Linked(p.pages, |p.kinds|, p.lists, p.minShift) && Listed(p.kinds, p.lists, p.minShift)
    requires l < |p.lists| && m < |p.lists| && m != l && TouchedOnly(p, pages, l, lo, hi)
    ensures Ring(pages, Sentinel(p, m), p.lists[m], ListTag(p.minShift, m))
  {
    var q := p.lists[m];
    ListsApart(p.kinds, p.lists, p.minShift, m);
    ListsApart(p.kinds, p.lists, p.minShift, l);
    forall i {:trigger pages[q[i]]} | 0 <= i < |q|
      ensures pages[q[i]].next == p.pages[q[i]].next && pages[q[i]].prev == p.pages[q[i]].prev
    {
      var y := q[i];
      assert y in q;
      if y in p.lists[l] {
        HomeIsUnique(p.kinds, p.minShift, y, l, m);
      }
    }
    RingFrame(p.pages, pages, Sentinel(p, m), q, ListTag(p.minShift, m));
  }

  /** Rewriting list l leaves the other lists linked. */
  lemma OthersStayLinked(p: Pool, pages: seq<Page>, l: nat, q: seq<nat>, lo: nat, hi: nat)
    requires Shape(p) && Linked(p.pages, |p.kinds|, p.lists, p.minShift) && Listed(p.kinds, p.lists, p.minShift)
    requires l < |p.lists| && TouchedOnly(p, pages, l, lo, hi)
    requires Ring(pages, Sentinel(p, l), q, ListTag(p.minShift, l))
    ensures Linked(pages, |p.kinds|, p.lists[l := q], p.minShift)
  {
    forall m | 0 <= m < |p.lists| && m != l
      ensures Ring(pages, Sentinel(p, m), p.lists[m], ListTag(p.minShift, m))
    {
      OtherRing(p, pages, l, m, lo, hi);
    }
  }

  // ----- taking k pages from the head of a free run (rp_slab_alloc_pages)

  function TakenKinds(kinds: seq<Kind>, x: nat, k: nat): (r: seq<Kind>)
    requires x < |kinds| && kinds[x].Free?
    ensures |r| == |kinds|
  {
    var len := kinds[x].len;
    seq(|kinds|, j requires 0 <= j < |kinds| =>
      if j == x then Busy(k)
      else if x < j < x + k then Inside(x)
      else if j == x + k && k < len then Free(len - k)
      else if x + k < j < x + len then Inside(x + k)
      else kinds[j])
  }

  function TakenList(q: seq<nat>, i: nat, k: nat, len: nat): seq<nat>
    requires i < |q|
  {
    if k < len then q[i := q[i] + k] else Without(q, i)
  }

  /** The allocated run's descriptors: head START|k, then BUSY. */
  function Stamped(pages: seq<Page>, x: nat, k: nat): (r: seq<Page>)
    requires 1 <= k <= MAX_PAGES && x + k <= |pages|
    ensures |r| == |pages|
  {
    seq(|pages|, j requires 0 <= j < |pages| =>
      if j == x then Page(StartWord(k), NULL, TAG_PAGE)
      else if x < j < x + k then Page(ALL_ONES, NULL, TAG_PAGE)
      else pages[j])
  }

  /** The run at position i of the free list has at least k pages. */
  ghost predicate Fits(p: Pool, i: nat, k: nat)
    requires Shape(p)
  {
    var q := p.lists[FreeIndex(p)];
    && i < |q| && q[i] < |p.kinds| && p.kinds[q[i]].Free?
    && 1 <= k <= p.kinds[q[i]].len <= |p.kinds| - q[i]
  }

  function Taken(p: Pool, linked: seq<Page>, i: nat, k: nat): Pool
    requires Shape(p) && Fits(p, i, k) && |linked| == |p.pages|
  {
    var f := FreeIndex(p);
    var x := p.lists[f][i];
    p.(pages := Stamped(linked, x, k),
       kinds := TakenKinds(p.kinds, x, k),
       lists := p.lists[f := TakenList(p.lists[f], i, k, p.kinds[x].len)])
  }

  /** The free list q once the run of len pages at position i has been split or unlinked, and
      the rest of the run has its length. */
  ghost predicate CutOut(pages: seq<Page>, linked: seq<Page>, s: nat, q: seq<nat>, i: nat, k: nat, len: nat)
    requires i < |q|
  {
    var y := q[i] + k;
    && |linked| == |pages|
    && Ring(linked, s, TakenList(q, i, k, len), TAG_PAGE)
    && (k < len ==> y < |linked| && linked[y].slab == len - k)
    && (forall z :: 0 <= z < |linked| && !(k < len && z == y) ==> linked[z].slab == pages[z].slab)
    && forall z :: 0 <= z < |linked| && z != s && z !in q && !(k < len && z == y) ==> linked[z] == pages[z]
  }

  ghost predicate Detached(p: Pool, linked: seq<Page>, i: nat, k: nat)
    requires Shape(p)
  {
    && Fits(p, i, k)
    && var f := FreeIndex(p);
    && var q := p.lists[f];
    && CutOut(p.pages, linked, Sentinel(p, f), q, i, k, p.kinds[q[i]].len)
  }

  lemma SplitKeepsRing(pages: seq<Page>, s: nat, q: seq<nat>, y: nat, cut: seq<Page>)
    requires Ring(pages, s, q, TAG_PAGE) && y < |pages| && y != s && y !in q
    requires |cut| == |pages| && cut == pages[y := cut[y]]
    ensures Ring(cut, s, q, TAG_PAGE)
  {
    RingFrame(pages, cut, s, q, TAG_PAGE);
  }

  /** Splitting: the rest of the run takes over its links, and its neighbours point at it. */
  lemma SplitCutsOut(pages: seq<Page>, s: nat, q: seq<nat>, i: nat, k: nat, len: nat, cut: seq<Page>)
    requires Ring(pages, s, q, TAG_PAGE) && Apart(s, q) && i < |q| && k < len
    requires q[i] + k < |pages| && q[i] + k != s && q[i] + k !in q && len - k <= ALL_ONES
    requires cut == pages[q[i] + k := pages[q[i] + k].(slab := len - k)]
    ensures ValidRef(cut, cut[q[i]].prev) && ValidRef(cut, cut[q[i]].next)
    ensures CutOut(pages, Replaced(cut, q[i], q[i] + k), s, q, i, k, len)
  {
    hide Ring, Apart, Replaced;
    SplitKeepsRing(pages, s, q, q[i] + k, cut);
    ReplaceRing(cut, s, q, i, q[i] + k);
  }

  lemma UnlinkCutsOut(pages: seq<Page>, s: nat, q: seq<nat>, i: nat, k: nat)
    requires Ring(pages, s, q, TAG_PAGE) && Apart(s, q) && i < |q|
    ensures ValidRef(pages, pages[q[i]].prev) && ValidRef(pages, pages[q[i]].next)
    ensures Untag(pages[q[i]].prev) == pages[q[i]].prev
    ensures CutOut(pages, Unlinked(pages, q[i]), s, q, i, k, k)
  {
    hide Apart, Unlinked;
    assert pages[q[i]].prev == Ref(At(s, q, i - 1)) + TAG_PAGE;
    hide Ring;
    UnlinkRing(pages, s, q, TAG_PAGE, i);
  }

  lemma TakenTiled(kinds: seq<Kind>, x: nat, k: nat)
    requires Tiled(kinds) && x < |kinds| && kinds[x].Free? && 1 <= k <= kinds[x].len
    ensures Tiled(TakenKinds(kinds, x, k))
  {
    var r := TakenKinds(kinds, x, k);
    assert RunAt(kinds, x, kinds[x].len);
    forall y | 0 <= y < |r| && IsRun(r[y])
      ensures RunAt(r, y, r[y].len)
    {
      if y != x && y != x + k {
        assert RunAt(kinds, y, kinds[y].len);
        forall j | y < j < y + r[y].len
          ensures r[j] == Inside(y)
        {
          assert kinds[j] == Inside(y);
        }
      }
    }
  }

  lemma TakenHome(kinds: seq<Kind>, minShift: nat, x: nat, k: nat, y: nat, l: nat)
    requires minShift <= 12 && x < |kinds| && kinds[x].Free? && RunAt(kinds, x, kinds[x].len)
    requires 1 <= k <= kinds[x].len
    ensures Home(TakenKinds(kinds, x, k), minShift, y, l) <==>
      (Home(kinds, minShift, y, l) && y != x) || (y == x + k && k < kinds[x].len && l == Slots(minShift))
  {
    if x < y < x + kinds[x].len {
      assert kinds[y] == Inside(x);
    }
  }

  lemma ReplacedMembers(q: seq<nat>, i: nat, v: nat, y: nat)
    requires i < |q| && NoDup(q) && v !in q
    ensures NoDup(q[i := v])
    ensures y in q[i := v] <==> y == v || (y in q && y != q[i])
  {
    var r := q[i := v];
    if y in q && y != q[i] {
      var j :| 0 <= j < |q| && q[j] == y;
      assert r[j] == y;
    }
    if y == v {
      assert r[i] == y;
    }
  }

  lemma TakenMembers(q: seq<nat>, i: nat, k: nat, len: nat, y: nat)
    requires i < |q| && NoDup(q) && (k < len ==> q[i] + k !in q)
    ensures NoDup(TakenList(q, i, k, len))
    ensures y in TakenList(q, i, k, len) <==> (y in q && y != q[i]) || (k < len && y == q[i] + k)
  {
    if k < len {
      ReplacedMembers(q, i, q[i] + k, y);
    } else {
      WithoutMembers(q, i, y);
    }
  }

  /** The rest of a run about to be split is on no list. */
  lemma RestUnlisted(p: Pool, i: nat, k: nat, m: nat)
    requires Shape(p) && Fits(p, i, k) && Tiled(p.kinds) && Listed(p.kinds, p.lists, p.minShift) && m < |p.lists|
    ensures var x := p.lists[FreeIndex(p)][i];
      forall y: nat :: x < y < x + p.kinds[x].len ==> p.kinds[y] == Inside(x) && y !in p.lists[m]
    ensures var x := p.lists[FreeIndex(p)][i];
      m != FreeIndex(p) ==> x !in p.lists[m]
  {
    var x := p.lists[FreeIndex(p)][i];
    assert RunAt(p.kinds, x, p.kinds[x].len);
    forall y: nat | x <= y < x + p.kinds[x].len && (y == x ==> m != FreeIndex(p))
      ensures y !in p.lists[m]
    {
      assert y == x || p.kinds[y] == Inside(x);
      assert !Home(p.kinds, p.minShift, y, m);
    }
  }

  lemma TakenListed(p: Pool, linked: seq<Page>, i: nat, k: nat)
    requires Core(p) && Detached(p, linked, i, k)
    ensures var t := Taken(p, linked, i, k); Listed(t.kinds, t.lists, t.minShift)
  {
    var f := FreeIndex(p);
    var q := p.lists[f];
    var x := q[i];
    var len := p.kinds[x].len;
    var t := Taken(p, linked, i, k);
    assert RunAt(p.kinds, x, len);
    RestUnlisted(p, i, k, f);
    forall l, y: nat | 0 <= l < |t.lists|
      ensures y in t.lists[l] <==> Home(t.kinds, t.minShift, y, l)
    {
      TakenHome(p.kinds, p.minShift, x, k, y, l);
      assert y in p.lists[l] <==> Home(p.kinds, p.minShift, y, l);
      if l == f {
        TakenMembers(q, i, k, len, y);
      }
    }
    TakenMembers(q, i, k, len, x);
  }

  lemma TakenDescribed(p: Pool, linked: seq<Page>, i: nat, k: nat)
    requires Core(p) && Detached(p, linked, i, k)
    ensures var t := Taken(p, linked, i, k); Described(t.pages, t.mem, t.kinds)
  {
    var f := FreeIndex(p);
    var x := p.lists[f][i];
    var len := p.kinds[x].len;
    var t := Taken(p, linked, i, k);
    assert RunAt(p.kinds, x, len);
    forall y | 0 <= y < |t.kinds|
      ensures DescAt(t.pages[y], t.mem, t.kinds, y)
    {
      assert DescAt(p.pages[y], p.mem, p.kinds, y);
      if y < x || y >= x + len {
        assert t.kinds[y] == p.kinds[y];
        assert t.pages[y] == linked[y] && linked[y].slab == p.pages[y].slab;
        if y in p.lists[f] {
          assert Home(p.kinds, p.minShift, y, f);
        }
        if p.kinds[y].Inside? {
          var h := p.kinds[y].head;
          assert h != x && !(x < h < x + len);
        }
      } else {
        assert y != x ==> p.kinds[y] == Inside(x);
        if y in p.lists[f] {
          assert Home(p.kinds, p.minShift, y, f);
        }
      }
    }
  }

  lemma StampedRing(p: Pool, linked: seq<Page>, i: nat, k: nat)
    requires Core(p) && Detached(p, linked, i, k)
    ensures var t := Taken(p, linked, i, k);
      Ring(t.pages, Sentinel(p, FreeIndex(p)), t.lists[FreeIndex(p)], TAG_PAGE)
  {
    var f := FreeIndex(p);
    var q := p.lists[f];
    var x := q[i];
    var len := p.kinds[x].len;
    var t := Taken(p, linked, i, k);
    RestUnlisted(p, i, k, f);
    ListsApart(p.kinds, p.lists, p.minShift, f);
    hide Described, ChunkedOK, Tiled, Linked, Listed;
    var q' := t.lists[f];
    forall j {:trigger t.pages[q'[j]]} | 0 <= j < |q'|
      ensures t.pages[q'[j]] == linked[q'[j]]
    {
      TakenMembers(q, i, k, len, q'[j]);
      assert q'[j] in q';
    }
    RingFrame(linked, t.pages, Sentinel(p, f), q', TAG_PAGE);
  }

  lemma TakenTouched(p: Pool, linked: seq<Page>, i: nat, k: nat, lo: nat)
    requires Core(p) && Detached(p, linked, i, k)
    requires var x := p.lists[FreeIndex(p)][i]; lo == if k < p.kinds[x].len then x + k else x
    ensures TouchedOnly(p, Taken(p, linked, i, k).pages, FreeIndex(p), lo, lo + 1)
  {
    var f := FreeIndex(p);
    var q := p.lists[f];
    var x := q[i];
    var t := Taken(p, linked, i, k);
    forall y, m | lo <= y < lo + 1 && 0 <= m < |p.lists| && m != f
      ensures y !in p.lists[m]
    {
      RestUnlisted(p, i, k, m);
    }
    RestUnlisted(p, i, k, f);
    forall y | 0 <= y < |t.pages| && y != Sentinel(p, f) && y !in q && y != lo
      ensures t.pages[y].next == p.pages[y].next && t.pages[y].prev == p.pages[y].prev
    {
      if x <= y < x + k {
        assert y != x by { assert q[i] == x; }
        assert DescAt(p.pages[y], p.mem, p.kinds, y);
      }
    }
  }

  lemma TakenChunked(kinds: seq<Kind>, minShift: nat, x: nat, k: nat)
    requires ChunkedOK(kinds, minShift) && x < |kinds| && kinds[x].Free?
    ensures ChunkedOK(TakenKinds(kinds, x, k), minShift)
  {}

  /** Splitting a free run, or taking all of it, keeps the invariant. */
  lemma TakeKeepsCore(p: Pool, linked: seq<Page>, i: nat, k: nat)
    requires Core(p) && Detached(p, linked, i, k)
    ensures Core(Taken(p, linked, i, k))
  {
    var t := Taken(p, linked, i, k);
    var x := p.lists[FreeIndex(p)][i];
    var lo := if k < p.kinds[x].len then x + k else x;
    TakenTiled(p.kinds, x, k);
    TakenDescribed(p, linked, i, k);
    TakenListed(p, linked, i, k);
    StampedRing(p, linked, i, k);
    TakenTouched(p, linked, i, k, lo);
    TakenChunked(p.kinds, p.minShift, x, k);
    hide *;
    OthersStayLinked(p, t.pages, FreeIndex(p), t.lists[FreeIndex(p)], lo, lo + 1);
  }

  // ----- a run in transit: on no list, its own descriptors not yet meaningful

  ghost predicate Loose(p: Pool, x: nat, k: nat) {
    && Shape(p)
    && Tiled(p.kinds)
    && ChunkedOK(p.kinds, p.minShift)
    && Linked(p.pages, |p.kinds|, p.lists, p.minShift)
    && Listed(p.kinds, p.lists, p.minShift)
    && x < |p.kinds|
    && p.kinds[x] == Busy(k)
    && DescribedBut(p.pages, p.mem, p.kinds, x, k)
  }

  ghost predicate DescribedBut(pages: seq<Page>, mem: seq<Word>, kinds: seq<Kind>, x: nat, k: nat)
    requires |kinds| <= |pages| && |mem| == |kinds| * PAGE_WORDS
  {
    forall y :: 0 <= y < |kinds| && !(x <= y < x + k) ==> DescAt(pages[y], mem, kinds, y)
  }

  /** Page x heads a run of k pages, or is a single page of chunks. */
  ghost predicate Heads(kinds: seq<Kind>, x: nat, k: nat) {
    x < |kinds| && (kinds[x] == Free(k) || kinds[x] == Busy(k) || (kinds[x].Chunks? && k == 1))
  }

  /** Anything may happen to the descriptors of the run, except to its head's links. */
  ghost predicate OnlyRun(p: Pool, pages: seq<Page>, x: nat, k: nat)
    requires Shape(p) && x < |p.kinds|
  {
    && |pages| == |p.pages|
    && pages[x].next == p.pages[x].next
    && pages[x].prev == p.pages[x].prev
    && forall y :: 0 <= y < |pages| && !(x <= y < x + k) ==> pages[y] == p.pages[y]
  }

  lemma BusyTiled(kinds: seq<Kind>, x: nat, k: nat)
    requires Tiled(kinds) && Heads(kinds, x, k)
    ensures Tiled(kinds[x := Busy(k)])
    ensures x + k <= |kinds|
    ensures forall j :: x < j < x + k ==> kinds[j] == Inside(x)
    ensures forall y :: 0 <= y < |kinds| && kinds[y] == Inside(x) ==> x < y < x + k
  {
    var r := kinds[x := Busy(k)];
    assert IsRun(kinds[x]) ==> RunAt(kinds, x, k);
    forall y | 0 <= y < |r| && IsRun(r[y])
      ensures RunAt(r, y, r[y].len)
    {
      if y != x {
        assert RunAt(kinds, y, kinds[y].len);
      }
    }
  }

  /** The pages of a run are on no list, except its head on its home list. */
  lemma RunNodes(p: Pool, x: nat, k: nat, y: nat, m: nat)
    requires Shape(p) && Tiled(p.kinds) && Listed(p.kinds, p.lists, p.minShift) && Heads(p.kinds, x, k)
    requires x <= y < x + k && m < |p.lists| && y in p.lists[m]
    ensures y == x && Home(p.kinds, p.minShift, x, m)
  {
    BusyTiled(p.kinds, x, k);
    assert Home(p.kinds, p.minShift, y, m);
  }

  lemma DetachedListed(kinds: seq<Kind>, lists: seq<seq<nat>>, minShift: nat, x: nat, k: nat, l: nat, i: nat)
    requires minShift <= 12 && Listed(kinds, lists, minShift) && x < |kinds|
    requires l < |lists| && i < |lists[l]| && lists[l][i] == x
    ensures Listed(kinds[x := Busy(k)], lists[l := Without(lists[l], i)], minShift)
  {
    var kinds', lists' := kinds[x := Busy(k)], lists[l := Without(lists[l], i)];
    assert x in lists[l];
    WithoutMembers(lists[l], i, x);
    forall m, y: nat | 0 <= m < |lists'|
      ensures y in lists'[m] <==> Home(kinds', minShift, y, m)
    {
      assert y in lists[m] <==> Home(kinds, minShift, y, m);
      WithoutMembers(lists[l], i, y);
      assert m != l ==> !Home(kinds, minShift, x, m);
    }
  }

  lemma RunRing(p: Pool, pages: seq<Page>, x: nat, k: nat, l: nat)
    requires Core(p) && Heads(p.kinds, x, k) && OnlyRun(p, pages, x, k) && l < |p.lists|
    ensures Ring(pages, Sentinel(p, l), p.lists[l], ListTag(p.minShift, l))
  {
    var q := p.lists[l];
    BusyTiled(p.kinds, x, k);
    ListsApart(p.kinds, p.lists, p.minShift, l);
    forall j {:trigger pages[q[j]]} | 0 <= j < |q|
      ensures pages[q[j]].next == p.pages[q[j]].next && pages[q[j]].prev == p.pages[q[j]].prev
    {
      assert q[j] in q;
      if x <= q[j] < x + k { RunNodes(p, x, k, q[j], l); }
    }
    RingFrame(p.pages, pages, Sentinel(p, l), q, ListTag(p.minShift, l));
  }

  lemma LooseDescs(p: Pool, pages: seq<Page>, out: seq<Page>, x: nat, k: nat, l: nat)
    requires Core(p) && Heads(p.kinds, x, k) && l < |p.lists|
    requires OnlyRun(p, pages, x, k) && OnlyLinks(pages, out, Sentinel(p, l), p.lists[l])
    ensures DescribedBut(out, p.mem, p.kinds[x := Busy(k)], x, k)
  {
    BusyTiled(p.kinds, x, k);
    ListsApart(p.kinds, p.lists, p.minShift, l);
    forall y | 0 <= y < |p.kinds| && !(x <= y < x + k)
      ensures DescAt(out[y], p.mem, p.kinds[x := Busy(k)], y)
    {
      assert DescAt(p.pages[y], p.mem, p.kinds, y);
      assert y in p.lists[l] ==> Home(p.kinds, p.minShift, y, l);
    }
  }

  lemma DetachTouched(p: Pool, pages: seq<Page>, out: seq<Page>, x: nat, k: nat, l: nat)
    requires Core(p) && Heads(p.kinds, x, k) && OnlyRun(p, pages, x, k) && l < |p.lists| && x in p.lists[l]
    requires OnlyLinks(pages, out, Sentinel(p, l), p.lists[l])
    ensures TouchedOnly(p, out, l, x, x + k)
  {
    BusyTiled(p.kinds, x, k);
    forall y, m | x <= y < x + k && 0 <= m < |p.lists| && m != l
      ensures y !in p.lists[m]
    {
      if y in p.lists[m] {
        assert Home(p.kinds, p.minShift, x, l);
        RunNodes(p, x, k, y, m);
      }
    }
  }

  lemma DetachFacts(p: Pool, x: nat, k: nat, l: nat, i: nat)
    requires Core(p) && Heads(p.kinds, x, k) && l < |p.lists| && i < |p.lists[l]| && p.lists[l][i] == x
    ensures x in p.lists[l] && Apart(Sentinel(p, l), p.lists[l]) && x + k <= |p.kinds|
    ensures Tiled(p.kinds[x := Busy(k)]) && ChunkedOK(p.kinds[x := Busy(k)], p.minShift)
    ensures forall y :: x < y < x + k ==> y !in p.lists[l]
  {
    assert x in p.lists[l];
    BusyTiled(p.kinds, x, k);
    ListsApart(p.kinds, p.lists, p.minShift, l);
    forall y | x < y < x + k
      ensures y !in p.lists[l]
    {
      if y in p.lists[l] { RunNodes(p, x, k, y, l); }
    }
  }

  lemma DetachRing(p: Pool, pages: seq<Page>, x: nat, k: nat, l: nat, i: nat)
    requires Core(p) && Heads(p.kinds, x, k) && OnlyRun(p, pages, x, k)
    requires l < |p.lists| && i < |p.lists[l]| && p.lists[l][i] == x
    ensures ValidRef(pages, Untag(pages[x].prev)) && ValidRef(pages, pages[x].next)
    ensures Ring(Unlinked(pages, x), Sentinel(p, l), Without(p.lists[l], i), ListTag(p.minShift, l))
    ensures OnlyLinks(pages, Unlinked(pages, x), Sentinel(p, l), p.lists[l])
    ensures forall y :: x <= y < x + k ==> Unlinked(pages, x)[y] == pages[y]
  {
    DetachFacts(p, x, k, l, i);
    RunRing(p, pages, x, k, l);
    UnlinkRing(pages, Sentinel(p, l), p.lists[l], ListTag(p.minShift, l), i);
  }

  /** Unlinking the run's head from the list it is on. */
  lemma DetachListed(p: Pool, pages: seq<Page>, x: nat, k: nat, l: nat, i: nat)
    requires Core(p) && Heads(p.kinds, x, k) && OnlyRun(p, pages, x, k)
    requires l < |p.lists| && i < |p.lists[l]| && p.lists[l][i] == x
    ensures ValidRef(pages, Untag(pages[x].prev)) && ValidRef(pages, pages[x].next)
    ensures Loose(p.(pages := Unlinked(pages, x),
                     kinds := p.kinds[x := Busy(k)],
                     lists := p.lists[l := Without(p.lists[l], i)]), x, k)
    ensures forall y :: x <= y < x + k ==> Unlinked(pages, x)[y] == pages[y]
  {
    DetachFacts(p, x, k, l, i);
    hide *;
    DetachRing(p, pages, x, k, l, i);
    DetachTouched(p, pages, Unlinked(pages, x), x, k, l);
    OthersStayLinked(p, Unlinked(pages, x), l, Without(p.lists[l], i), x, x + k);
    DetachedListed(p.kinds, p.lists, p.minShift, x, k, l, i);
    LooseDescs(p, pages, Unlinked(pages, x), x, k, l);
  }

  /** An allocated run is on no list. */
  lemma DetachUnlisted(p: Pool, pages: seq<Page>, x: nat, k: nat)
    requires Core(p) && x < |p.kinds| && p.kinds[x] == Busy(k) && OnlyRun(p, pages, x, k)
    ensures Loose(p.(pages := pages), x, k)
  {
    forall l | 0 <= l < |p.lists|
      ensures Ring(pages, Sentinel(p, l), p.lists[l], ListTag(p.minShift, l))
    {
      RunRing(p, pages, x, k, l);
    }
  }

  // ----- giving a loose run its new role

  lemma AttachedTiled(kinds: seq<Kind>, x: nat, k: nat, kind: Kind)
    requires Tiled(kinds) && x < |kinds| && kinds[x] == Busy(k)
    requires kind == Free(k) || (kind.Chunks? && k == 1)
    ensures Tiled(kinds[x := kind])
  {
    var r := kinds[x := kind];
    assert RunAt(kinds, x, k);
    forall y | 0 <= y < |r| && IsRun(r[y])
      ensures RunAt(r, y, r[y].len)
    {
      assert y != x ==> RunAt(kinds, y, kinds[y].len);
    }
  }

  lemma AttachedListed(kinds: seq<Kind>, lists: seq<seq<nat>>, minShift: nat, x: nat, kind: Kind, l: nat)
    requires minShift <= 12 && Listed(kinds, lists, minShift) && x < |kinds| && kinds[x].Busy? && l < |lists|
    requires Home(kinds[x := kind], minShift, x, l)
    ensures Listed(kinds[x := kind], lists[l := [x] + lists[l]], minShift)
  {
    var kinds', lists' := kinds[x := kind], lists[l := [x] + lists[l]];
    assert x !in lists[l] by { assert !Home(kinds, minShift, x, l); }
    forall m, y: nat | 0 <= m < |lists'|
      ensures y in lists'[m] <==> Home(kinds', minShift, y, m)
    {
      assert y in lists[m] <==> Home(kinds, minShift, y, m);
      if y == x && m != l && Home(kinds', minShift, x, m) {
        HomeIsUnique(kinds', minShift, x, l, m);
      }
    }
  }

  /** The page bitmaps of all pages but x are where they were. */
  ghost predicate OnlyWords(before: seq<Word>, after: seq<Word>, x: nat) {
    && |after| == |before|
    && forall w :: 0 <= w < |before| && !(x * PAGE_WORDS <= w < x * PAGE_WORDS + PAGE_WORDS) ==> after[w] == before[w]
  }

  lemma SameDesc(before: Page, after: Page, mem: seq<Word>, mem': seq<Word>, kinds: seq<Kind>, kinds': seq<Kind>,
                 x: nat, y: nat)
    requires y < |kinds| == |kinds'| && y != x && kinds'[y] == kinds[y] && |mem| == |kinds| * PAGE_WORDS
    requires OnlyWords(mem, mem', x)
    requires DescAt(before, mem, kinds, y)
    requires after.slab == before.slab
    requires after == before || kinds[y].Free? || (kinds[y].Chunks? && kinds[y].shift <= 12
      && HasRoom(kinds[y].shift, kinds[y].used))
    requires kinds[y].Inside? ==> kinds[y].head < |kinds| && kinds'[kinds[y].head] == kinds[kinds[y].head]
    ensures DescAt(after, mem', kinds', y)
  {
    if kinds[y].Chunks? {
      var shift, used := kinds[y].shift, kinds[y].used;
      forall c: nat | c < Count(shift)
        ensures ChunkBit(after.slab, mem', y, shift, c) <==> c < Reserved(shift) || c in used
      {
        var w := y * PAGE_WORDS + c / 64;
        assert y * PAGE_WORDS <= w < y * PAGE_WORDS + PAGE_WORDS;
        assert ChunkBit(before.slab, mem, y, shift, c) <==> c < Reserved(shift) || c in used;
      }
    }
  }

  /** The run, now linked at the front of list l, whose own descriptors are right. */
  lemma AttachedDescs(p: Pool, t: Pool, x: nat, k: nat, l: nat)
    requires Loose(p, x, k) && Shape(t) && l < |p.lists| && x < |t.kinds|
    requires t.kinds[x] == Free(k) || (t.kinds[x].Chunks? && k == 1)
    requires t.kinds == p.kinds[x := t.kinds[x]] && t.minShift == p.minShift && OnlyWords(p.mem, t.mem, x)
    requires OnlyLinks(p.pages[x := t.pages[x]], t.pages, Sentinel(p, l), [x] + p.lists[l])
    requires DescAt(t.pages[x], t.mem, t.kinds, x)
    requires forall y :: x < y < x + k ==> p.pages[y] == Page(0, NULL, TAG_PAGE)
    ensures Described(t.pages, t.mem, t.kinds)
  {
    assert RunAt(p.kinds, x, k);
    forall y | 0 <= y < |t.kinds|
      ensures DescAt(t.pages[y], t.mem, t.kinds, y)
    {
      if !(x <= y < x + k) {
        assert DescAt(p.pages[y], p.mem, p.kinds, y);
        if y in p.lists[l] {
          assert Home(p.kinds, p.minShift, y, l);
        } else {
          assert y !in [x] + p.lists[l];
        }
        SameDesc(p.pages[y], t.pages[y], p.mem, t.mem, p.kinds, t.kinds, x, y);
      } else if y != x {
        assert p.kinds[y] == Inside(x);
        assert !Home(p.kinds, p.minShift, y, l);
        assert y !in p.lists[l];
        assert y !in [x] + p.lists[l];
      }
    }
  }

  lemma AttachTouched(p: Pool, pages: seq<Page>, x: nat, k: nat, l: nat)
    requires Loose(p, x, k) && l < |p.lists|
    requires |pages| == |p.pages|
    requires OnlyLinks(p.pages[x := pages[x]], pages, Sentinel(p, l), [x] + p.lists[l])
    ensures TouchedOnly(p, pages, l, x, x + 1)
    ensures x !in p.lists[l]
  {
    forall m | 0 <= m < |p.lists|
      ensures x !in p.lists[m]
    {
      assert !Home(p.kinds, p.minShift, x, m);
    }
  }

  /** A run pushed on the free list (rp_slab_free_pages). */
  lemma FreeRing(p: Pool, x: nat, k: nat)
    requires Loose(p, x, k)
    ensures var f := FreeIndex(p);
      && x !in p.lists[f] && Apart(Sentinel(p, f), p.lists[f])
      && Ring(p.pages, Sentinel(p, f), p.lists[f], TAG_PAGE) && TAG_PAGE == ListTag(p.minShift, f)
      && p.pages[Sentinel(p, f)].next == Ref(At(Sentinel(p, f), p.lists[f], 0)) != Ref(x)
    ensures ChunkedOK(p.kinds[x := Free(k)], p.minShift)
  {
    var f := FreeIndex(p);
    assert !Home(p.kinds, p.minShift, x, f);
    ListsApart(p.kinds, p.lists, p.minShift, f);
  }

  lemma AttachFree(p: Pool, x: nat, k: nat)
    requires Loose(p, x, k)
    requires p.pages[x].slab == k && forall y :: x < y < x + k ==> p.pages[y] == Page(0, NULL, TAG_PAGE)
    ensures p.pages[Sentinel(p, FreeIndex(p))].next != Ref(x)
    ensures var f := FreeIndex(p);
      && ValidRef(p.pages, p.pages[Sentinel(p, f)].next)
      && Core(p.(pages := Pushed(p.pages, Sentinel(p, f), x, TAG_PAGE),
                 kinds := p.kinds[x := Free(k)],
                 lists := p.lists[f := [x] + p.lists[f]]))
  {
    hide Tiled, ChunkedOK, Linked, Listed, DescribedBut, Ring;
    var f := FreeIndex(p);
    var q := p.lists[f];
    FreeRing(p, x, k);
    PushRing(p.pages, Sentinel(p, f), q, TAG_PAGE, x);
    var t := p.(pages := Pushed(p.pages, Sentinel(p, f), x, TAG_PAGE),
                kinds := p.kinds[x := Free(k)],
                lists := p.lists[f := [x] + q]);
    assert DescAt(t.pages[x], t.mem, t.kinds, x) && OnlyWords(p.mem, t.mem, x);
    hide *;
    AttachTouched(p, t.pages, x, k, f);
    OthersStayLinked(p, t.pages, f, [x] + q, x, x + 1);
    AttachedTiled(p.kinds, x, k, Free(k));
    AttachedListed(p.kinds, p.lists, p.minShift, x, Free(k), f);
    AttachedDescs(p, t, x, k, f);
  }

  // ----- the whole of rp_slab_free_pages

  /** The run's descriptors reset: its length in the head, zeros behind. */
  function Zeroed(pages: seq<Page>, x: nat, k: nat): (r: seq<Page>)
    requires 1 <= k <= MAX_PAGES && x + k <= |pages|
    ensures |r| == |pages|
  {
    seq(|pages|, j requires 0 <= j < |pages| =>
      if j == x then pages[x].(slab := k)
      else if x < j < x + k then Page(0, NULL, TAG_PAGE)
      else pages[j])
  }

  /** The pool with the run at x, on no list before, pushed on the free list. */
  function Given(p: Pool, pages: seq<Page>, lists: seq<seq<nat>>, x: nat, k: nat): Pool
    requires Shape(p) && x < |p.kinds| && |pages| == |p.pages| && |lists| == |p.lists|
    requires ValidRef(pages, pages[Sentinel(p, FreeIndex(p))].next)
  {
    var f := FreeIndex(p);
    p.(pages := Pushed(pages, Sentinel(p, f), x, TAG_PAGE),
       kinds := p.kinds[x := Free(k)],
       lists := lists[f := [x] + lists[f]])
  }

  lemma ZeroedOnlyRun(p: Pool, x: nat, k: nat)
    requires Core(p) && x < |p.kinds| && 1 <= k <= MAX_PAGES && x + k <= |p.kinds|
    ensures Shape(p) && OnlyRun(p, Zeroed(p.pages, x, k), x, k)
  {}

  lemma GiveListed(p: Pool, x: nat, k: nat, l: nat, i: nat)
    requires Core(p) && Heads(p.kinds, x, k) && 1 <= k <= MAX_PAGES && x + k <= |p.kinds|
    requires l < |p.lists| && i < |p.lists[l]| && p.lists[l][i] == x
    ensures var z := Zeroed(p.pages, x, k);
      && ValidRef(z, Untag(z[x].prev)) && ValidRef(z, z[x].next) && Untag(z[x].prev) != Ref(x)
      && var u := Unlinked(z, x);
      && ValidRef(u, u[Sentinel(p, FreeIndex(p))].next) && u[Sentinel(p, FreeIndex(p))].next != Ref(x)
      && Core(Given(p, u, p.lists[l := Without(p.lists[l], i)], x, k))
  {
    hide Core, OnlyRun;
    ZeroedOnlyRun(p, x, k);
    var z := Zeroed(p.pages, x, k);
    PrevIsNotSelf(p, l, i);
    hide *;
    DetachListed(p, z, x, k, l, i);
    var mid := p.(pages := Unlinked(z, x), kinds := p.kinds[x := Busy(k)],
        lists := p.lists[l := Without(p.lists[l], i)]);
    ZeroedRun(p.pages, x, k);
    AttachFree(mid, x, k);
    GivenIs(p, mid, x, k);
  }

  lemma ZeroedRun(pages: seq<Page>, x: nat, k: nat)
    requires 1 <= k <= MAX_PAGES && x + k <= |pages|
    ensures var z := Zeroed(pages, x, k);
      && z[x] == pages[x].(slab := k)
      && forall y :: x < y < x + k ==> z[y] == Page(0, NULL, TAG_PAGE)
  {}

  lemma GivenIs(p: Pool, mid: Pool, x: nat, k: nat)
    requires Shape(p) && Shape(mid) && x < |p.kinds|
    requires mid.kinds == p.kinds[x := Busy(k)] && mid.minShift == p.minShift && mid.mem == p.mem
    requires ValidRef(mid.pages, mid.pages[Sentinel(p, FreeIndex(p))].next)
    ensures Given(p, mid.pages, mid.lists, x, k) ==
      var f := FreeIndex(mid);
      mid.(pages := Pushed(mid.pages, Sentinel(mid, f), x, TAG_PAGE), kinds := mid.kinds[x := Free(k)],
          lists := mid.lists[f := [x] + mid.lists[f]])
  {}

  lemma PrevIsNotSelf(p: Pool, l: nat, i: nat)
    requires Core(p) && l < |p.lists| && i < |p.lists[l]|
    ensures p.lists[l][i] < |p.kinds| && Untag(p.pages[p.lists[l][i]].prev) != Ref(p.lists[l][i])
  {
    var q, s := p.lists[l], Sentinel(p, l);
    ListsApart(p.kinds, p.lists, p.minShift, l);
    assert q[i] in q;
    assert At(s, q, i - 1) != q[i];
    assert p.pages[q[i]].prev == Ref(At(s, q, i - 1)) + ListTag(p.minShift, l);
  }

  lemma GiveUnlisted(p: Pool, x: nat, k: nat)
    requires Core(p) && x < |p.kinds| && p.kinds[x] == Busy(k) && 1 <= k <= MAX_PAGES && x + k <= |p.kinds|
    ensures var z := Zeroed(p.pages, x, k);
      && ValidRef(z, z[Sentinel(p, FreeIndex(p))].next) && z[Sentinel(p, FreeIndex(p))].next != Ref(x)
      && Core(Given(p, z, p.lists, x, k))
  {
    var z := Zeroed(p.pages, x, k);
    assert OnlyRun(p, z, x, k);
    assert p.kinds[x := Busy(k)] == p.kinds;
    var mid := p.(pages := z);
    assert Shape(mid) && FreeIndex(mid) == FreeIndex(p) && Sentinel(mid, FreeIndex(mid)) == Sentinel(p, FreeIndex(p));
    hide *;
    DetachUnlisted(p, z, x, k);
    ZeroedRun(p.pages, x, k);
    AttachFree(mid, x, k);
    GivenIs(p, mid, x, k);
  }

  /** t is p with its loose page x cut into chunks and put alone on its slot list. */
  ghost predicate Carved(p: Pool, t: Pool, x: nat)
    requires Shape(p) && Shape(t)
  {
    && |t.kinds| == |p.kinds| && x < |p.kinds| && t.minShift == p.minShift
    && t.kinds[x].Chunks?
    && ChunkShift(t.kinds[x].shift) && p.minShift <= t.kinds[x].shift
    && HasRoom(t.kinds[x].shift, t.kinds[x].used)
    && (forall c :: c in t.kinds[x].used ==> Reserved(t.kinds[x].shift) <= c < Count(t.kinds[x].shift))
    && t.kinds == p.kinds[x := t.kinds[x]]
    && var l := t.kinds[x].shift - p.minShift;
    && p.lists[l] == [] && t.lists == p.lists[l := [x]]
    && var s := Sentinel(p, l);
    && t.pages == p.pages[x := Page(t.pages[x].slab, Ref(s), Ref(s) + TypeTag(t.kinds[x].shift))]
                         [s := p.pages[s].(next := Ref(x))]
    && OnlyWords(p.mem, t.mem, x)
    && Mapped(t.pages[x].slab, t.mem, x, t.kinds[x].shift, t.kinds[x].used)
  }

  /** A fresh page cut into chunks and put on its empty slot list: the overwrite of the
      sentinel's `next` drops nothing. */
  lemma AttachChunks(p: Pool, t: Pool, x: nat)
    requires Loose(p, x, 1) && Shape(t) && Carved(p, t, x)
    ensures Core(t)
  {
    var l := t.kinds[x].shift - p.minShift;
    assert [x] + p.lists[l] == [x];
    assert Ring(t.pages, Sentinel(p, l), [x], ListTag(p.minShift, l));
    assert ChunkedOK(t.kinds, t.minShift);
    assert DescAt(t.pages[x], t.mem, t.kinds, x);
    assert OnlyLinks(p.pages[x := t.pages[x]], t.pages, Sentinel(p, l), [x]);
    assert Home(t.kinds, p.minShift, x, l);
    hide *;
    AttachTouched(p, t.pages, x, 1, l);
    OthersStayLinked(p, t.pages, l, [x], x, x + 1);
    AttachedTiled(p.kinds, x, 1, t.kinds[x]);
    AttachedListed(p.kinds, p.lists, p.minShift, x, t.kinds[x], l);
    AttachedDescs(p, t, x, 1, l);
  }

  // ----- handing out and taking back one chunk

  /** The bit of chunk c set, wherever the class keeps its bitmap. */
  function MarkedSlab(slab: Word, shift: nat, c: nat): (r: Word)
    requires ChunkShift(shift) && c < Count(shift) <= 512 && (shift > EXACT_SHIFT ==> c < 32)
    requires (shift == EXACT_SHIFT ==> c < 64)
  {
    if shift < EXACT_SHIFT then slab
    else
      var i := if shift == EXACT_SHIFT then c else MAP_SHIFT + c;
      SetBit(slab, i);
      Or(slab, Pow2(i))
  }

  function MarkedMem(mem: seq<Word>, x: nat, shift: nat, c: nat): (r: seq<Word>)
    requires c < 512 && x * PAGE_WORDS + PAGE_WORDS <= |mem|
    ensures |r| == |mem|
  {
    if shift >= EXACT_SHIFT then mem
    else
      var w := x * PAGE_WORDS + c / 64;
      SetBit(mem[w], c % 64);
      mem[w := Or(mem[w], Pow2(c % 64))]
  }

  /** The bit of chunk c cleared. */
  function ClearedSlab(slab: Word, shift: nat, c: nat): (r: Word)
    requires ChunkShift(shift) && c < Count(shift) <= 512 && (shift > EXACT_SHIFT ==> c < 32)
    requires (shift == EXACT_SHIFT ==> c < 64)
  {
    if shift < EXACT_SHIFT then slab
    else
      var i := if shift == EXACT_SHIFT then c else MAP_SHIFT + c;
      ClearBit(slab, i);
      And(slab, Not(Pow2(i)))
  }

  function ClearedMem(mem: seq<Word>, x: nat, shift: nat, c: nat): (r: seq<Word>)
    requires c < 512 && x * PAGE_WORDS + PAGE_WORDS <= |mem|
    ensures |r| == |mem|
  {
    if shift >= EXACT_SHIFT then mem
    else
      var w := x * PAGE_WORDS + c / 64;
      ClearBit(mem[w], c % 64);
      mem[w := And(mem[w], Not(Pow2(c % 64)))]
  }

  lemma ChunkIndexBounds(shift: nat, c: nat)
    requires ChunkShift(shift) && c < Count(shift)
    ensures Count(shift) <= 512
    ensures shift == EXACT_SHIFT ==> c < 64
    ensures shift > EXACT_SHIFT ==> c < 32 && Count(shift) <= 32
  {
    Geometry(shift);
  }

  /** Two states of page x's bitmap, differing at most in chunk c, whose bit is now `on`. */
  ghost predicate BitMoved(slab: Word, mem: seq<Word>, slab': Word, mem': seq<Word>, x: nat, shift: nat, c: nat,
                           on: bool)
    requires x * PAGE_WORDS + PAGE_WORDS <= |mem| == |mem'|
  {
    && OnlyWords(mem, mem', x)
    && (shift < EXACT_SHIFT ==> slab' == slab)
    && (shift >= EXACT_SHIFT ==> mem' == mem)
    && (shift == EXACT_SHIFT ==> forall j: nat :: Bit(slab', j) <==> if j == c then on else Bit(slab, j))
    && (shift > EXACT_SHIFT ==> forall j: nat :: Bit(slab', j) <==> if j == MAP_SHIFT + c then on else Bit(slab, j))
    && (shift < EXACT_SHIFT ==> forall d: nat :: d < 512 ==>
         (Bit(MapWord(mem', x, d / 64), d % 64) <==> if d == c then on else Bit(MapWord(mem, x, d / 64), d % 64)))
  }

  lemma Marking(slab: Word, mem: seq<Word>, x: nat, shift: nat, c: nat)
    requires ChunkShift(shift) && c < Count(shift) && x * PAGE_WORDS + PAGE_WORDS <= |mem|
    requires Count(shift) <= 512 && (shift > EXACT_SHIFT ==> c < 32) && (shift == EXACT_SHIFT ==> c < 64)
    ensures BitMoved(slab, mem, MarkedSlab(slab, shift, c), MarkedMem(mem, x, shift, c), x, shift, c, true)
  {
    if shift < EXACT_SHIFT {
      var w := x * PAGE_WORDS + c / 64;
      SetBit(mem[w], c % 64);
      SmallMoved(mem, MarkedMem(mem, x, shift, c), x, c, true, Or(mem[w], Pow2(c % 64)));
    } else {
      SetBit(slab, if shift == EXACT_SHIFT then c else MAP_SHIFT + c);
    }
  }

  lemma SmallMoved(mem: seq<Word>, mem': seq<Word>, x: nat, c: nat, on: bool, word: Word)
    requires c < 512 && x * PAGE_WORDS + PAGE_WORDS <= |mem| == |mem'|
    requires mem' == mem[x * PAGE_WORDS + c / 64 := word]
    requires forall j: nat :: j < 64 ==>
      (Bit(word, j) <==> if j == c % 64 then on else Bit(mem[x * PAGE_WORDS + c / 64], j))
    ensures OnlyWords(mem, mem', x)
    ensures forall d: nat :: d < 512 ==>
      (Bit(MapWord(mem', x, d / 64), d % 64) <==> if d == c then on else Bit(MapWord(mem, x, d / 64), d % 64))
  {
    forall d: nat | d < 512
      ensures Bit(MapWord(mem', x, d / 64), d % 64) <==> if d == c then on else Bit(MapWord(mem, x, d / 64), d % 64)
    {
      if d / 64 == c / 64 {
        assert d % 64 == c % 64 <==> d == c;
      }
    }
  }

  lemma Clearing(slab: Word, mem: seq<Word>, x: nat, shift: nat, c: nat)
    requires ChunkShift(shift) && c < Count(shift) && x * PAGE_WORDS + PAGE_WORDS <= |mem|
    requires Count(shift) <= 512 && (shift > EXACT_SHIFT ==> c < 32) && (shift == EXACT_SHIFT ==> c < 64)
    ensures BitMoved(slab, mem, ClearedSlab(slab, shift, c), ClearedMem(mem, x, shift, c), x, shift, c, false)
  {
    if shift < EXACT_SHIFT {
      var w := x * PAGE_WORDS + c / 64;
      ClearBit(mem[w], c % 64);
      SmallMoved(mem, ClearedMem(mem, x, shift, c), x, c, false, And(mem[w], Not(Pow2(c % 64))));
    } else {
      ClearBit(slab, if shift == EXACT_SHIFT then c else MAP_SHIFT + c);
    }
  }

  /** Moving one bit of a mapped page moves exactly that chunk in or out of `used`. */
  lemma MovedMap(slab: Word, mem: seq<Word>, slab': Word, mem': seq<Word>, x: nat, shift: nat, used: set<nat>, c: nat,
                 on: bool)
    requires ChunkShift(shift) && Reserved(shift) <= c < Count(shift)
    requires x * PAGE_WORDS + PAGE_WORDS <= |mem| == |mem'|
    requires Mapped(slab, mem, x, shift, used)
    requires BitMoved(slab, mem, slab', mem', x, shift, c, on)
    ensures Mapped(slab', mem', x, shift, if on then used + {c} else used - {c})
  {
    ChunkIndexBounds(shift, c);
    var used' := if on then used + {c} else used - {c};
    forall d: nat | d < Count(shift)
      ensures ChunkBit(slab', mem', x, shift, d) <==> d < Reserved(shift) || d in used'
    {
      assert ChunkBit(slab, mem, x, shift, d) <==> d < Reserved(shift) || d in used;
    }
  }

  /** Page x of t is page x of p with one chunk moved; the other pages keep their kinds and
      bitmaps. */
  ghost predicate Rekinded(p: Pool, t: Pool, x: nat)
    requires Shape(p) && Shape(t)
  {
    && x < |p.kinds| && p.kinds[x].Chunks?
    && t.minShift == p.minShift && |t.kinds| == |p.kinds|
    && var shift := p.kinds[x].shift;
    && t.kinds[x].Chunks? && t.kinds[x].shift == shift
    && t.kinds == p.kinds[x := t.kinds[x]]
    && p.minShift <= shift && ChunkShift(shift)
    && (forall c :: c in t.kinds[x].used ==> Reserved(shift) <= c < Count(shift))
    && OnlyWords(p.mem, t.mem, x)
    && DescAt(t.pages[x], t.mem, t.kinds, x)
  }

  /** x is on the list of its class in t exactly if it has room; no other page moved. */
  ghost predicate Relisted(p: Pool, t: Pool, x: nat)
    requires Shape(p) && Shape(t)
    requires x < |p.kinds| == |t.kinds| && p.kinds[x].Chunks? && t.kinds[x].Chunks?
    requires p.minShift <= p.kinds[x].shift <= 11 && t.minShift == p.minShift
  {
    var l := p.kinds[x].shift - p.minShift;
    && t.lists == p.lists[l := t.lists[l]]
    && NoDup(t.lists[l])
    && (forall y :: y in t.lists[l] <==> if y == x then HasRoom(p.kinds[x].shift, t.kinds[x].used) else y in p.lists[l])
    && Ring(t.pages, Sentinel(p, l), t.lists[l], TypeTag(p.kinds[x].shift))
    && (forall y :: 0 <= y < |t.pages| && y != x ==> t.pages[y].slab == p.pages[y].slab)
    && (forall y :: 0 <= y < |t.pages| && y != x && y != Sentinel(p, l) && y !in p.lists[l] ==>
         t.pages[y] == p.pages[y])
  }

  /** t is p with one chunk of page x moved. */
  ghost predicate Rechunked(p: Pool, t: Pool, x: nat)
    requires Shape(p) && Shape(t)
  {
    Rekinded(p, t, x) && Relisted(p, t, x)
  }

  lemma RechunkedDescs(p: Pool, t: Pool, x: nat)
    requires Core(p) && Shape(t) && Rechunked(p, t, x)
    ensures Described(t.pages, t.mem, t.kinds)
  {
    var l := p.kinds[x].shift - p.minShift;
    forall y | 0 <= y < |t.kinds|
      ensures DescAt(t.pages[y], t.mem, t.kinds, y)
    {
      if y != x {
        assert DescAt(p.pages[y], p.mem, p.kinds, y);
        assert y in p.lists[l] ==> Home(p.kinds, p.minShift, y, l);
        SameDesc(p.pages[y], t.pages[y], p.mem, t.mem, p.kinds, t.kinds, x, y);
      }
    }
  }

  lemma RechunkedListed(p: Pool, t: Pool, x: nat)
    requires Core(p) && Shape(t) && Rechunked(p, t, x)
    ensures Listed(t.kinds, t.lists, t.minShift)
  {
    var l := p.kinds[x].shift - p.minShift;
    forall m, y: nat | 0 <= m < |t.lists|
      ensures y in t.lists[m] <==> Home(t.kinds, t.minShift, y, m)
    {
      assert y in p.lists[m] <==> Home(p.kinds, p.minShift, y, m);
      assert y in t.lists[l] <==> if y == x then HasRoom(p.kinds[x].shift, t.kinds[x].used) else y in p.lists[l];
    }
  }

  lemma RechunkedTouched(p: Pool, t: Pool, x: nat)
    requires Core(p) && Shape(t) && Rechunked(p, t, x)
    ensures TouchedOnly(p, t.pages, p.kinds[x].shift - p.minShift, x, x + 1)
  {
    forall m | 0 <= m < |p.lists| && m != p.kinds[x].shift - p.minShift
      ensures x !in p.lists[m]
    {
      assert !Home(p.kinds, p.minShift, x, m);
    }
  }

  lemma RechunkedLinked(p: Pool, t: Pool, x: nat)
    requires Core(p) && Shape(t) && Rechunked(p, t, x)
    ensures Linked(t.pages, |t.kinds|, t.lists, t.minShift)
  {
    var l := p.kinds[x].shift - p.minShift;
    RechunkedTouched(p, t, x);
    assert ListTag(p.minShift, l) == TypeTag(p.kinds[x].shift);
    hide *;
    OthersStayLinked(p, t.pages, l, t.lists[l], x, x + 1);
  }

  lemma RechunkedTiled(kinds: seq<Kind>, x: nat, kind: Kind)
    requires Tiled(kinds) && x < |kinds| && kinds[x].Chunks? && kind.Chunks?
    ensures Tiled(kinds[x := kind])
  {
    forall y | 0 <= y < |kinds| && IsRun(kinds[y])
      ensures RunAt(kinds[x := kind], y, kinds[y].len)
    {
      assert RunAt(kinds, y, kinds[y].len);
    }
  }

  lemma RechunkKeepsCore(p: Pool, t: Pool, x: nat)
    requires Core(p) && Shape(t) && Rechunked(p, t, x)
    ensures Core(t)
  {
    RechunkedTiled(p.kinds, x, t.kinds[x]);
    assert ChunkedOK(t.kinds, t.minShift);
    RechunkedDescs(p, t, x);
    RechunkedListed(p, t, x);
    RechunkedLinked(p, t, x);
  }
}
