/** Consequences of the pool invariant that the allocator's code relies on. */
module SlabFacts {
  import opened Sequences
  import opened Arith
  import opened Words
  import opened SlabModel
  import opened SlabInvariant
  import opened SlabSteps
  import opened SlabLive
  import opened SlabBits
  import opened SlabChunks

  lemma CoreShape(p: Pool)
    requires Core(p)
    ensures Shape(p)
  {}

  lemma CoreTiled(p: Pool)
    requires Core(p)
    ensures Tiled(p.kinds)
  {}

  lemma HeadBounds(p: Pool, x: nat, k: nat)
    requires Core(p) && Heads(p.kinds, x, k)
    ensures 1 <= k <= MAX_PAGES && x + k <= |p.kinds|
  {
    assert IsRun(p.kinds[x]) ==> RunAt(p.kinds, x, p.kinds[x].len);
  }

  /** The list and position of a run or of a page with room; an allocated run is on none. */
  lemma HomeList(p: Pool, x: nat, k: nat) returns (l: nat, i: nat)
    requires Core(p) && Heads(p.kinds, x, k)
    requires p.kinds[x].Chunks? ==> p.kinds[x].shift <= 12 && HasRoom(p.kinds[x].shift, p.kinds[x].used)
    ensures p.kinds[x] != Busy(k) ==> l < |p.lists| && i < |p.lists[l]| && p.lists[l][i] == x
    ensures p.kinds[x] == Busy(k) <==> p.pages[x].next == NULL
  {
    l, i := 0, 0;
    assert DescAt(p.pages[x], p.mem, p.kinds, x);
    if p.kinds[x] != Busy(k) {
      l := if p.kinds[x].Free? then FreeIndex(p) else p.kinds[x].shift - p.minShift;
      assert Home(p.kinds, p.minShift, x, l);
      i :| 0 <= i < |p.lists[l]| && p.lists[l][i] == x;
      assert Ring(p.pages, Sentinel(p, l), p.lists[l], ListTag(p.minShift, l));
    }
  }

  lemma ClearBitExists(w: Word, i: nat)
    requires w != ALL_ONES && i <= 64 && forall j: nat :: j < i ==> Bit(w, j)
    ensures i < 64
  {
    if i == 64 {
      AllBitsSet(w);
    }
  }

  /** Shifting a bit left by one, in 64 bits. */
  lemma ShiftBit(b: nat)
    requires b < 64
    ensures (2 * Pow2(b)) % (ALL_ONES + 1) == if b + 1 < 64 then Pow2(b + 1) else 0
    ensures Pow2(b) <= ALL_ONES
  {
    Pow2Word();
    Pow2Monotone(b + 1, 64);
    if b + 1 < 64 {
      Pow2Monotone(b + 2, 64);
    }
  }

  lemma NextBigBit(mask: Word, b: nat, last: nat)
    requires b < last <= 64
    requires forall j: nat :: Bit(mask, j) <==> MAP_SHIFT <= j < last
    ensures b >= MAP_SHIFT ==> (And(mask, (2 * Pow2(b)) % (ALL_ONES + 1)) != 0 <==> b + 1 < last)
  {
    ShiftBit(b);
    if b + 1 < 64 {
      TestBit(mask, b + 1);
    }
  }

  /** A page on the free list heads a free run. */
  lemma FreeRun(p: Pool, x: nat)
    requires Core(p) && x in p.lists[FreeIndex(p)]
    ensures x < |p.kinds| && p.kinds[x].Free? && p.pages[x].slab == p.kinds[x].len
    ensures 1 <= p.kinds[x].len <= |p.kinds| - x
  {
    assert Home(p.kinds, p.minShift, x, FreeIndex(p));
    assert DescAt(p.pages[x], p.mem, p.kinds, x);
    assert RunAt(p.kinds, x, p.kinds[x].len);
  }

  /** x is the run at position i of the free list. */
  ghost predicate OnFreeList(p: Pool, i: nat, x: nat) {
    && Core(p)
    && i < |p.lists[FreeIndex(p)]| && p.lists[FreeIndex(p)][i] == x
    && x < |p.kinds| && p.kinds[x].Free?
  }

  lemma RunLinks(p: Pool, i: nat, x: nat)
    requires OnFreeList(p, i, x)
    ensures Ring(p.pages, Sentinel(p, FreeIndex(p)), p.lists[FreeIndex(p)], TAG_PAGE)
    ensures Apart(Sentinel(p, FreeIndex(p)), p.lists[FreeIndex(p)])
    ensures p.pages[x].prev == Ref(At(Sentinel(p, FreeIndex(p)), p.lists[FreeIndex(p)], i - 1))
    ensures p.pages[x].next == Ref(At(Sentinel(p, FreeIndex(p)), p.lists[FreeIndex(p)], i + 1))
    ensures At(Sentinel(p, FreeIndex(p)), p.lists[FreeIndex(p)], i - 1) != x
  {
    var f := FreeIndex(p);
    assert p.lists[f][i] in p.lists[f];
    ListsApart(p.kinds, p.lists, p.minShift, f);
  }

  lemma UnlinkRefs(p: Pool, i: nat, x: nat)
    requires OnFreeList(p, i, x)
    ensures ValidRef(p.pages, p.pages[x].prev) && ValidRef(p.pages, p.pages[x].next)
    ensures p.pages[x].prev != Ref(x) && Untag(p.pages[x].prev) == p.pages[x].prev
    ensures Detached(p, Unlinked(p.pages, x), i, p.kinds[x].len)
  {
    RunLinks(p, i, x);
    FreeRun(p, x) by { assert p.lists[FreeIndex(p)][i] in p.lists[FreeIndex(p)]; }
    hide Core, CutOut, Unlinked, Ring, Apart;
    UnlinkCutsOut(p.pages, Sentinel(p, FreeIndex(p)), p.lists[FreeIndex(p)], i, p.kinds[x].len);
  }

  /** The descriptors once the rest of the run of len pages at x has its length. */
  function Cut(pages: seq<Page>, x: nat, k: nat, len: nat): (cut: seq<Page>)
    requires x + k < |pages| && k <= len <= MAX_PAGES
    ensures |cut| == |pages|
  {
    pages[x + k := pages[x + k].(slab := len - k)]
  }

  lemma AtMember(s: nat, q: seq<nat>, j: int)
    ensures At(s, q, j) == s || At(s, q, j) in q
  {}

  lemma SplitRefs(p: Pool, i: nat, x: nat, k: nat)
    requires OnFreeList(p, i, x) && 1 <= k < p.kinds[x].len <= |p.kinds| - x
    ensures p.pages[x].prev != Ref(x + k) && p.pages[x].next != Ref(x + k)
    ensures x + k !in p.lists[FreeIndex(p)]
  {
    RunLinks(p, i, x);
    RestUnlisted(p, i, k, FreeIndex(p));
    hide Tiled, ChunkedOK, Described, Linked, Listed, Ring, At;
    AtMember(Sentinel(p, FreeIndex(p)), p.lists[FreeIndex(p)], i - 1);
    AtMember(Sentinel(p, FreeIndex(p)), p.lists[FreeIndex(p)], i + 1);
  }

  lemma SplitDetaches(p: Pool, i: nat, x: nat, k: nat)
    requires OnFreeList(p, i, x) && 1 <= k < p.kinds[x].len <= |p.kinds| - x
    ensures var cut := Cut(p.pages, x, k, p.kinds[x].len);
      && ValidRef(cut, cut[x].prev) && ValidRef(cut, cut[x].next)
      && Detached(p, Replaced(cut, x, x + k), i, k)
  {
    hide Core, CutOut, Replaced, Ring, Apart;
    CoreShape(p);
    RunLinks(p, i, x);
    SplitRefs(p, i, x, k);
    SplitCutsOut(p.pages, Sentinel(p, FreeIndex(p)), p.lists[FreeIndex(p)], i, k, p.kinds[x].len,
        Cut(p.pages, x, k, p.kinds[x].len));
  }

  /** The references rp_slab_free_pages follows are good ones. */
  ghost predicate Releasable(pages: seq<Page>, x: nat, k: nat)
    requires 1 <= k <= MAX_PAGES && x + k < |pages|
  {
    var z := Zeroed(pages, x, k);
    && (z[x].next != NULL ==>
         ValidRef(z, Untag(z[x].prev)) && ValidRef(z, z[x].next) && Untag(z[x].prev) != Ref(x))
    && var u := if z[x].next != NULL then Unlinked(z, x) else z;
    && ValidRef(u, u[|u| - 1].next) && u[|u| - 1].next != Ref(x)
  }

  function Released(pages: seq<Page>, x: nat, k: nat): seq<Page>
    requires 1 <= k <= MAX_PAGES && x + k < |pages| && Releasable(pages, x, k)
  {
    var z := Zeroed(pages, x, k);
    var u := if z[x].next != NULL then Unlinked(z, x) else z;
    Pushed(u, |u| - 1, x, TAG_PAGE)
  }

  lemma ZeroedNext(pages: seq<Page>, x: nat, k: nat)
    requires 1 <= k <= MAX_PAGES && x + k <= |pages|
    ensures Zeroed(pages, x, k)[x].next == pages[x].next
  {}

  /** The lists with page x at the front of the free list, f, and on no other. */
  ghost function Fronted(lists: seq<seq<nat>>, f: nat, x: nat): (r: seq<seq<nat>>)
    ensures |r| == |lists|
  {
    seq(|lists|, l requires 0 <= l < |lists| => (if l == f then [x] else []) + Minus(lists[l], x))
  }

  lemma FrontedListed(p: Pool, x: nat, l: nat, i: nat)
    requires Core(p) && l < |p.lists| && i < |p.lists[l]| && p.lists[l][i] == x
    ensures var rest, f := p.lists[l := Without(p.lists[l], i)], FreeIndex(p);
      rest[f := [x] + rest[f]] == Fronted(p.lists, f, x)
  {
    assert Home(p.kinds, p.minShift, x, l);
    forall m | 0 <= m < |p.lists| && m != l
      ensures x !in p.lists[m]
    {
      assert !Home(p.kinds, p.minShift, x, m);
    }
    assert Index(p.lists[l], x) == i;
    MinusIs(p.lists[l], x);
    var rest, f := p.lists[l := Without(p.lists[l], i)], FreeIndex(p);
    forall m | 0 <= m < |p.lists|
      ensures rest[f := [x] + rest[f]][m] == Fronted(p.lists, f, x)[m]
    {
      assert [] + rest[m] == rest[m];
    }
  }

  lemma FrontedUnlisted(p: Pool, x: nat)
    requires Core(p) && x < |p.kinds| && (p.kinds[x].Busy? || p.kinds[x].Inside?)
    ensures var f := FreeIndex(p); p.lists[f := [x] + p.lists[f]] == Fronted(p.lists, f, x)
  {
    var f := FreeIndex(p);
    forall m | 0 <= m < |p.lists|
      ensures p.lists[f := [x] + p.lists[f]][m] == Fronted(p.lists, f, x)[m]
    {
      assert !Home(p.kinds, p.minShift, x, m);
      assert [] + p.lists[m] == p.lists[m];
    }
  }

  lemma GiveRefs(p: Pool, x: nat, k: nat)
    requires Core(p) && Heads(p.kinds, x, k) && 1 <= k <= MAX_PAGES && x + k <= |p.kinds|
    requires p.kinds[x].Chunks? ==> p.kinds[x].shift <= 12 && HasRoom(p.kinds[x].shift, p.kinds[x].used)
    ensures Releasable(p.pages, x, k)
    ensures Core(p.(pages := Released(p.pages, x, k), kinds := p.kinds[x := Free(k)],
                    lists := Fronted(p.lists, FreeIndex(p), x)))
  {
    hide Core, Zeroed, Unlinked, Pushed, HasRoom, Fronted;
    var l, i := HomeList(p, x, k);
    var listed := p.kinds[x] != Busy(k);
    CoreShape(p);
    assert |p.pages| - 1 == Sentinel(p, FreeIndex(p));
    ZeroedNext(p.pages, x, k);
    if listed {
      FrontedListed(p, x, l, i);
      hide Heads;
      GiveListed(p, x, k, l, i);
    } else {
      FrontedUnlisted(p, x);
      hide Heads;
      GiveUnlisted(p, x, k);
    }
  }

  // ----- the page at the front of a slot list

  /** Page x, carved into chunks of 2^shift bytes, is first on its slot list. */
  ghost predicate SlotFront(p: Pool, x: nat, shift: nat) {
    && Core(p)
    && x < |p.kinds| && p.kinds[x].Chunks? && p.kinds[x].shift == shift
    && ChunkShift(shift) && p.minShift <= shift
    && p.lists[shift - p.minShift] != [] && p.lists[shift - p.minShift][0] == x
  }

  /** The invariant that makes the scan of a slot list stop at its first page: a listed page
      has a free chunk, and is mapped by its bitmap. */
  lemma FrontHasRoom(p: Pool, x: nat, shift: nat)
    requires SlotFront(p, x, shift)
    ensures HasRoom(shift, p.kinds[x].used)
    ensures x * PAGE_WORDS + PAGE_WORDS <= |p.mem|
    ensures Mapped(p.pages[x].slab, p.mem, x, shift, p.kinds[x].used)
    ensures forall c :: c in p.kinds[x].used ==> Reserved(shift) <= c < Count(shift)
  {
    assert p.lists[shift - p.minShift][0] in p.lists[shift - p.minShift];
    assert Home(p.kinds, p.minShift, x, shift - p.minShift);
    assert DescAt(p.pages[x], p.mem, p.kinds, x);
  }

  lemma FrontRefs(p: Pool, x: nat, shift: nat)
    requires SlotFront(p, x, shift)
    ensures ValidRef(p.pages, Untag(p.pages[x].prev)) && ValidRef(p.pages, p.pages[x].next)
    ensures Untag(p.pages[x].prev) != Ref(x)
  {
    var l := shift - p.minShift;
    ListsApart(p.kinds, p.lists, p.minShift, l);
    PrevIsNotSelf(p, l, 0);
    assert Ring(p.pages, Sentinel(p, l), p.lists[l], ListTag(p.minShift, l));
    assert ListTag(p.minShift, l) < 4;
    hide Core, Ring;
    UnlinkRing(p.pages, Sentinel(p, l), p.lists[l], ListTag(p.minShift, l), 0);
  }

  lemma HeadRing(pages: seq<Page>, s: nat, q: seq<nat>, tag: nat)
    requires Ring(pages, s, q, tag) && Apart(s, q)
    ensures ValidRef(pages, pages[s].next) && Deref(pages[s].next) == At(s, q, 0)
    ensures pages[Deref(pages[s].next)].next != pages[s].next <==> q != []
  {
    var first := At(s, q, 0);
    assert Deref(Ref(first)) == first;
    if q != [] {
      assert pages[q[0]].next == Ref(At(s, q, 1));
      assert At(s, q, 1) != q[0];
    }
  }

  /** A slot list's head, as the allocator reads it: the sentinel itself, or a page. */
  lemma SlotHead(p: Pool, shift: nat)
    requires Core(p) && ChunkShift(shift) && p.minShift <= shift
    ensures var l := shift - p.minShift;
      var head := p.pages[Sentinel(p, l)].next;
      && ValidRef(p.pages, head)
      && (p.pages[Deref(head)].next != head <==> p.lists[l] != [])
      && (p.lists[l] != [] ==> SlotFront(p, Deref(head), shift))
  {
    var l := shift - p.minShift;
    ListsApart(p.kinds, p.lists, p.minShift, l);
    assert Ring(p.pages, Sentinel(p, l), p.lists[l], ListTag(p.minShift, l));
    FirstIsMember(p.lists[l]);
    assert p.lists[l] != [] ==> Home(p.kinds, p.minShift, p.lists[l][0], l);
    hide Core, Ring;
    HeadRing(p.pages, Sentinel(p, l), p.lists[l], ListTag(p.minShift, l));
  }

  // ----- what the full and empty tests find after a bit has moved

  lemma SomeWordHasRoom(p: Pool, x: nat, shift: nat)
    requires SlotFront(p, x, shift) && shift < EXACT_SHIFT
    requires x * PAGE_WORDS + PAGE_WORDS <= |p.mem|
    requires MapWords(shift) <= 8
    ensures exists w :: 0 <= w < MapWords(shift) && MapWord(p.mem, x, w) != ALL_ONES
  {
    FrontHasRoom(p, x, shift);
    if forall w :: 0 <= w < MapWords(shift) ==> MapWord(p.mem, x, w) == ALL_ONES {
      SmallFull(p.pages[x].slab, p.mem, x, shift, p.kinds[x].used);
    }
  }

  /** Bit i of word n is the first clear one of page x's bitmap words. */
  ghost predicate FirstClearBit(mem: seq<Word>, x: nat, n: nat, i: nat)
    requires x * PAGE_WORDS + PAGE_WORDS <= |mem| && n < 8
  {
    && i < 64 && !Bit(MapWord(mem, x, n), i)
    && (forall j: nat :: j < i ==> Bit(MapWord(mem, x, n), j))
    && forall w :: 0 <= w < n ==> MapWord(mem, x, w) == ALL_ONES
  }

  lemma BitsBefore(mem: seq<Word>, x: nat, n: nat, i: nat, d: nat)
    requires x * PAGE_WORDS + PAGE_WORDS <= |mem| && n < 8 && FirstClearBit(mem, x, n, i) && d < 64 * n + i
    ensures d / 64 <= n && Bit(MapWord(mem, x, d / 64), d % 64)
  {
    if d / 64 < n {
      BusyBit(d % 64);
    }
  }

  /** The clear bit found in word n is a chunk that can be handed out. */
  lemma SmallChunkFree(p: Pool, x: nat, shift: nat, n: nat, i: nat)
    requires SlotFront(p, x, shift) && shift < EXACT_SHIFT
    requires x * PAGE_WORDS + PAGE_WORDS <= |p.mem|
    requires n < MapWords(shift) <= 8 && FirstClearBit(p.mem, x, n, i)
    ensures Reserved(shift) <= 64 * n + i < Count(shift) <= 512 && 64 * n + i !in p.kinds[x].used
    ensures forall d :: Reserved(shift) <= d < 64 * n + i ==> d in p.kinds[x].used
  {
    FrontHasRoom(p, x, shift);
    hide SlotFront, Mapped, HasRoom;
    ChunkIndexBounds(shift, 0);
    SmallWordBit(p.pages[x].slab, p.mem, x, shift, p.kinds[x].used, n, i);
    forall d | Reserved(shift) <= d < 64 * n + i
      ensures d in p.kinds[x].used
    {
      BitsBefore(p.mem, x, n, i, d);
      SmallWordBit(p.pages[x].slab, p.mem, x, shift, p.kinds[x].used, d / 64, d % 64);
    }
  }

  /** After marking chunk c, every bitmap word is busy exactly if the page is full. */
  lemma SmallFullNow(p: Pool, x: nat, shift: nat, c: nat)
    requires SlotFront(p, x, shift) && shift < EXACT_SHIFT
    requires Reserved(shift) <= c < Count(shift) <= 512
    requires x * PAGE_WORDS + PAGE_WORDS <= |p.mem| && MapWords(shift) <= 8
    ensures (forall w :: 0 <= w < MapWords(shift) ==> MapWord(MarkedMem(p.mem, x, shift, c), x, w) == ALL_ONES)
            <==> !HasRoom(shift, p.kinds[x].used + {c})
  {
    FrontHasRoom(p, x, shift);
    var slab, used, mem' := p.pages[x].slab, p.kinds[x].used + {c}, MarkedMem(p.mem, x, shift, c);
    Marking(slab, p.mem, x, shift, c);
    MovedMap(slab, p.mem, slab, mem', x, shift, p.kinds[x].used, c, true);
    SmallFull(slab, mem', x, shift, used);
  }

  lemma ExactChunkFree(p: Pool, x: nat)
    requires SlotFront(p, x, EXACT_SHIFT)
    ensures p.pages[x].slab != ALL_ONES
    ensures forall i: nat :: i < 64 ==> (Bit(p.pages[x].slab, i) <==> i in p.kinds[x].used)
    ensures Count(EXACT_SHIFT) == 64 && Reserved(EXACT_SHIFT) == 0
  {
    FrontHasRoom(p, x, EXACT_SHIFT);
    ExactFull(p.pages[x].slab, p.mem, x, p.kinds[x].used);
    forall i: nat | i < 64
      ensures Bit(p.pages[x].slab, i) <==> i in p.kinds[x].used
      ensures Count(EXACT_SHIFT) == 64 && Reserved(EXACT_SHIFT) == 0
    {
      ExactBit(p.pages[x].slab, p.mem, x, p.kinds[x].used, i);
    }
    ExactBit(p.pages[x].slab, p.mem, x, p.kinds[x].used, 0);
  }

  lemma ExactFullNow(p: Pool, x: nat, c: nat)
    requires SlotFront(p, x, EXACT_SHIFT) && c < 64 == Count(EXACT_SHIFT)
    ensures MarkedSlab(p.pages[x].slab, EXACT_SHIFT, c) == ALL_ONES <==> !HasRoom(EXACT_SHIFT, p.kinds[x].used + {c})
  {
    FrontHasRoom(p, x, EXACT_SHIFT);
    ExactChunkFree(p, x);
    var slab' := MarkedSlab(p.pages[x].slab, EXACT_SHIFT, c);
    Marking(p.pages[x].slab, p.mem, x, EXACT_SHIFT, c);
    MovedMap(p.pages[x].slab, p.mem, slab', p.mem, x, EXACT_SHIFT, p.kinds[x].used, c, true);
    ExactFull(slab', p.mem, x, p.kinds[x].used + {c});
  }

  lemma BigChunkFree(p: Pool, x: nat, shift: nat)
    requires SlotFront(p, x, shift) && shift > EXACT_SHIFT
    ensures And(p.pages[x].slab, SHIFT_MASK) == shift
    ensures 1 <= Count(shift) <= 32 && Reserved(shift) == 0
    ensures forall j: nat :: MAP_SHIFT <= j < MAP_SHIFT + Count(shift) ==>
      (Bit(p.pages[x].slab, j) <==> j - MAP_SHIFT in p.kinds[x].used)
    ensures exists j: nat :: MAP_SHIFT <= j < MAP_SHIFT + Count(shift) && !Bit(p.pages[x].slab, j)
  {
    FrontHasRoom(p, x, shift);
    StoredShift(p.pages[x].slab, p.mem, x, shift, p.kinds[x].used);
    ChunkIndexBounds(shift, 0);
    BigBit(p.pages[x].slab, p.mem, x, shift, p.kinds[x].used, 0);
    forall j: nat | MAP_SHIFT <= j < MAP_SHIFT + Count(shift)
      ensures Bit(p.pages[x].slab, j) <==> j - MAP_SHIFT in p.kinds[x].used
    {
      BigBit(p.pages[x].slab, p.mem, x, shift, p.kinds[x].used, j);
    }
    var c: nat :| Reserved(shift) <= c < Count(shift) && c !in p.kinds[x].used;
    assert !Bit(p.pages[x].slab, MAP_SHIFT + c);
  }

  lemma BigFullNow(p: Pool, x: nat, shift: nat, c: nat)
    requires SlotFront(p, x, shift) && shift > EXACT_SHIFT && c < Count(shift) <= 32 && Reserved(shift) == 0
    ensures And(MarkedSlab(p.pages[x].slab, shift, c), MAP_MASK) == BigMask(shift) <==>
      !HasRoom(shift, p.kinds[x].used + {c})
  {
    FrontHasRoom(p, x, shift);
    var slab' := MarkedSlab(p.pages[x].slab, shift, c);
    Marking(p.pages[x].slab, p.mem, x, shift, c);
    MovedMap(p.pages[x].slab, p.mem, slab', p.mem, x, shift, p.kinds[x].used, c, true);
    BigFull(slab', p.mem, x, shift, p.kinds[x].used + {c});
  }

  /** Chunk c of the front page x of its slot list can be handed out, and `full` says whether
      it is the last. */
  ghost predicate CanTake(p: Pool, x: nat, shift: nat, c: nat, full: bool) {
    && SlotFront(p, x, shift)
    && Reserved(shift) <= c < Count(shift) <= 512 && c !in p.kinds[x].used
    && (forall d :: Reserved(shift) <= d < c ==> d in p.kinds[x].used)
    && (full <==> !HasRoom(shift, p.kinds[x].used + {c}))
    && (shift > EXACT_SHIFT ==> c < 32) && (shift == EXACT_SHIFT ==> c < 64)
    && x * PAGE_WORDS + PAGE_WORDS <= |p.mem|
  }

  function MarkedPages(p: Pool, x: nat, shift: nat, c: nat): seq<Page>
    requires x < |p.pages| && ChunkShift(shift)
    requires c < Count(shift) <= 512 && (shift > EXACT_SHIFT ==> c < 32) && (shift == EXACT_SHIFT ==> c < 64)
  {
    p.pages[x := p.pages[x].(slab := MarkedSlab(p.pages[x].slab, shift, c))]
  }

  /** The first chunk of the first page on the slot list that is free has been handed out. */
  ghost predicate FromFront(p: Pool, t: Pool, x: nat, shift: nat, c: nat) {
    && ChunkOf(p, x, c) && p.kinds[x].shift == shift && Count(shift) <= 512
    && ChunkTaken(p, t, x, c)
    && forall d :: Reserved(shift) <= d < c ==> d in p.kinds[x].used
  }

  /** Handing out chunk c keeps the invariant. */
  lemma TakeStep(p: Pool, t: Pool, x: nat, shift: nat, c: nat, full: bool)
    requires CanTake(p, x, shift, c, full)
    requires t.minShift == p.minShift
    requires t.mem == MarkedMem(p.mem, x, shift, c)
    requires t.kinds == p.kinds[x := Chunks(shift, p.kinds[x].used + {c})]
    requires var l := shift - p.minShift;
      t.lists == if full then p.lists[l := p.lists[l][1..]] else p.lists
    requires var marked := MarkedPages(p, x, shift, c);
      if full then ValidRef(marked, Untag(marked[x].prev)) && ValidRef(marked, marked[x].next)
          && t.pages == Retired(marked, x, shift)
      else t.pages == marked
    ensures Core(t) && FromFront(p, t, x, shift, c)
  {
    hide Core, HasRoom, MarkedSlab, MarkedMem, Retired, Unlinked, Reserved;
    CoreShape(p);
    assert FromFront(p, t, x, shift, c);
    assert Core(p) && ChunkOf(p, x, c) && Count(p.kinds[x].shift) <= 512 && ChunkTaken(p, t, x, c);
    hide *;
    TakeChunkKeepsCore(p, t, x, c);
  }

  // ----- carving a fresh page

  /** Page x has just been taken for its own, to be cut into chunks of 2^shift bytes. */
  ghost predicate FreshPage(p: Pool, x: nat, shift: nat) {
    && Core(p)
    && x < |p.kinds| && p.kinds[x] == Busy(1)
    && ChunkShift(shift) && p.minShift <= shift
    && p.lists[shift - p.minShift] == []
    && x * PAGE_WORDS + PAGE_WORDS <= |p.mem|
  }

  /** The bitmap of a fresh page: the reserved chunks and the first one handed out. */
  ghost predicate FreshMapped(slab: Word, mem: seq<Word>, x: nat, shift: nat)
    requires ChunkShift(shift) && x * PAGE_WORDS + PAGE_WORDS <= |mem|
  {
    Mapped(slab, mem, x, shift, {Reserved(shift)})
  }

  lemma FirstChunkLeavesRoom(shift: nat)
    requires ChunkShift(shift)
    ensures Reserved(shift) < Count(shift) && HasRoom(shift, {Reserved(shift)})
  {
    Geometry(shift);
    var used := {Reserved(shift)};
    assert Reserved(shift) + 1 < Count(shift) && Reserved(shift) + 1 !in used;
  }

  lemma FreshIsLoose(p: Pool, x: nat, shift: nat)
    requires FreshPage(p, x, shift)
    ensures Loose(p, x, 1)
  {
    assert p.(pages := p.pages) == p;
    DetachUnlisted(p, p.pages, x, 1);
  }

  lemma CarveStep(p: Pool, t: Pool, x: nat, shift: nat)
    requires FreshPage(p, x, shift)
    requires t.minShift == p.minShift && OnlyWords(p.mem, t.mem, x)
    requires t.kinds == p.kinds[x := Chunks(shift, {Reserved(shift)})]
    requires t.lists == p.lists[shift - p.minShift := [x]]
    requires |t.pages| == |p.pages|
    requires var s := Sentinel(p, shift - p.minShift);
      && s < |p.pages|
      && t.pages ==
           p.pages[x := Page(t.pages[x].slab, Ref(s), Ref(s) + TypeTag(shift))][s := p.pages[s].(next := Ref(x))]
    requires FreshMapped(t.pages[x].slab, t.mem, x, shift)
    ensures Core(t)
  {
    hide Core, Mapped, HasRoom, Ring, Described, Tiled, Linked, Listed;
    FirstChunkLeavesRoom(shift);
    FreshIsLoose(p, x, shift);
    assert Shape(t) && Carved(p, t, x);
    hide *;
    AttachChunks(p, t, x);
  }

  lemma ShiftBelow12(shift: nat, size: nat)
    requires shift >= 1 && Pow2(shift - 1) < size < MAX_SIZE
    ensures shift <= 11
  {
    assert Pow2(11) == MAX_SIZE by { Geometry(11); }
    if shift >= 12 {
      Pow2Monotone(11, shift - 1);
    }
  }

  // ----- which run a page request gets

  /** The run at position i is the first on the free list with at least k pages. */
  ghost predicate FirstFit(p: Pool, i: nat, k: nat) {
    && Shape(p)
    && Fits(p, i, k)
    && forall j :: 0 <= j < i ==> LenAt(p.kinds, p.lists[FreeIndex(p)][j]) < k
  }

  ghost predicate NoFit(p: Pool, k: nat) {
    && Shape(p)
    && forall x :: x in p.lists[FreeIndex(p)] ==> LenAt(p.kinds, x) < k
  }

  /** What makes a request fail: no free run is long enough, or there is no free page and no
      page of the class with a free chunk. */
  ghost predicate Exhausted(p: Pool, size: nat)
    requires Shape(p)
  {
    if size >= MAX_SIZE then
      forall x :: 0 <= x < |p.kinds| && p.kinds[x].Free? ==> PAGE_SIZE * p.kinds[x].len < size
    else
      forall x :: 0 <= x < |p.kinds| ==> !HasChunk(p.kinds[x], ClassFrom(p.minShift, size))
  }

  /** The page is free, or has a free chunk of the class. */
  ghost predicate HasChunk(kind: Kind, shift: nat)
    requires shift <= 12
  {
    kind.Free? || (kind.Chunks? && kind.shift == shift && HasRoom(shift, kind.used))
  }

  /** No run has the pages exactly when the request fails. */
  lemma NoFitExhausted(p: Pool, size: nat)
    requires Core(p) && size >= MAX_SIZE
    ensures NoFit(p, PagesFor(size)) <==> Exhausted(p, size)
  {
    var k, q := PagesFor(size), p.lists[FreeIndex(p)];
    forall x: nat
      ensures x in q <==> x < |p.kinds| && p.kinds[x].Free?
      ensures LenAt(p.kinds, x) < k <==> PAGE_SIZE * LenAt(p.kinds, x) < size
    {
      assert x in q <==> Home(p.kinds, p.minShift, x, FreeIndex(p));
      PagesEnough(LenAt(p.kinds, x), size);
    }
    hide Core;
    if NoFit(p, k) {
      forall x | 0 <= x < |p.kinds| && p.kinds[x].Free?
        ensures PAGE_SIZE * p.kinds[x].len < size
      {
        assert x in q && LenAt(p.kinds, x) < k;
      }
    }
  }

  lemma PagesEnough(len: nat, size: nat)
    ensures len < PagesFor(size) <==> PAGE_SIZE * len < size
  {}

  /** Slot list and free list are empty exactly when the request fails. */
  lemma EmptyExhausted(p: Pool, size: nat)
    requires Core(p) && size < MAX_SIZE
    ensures var l := ClassFrom(p.minShift, size) - p.minShift;
      p.lists[l] == [] && p.lists[FreeIndex(p)] == [] <==> Exhausted(p, size)
  {
    var l, f := ClassFrom(p.minShift, size) - p.minShift, FreeIndex(p);
    FirstIsMember(p.lists[f]);
    FirstIsMember(p.lists[l]);
    forall x: nat
      ensures x in p.lists[f] <==> Home(p.kinds, p.minShift, x, f)
      ensures x in p.lists[l] <==> Home(p.kinds, p.minShift, x, l)
    {}
    forall x | 0 <= x < |p.kinds|
      ensures HasChunk(p.kinds[x], l + p.minShift) <==>
        Home(p.kinds, p.minShift, x, f) || Home(p.kinds, p.minShift, x, l)
    {}
  }

  function BlockUnit(minShift: nat, size: nat): nat
    requires minShift <= 11
  {
    if size >= MAX_SIZE then PAGE_SIZE else BlockBytes(minShift, size)
  }

  lemma NoFitOne(p: Pool)
    requires Core(p)
    ensures NoFit(p, 1) <==> p.lists[FreeIndex(p)] == []
  {
    FirstIsMember(p.lists[FreeIndex(p)]);
    forall x | x in p.lists[FreeIndex(p)]
      ensures LenAt(p.kinds, x) >= 1
    {
      FreeRun(p, x);
    }
  }

  lemma FirstFitIsFree(p: Pool, i: nat, k: nat)
    requires Core(p) && FirstFit(p, i, k)
    ensures var q := p.lists[FreeIndex(p)];
      && i < |q| && q[i] < |p.kinds| && p.kinds[q[i]].Free? && 1 <= k <= p.kinds[q[i]].len
      && !NoFit(p, k) && q != []
  {
    var q := p.lists[FreeIndex(p)];
    assert q[i] in q;
  }

  lemma TakenIsFresh(p: Pool, t: Pool, x: nat, shift: nat)
    requires Core(p) && Core(t) && x < |p.kinds| && p.kinds[x].Free? && 1 <= p.kinds[x].len
    requires t.kinds == TakenKinds(p.kinds, x, 1) && t.minShift == p.minShift
    requires ChunkShift(shift) && p.minShift <= shift && t.lists[shift - p.minShift] == []
    ensures FreshPage(t, x, shift)
  {}

  // ----- the soundness of each request

  lemma FrontBasics(p: Pool, x: nat, shift: nat)
    requires SlotFront(p, x, shift)
    ensures x < |p.kinds| && p.kinds[x].Chunks? && p.kinds[x].shift == shift && ChunkShift(shift)
  {}

  lemma TakeSound(p: Pool, t: Pool, x: nat, shift: nat, c: nat, start: nat, live: map<nat, nat>)
    requires Sound(p, start, live) && Core(t) && ChunkShift(shift) && c < Count(shift)
    requires x < |p.kinds| && p.kinds[x].Chunks? && p.kinds[x].shift == shift && c !in p.kinds[x].used
    requires t.kinds == p.kinds[x := Chunks(shift, p.kinds[x].used + {c})]
    ensures var a := ChunkAddr(start, x, shift, c);
      && a > 0 && a !in live && a % Pow2(shift) == 0
      && Sound(t, start, live[a := Pow2(shift)])
  {
    hide Core;
    ChunkAccounts(p.kinds, x, shift, p.kinds[x].used, c, start, live);
    ChunkAligned(start, x, shift, c);
    ChunkAbove(start, x, shift, c);
    hide Accounted, ChunkAddr, ChunkShift, Count;
  }

  lemma CarveSound(p: Pool, t: Pool, x: nat, shift: nat, c: nat, start: nat, live: map<nat, nat>)
    requires Sound(p, start, live) && Core(t) && ChunkShift(shift) && c < Count(shift)
    requires x < |p.kinds| && p.kinds[x].Free? && 1 <= p.kinds[x].len
    requires t.kinds == TakenKinds(p.kinds, x, 1)[x := Chunks(shift, {c})]
    ensures var a := ChunkAddr(start, x, shift, c);
      && a > 0 && a !in live && a % Pow2(shift) == 0
      && Sound(t, start, live[a := Pow2(shift)])
  {
    hide Core;
    CoreTiled(p);
    CarveAccounts(p.kinds, x, shift, c, start, live);
    ChunkAligned(start, x, shift, c);
    ChunkAbove(start, x, shift, c);
    hide Accounted, Tiled, ChunkAddr, ChunkShift, Count;
    assert c in t.kinds[x].used;
  }

  lemma TakeRunSound(p: Pool, t: Pool, x: nat, k: nat, start: nat, live: map<nat, nat>)
    requires Sound(p, start, live) && Core(t)
    requires x < |p.kinds| && p.kinds[x].Free? && 1 <= k <= p.kinds[x].len
    requires t.kinds == TakenKinds(p.kinds, x, k)
    ensures var a := PageAddr(start, x);
      && a > 0 && a !in live && a % PAGE_SIZE == 0
      && Sound(t, start, live[a := PAGE_SIZE * k])
  {
    hide Core, Accounted, Tiled, TakenKinds;
    CoreTiled(p);
    TakeAccounts(p.kinds, x, k, start, live);
    TakenNotIdle(p.kinds, x, k);
    PageAligned(start, x);
    hide *;
    SoundIs(t, start, live[PageAddr(start, x) := PAGE_SIZE * k]);
  }

  lemma TakenNotIdle(kinds: seq<Kind>, x: nat, k: nat)
    requires NoneIdle(kinds) && x < |kinds| && kinds[x].Free? && 1 <= k <= kinds[x].len
    ensures NoneIdle(TakenKinds(kinds, x, k))
  {}

  lemma PageAligned(start: nat, x: nat)
    requires start % PAGE_SIZE == 0
    ensures PageAddr(start, x) % PAGE_SIZE == 0
  {}

  lemma SoundIs(p: Pool, start: nat, live: map<nat, nat>)
    requires Core(p) && NoneIdle(p.kinds) && Accounted(p.kinds, start, live) && start > 0 && start % PAGE_SIZE == 0
    ensures Sound(p, start, live)
  {}

  /** bitmap + ((n * 64) << shift) + (i << shift) */
  lemma SmallAddr(start: nat, x: nat, shift: nat, n: nat, i: nat)
    ensures start + PAGE_SIZE * x + ((n * 64) * Pow2(shift) + i * Pow2(shift)) == ChunkAddr(start, x, shift, 64 * n + i)
  {}

  // ----- rp_slab_free

  datatype FreeResult = Freed | OutsidePool | WrongChunk | ChunkAlreadyFree | PageAlreadyFree | WrongPage

  /** Chunk c holds a part of its page's bitmap. */
  predicate IsReserved(shift: nat, c: nat) {
    shift <= 12 && c < Reserved(shift)
  }

  /** What rp_slab_free makes of a page's kind and an offset into the page: it asks for a set
      bit, and the bits of the chunks that hold the bitmap are set. */
  function PageVerdict(kinds: seq<Kind>, x: nat, offset: nat): FreeResult
    requires x < |kinds|
  {
    match kinds[x]
    case Chunks(shift, used) =>
      if offset % Pow2(shift) != 0 then WrongChunk
      else if offset / Pow2(shift) in used || IsReserved(shift, offset / Pow2(shift)) then Freed
      else ChunkAlreadyFree
    case Free(_) => if offset != 0 then WrongChunk else Freed
    case Busy(_) => if offset != 0 then WrongChunk else Freed
    case Inside(h) =>
      if offset != 0 then WrongChunk
      else if h < |kinds| && kinds[h].Free? then PageAlreadyFree
      else WrongPage
  }

  /** What rp_slab_free makes of an address. */
  function Verdict(p: Pool, start: nat, end: nat, a: nat): FreeResult
    requires a < start || a > end || a < PageAddr(start, |p.kinds|)
  {
    if a < start || a > end then OutsidePool
    else PageVerdict(p.kinds, (a - start) / PAGE_SIZE, (a - start) % PAGE_SIZE)
  }

  /** a is the address of a chunk that holds its page's bitmap: never handed out. */
  predicate OnBitmap(p: Pool, start: nat, a: nat) {
    && a >= start
    && var x, offset := (a - start) / PAGE_SIZE, (a - start) % PAGE_SIZE;
    && x < |p.kinds|
    && p.kinds[x].Chunks?
    && offset % Pow2(p.kinds[x].shift) == 0
    && IsReserved(p.kinds[x].shift, offset / Pow2(p.kinds[x].shift))
  }

  /** Every live block is freed when asked. Two kinds of other addresses are not refused: the
      head of a free run, which just moves to the front of the free list, and a chunk that
      holds its page's bitmap. */
  lemma LiveMeansFreed(p: Pool, start: nat, end: nat, live: map<nat, nat>, a: nat)
    requires Sound(p, start, live) && PageAddr(start, |p.kinds|) <= end
    requires start <= a < PageAddr(start, |p.kinds|)
    ensures Verdict(p, start, end, a) == Freed <==>
      || a in live
      || OnBitmap(p, start, a)
      || exists x :: x in p.lists[FreeIndex(p)] && a == PageAddr(start, x)
    ensures a in live ==> !OnBitmap(p, start, a)
  {
    var x := (a - start) / PAGE_SIZE;
    assert a in live <==> SizeAt(p.kinds, start, a) > 0;
    assert IsRun(p.kinds[x]) ==> RunAt(p.kinds, x, p.kinds[x].len);
    if p.kinds[x].Free? && (a - start) % PAGE_SIZE == 0 {
      assert Home(p.kinds, p.minShift, x, FreeIndex(p));
      assert a == PageAddr(start, x);
    }
    forall y | y in p.lists[FreeIndex(p)] && a == PageAddr(start, y)
      ensures y == x && p.kinds[x].Free?
    {
      assert Home(p.kinds, p.minShift, y, FreeIndex(p));
    }
  }

  /** The type tag in `prev` tells the page's kind, wherever the page is linked. */
  lemma TagMeans(p: Pool, x: nat)
    requires Core(p) && x < |p.kinds|
    ensures TagOf(p.pages[x].prev) == if p.kinds[x].Chunks? then TypeTag(p.kinds[x].shift) else TAG_PAGE
  {
    assert DescAt(p.pages[x], p.mem, p.kinds, x);
    if p.kinds[x].Free? || (p.kinds[x].Chunks? && HasRoom(p.kinds[x].shift, p.kinds[x].used)) {
      var l := if p.kinds[x].Free? then FreeIndex(p) else p.kinds[x].shift - p.minShift;
      assert Home(p.kinds, p.minShift, x, l);
      hide Tiled, ChunkedOK, Described, Listed, HasRoom;
      ListedTag(p, x, l);
    }
  }

  lemma ListedTag(p: Pool, x: nat, l: nat)
    requires Core(p) && l < |p.lists| && x in p.lists[l] && x < |p.pages|
    ensures TagOf(p.pages[x].prev) == ListTag(p.minShift, l)
  {
    var i :| 0 <= i < |p.lists[l]| && p.lists[l][i] == x;
    assert Ring(p.pages, Sentinel(p, l), p.lists[l], ListTag(p.minShift, l));
    hide Core;
    assert p.pages[x].prev == Ref(At(Sentinel(p, l), p.lists[l], i - 1)) + ListTag(p.minShift, l);
  }

  /** Page x is cut into chunks of 2^shift bytes. */
  ghost predicate ChunkPage(p: Pool, x: nat, shift: nat) {
    && Core(p)
    && x < |p.kinds| && p.kinds[x].Chunks? && p.kinds[x].shift == shift
  }

  lemma ChunkPageFacts(p: Pool, x: nat, shift: nat)
    requires ChunkPage(p, x, shift)
    ensures Shape(p) && ChunkShift(shift) && p.minShift <= shift
    ensures Count(shift) <= 512 && (shift == EXACT_SHIFT ==> Count(shift) == 64)
    ensures (shift > EXACT_SHIFT ==> Count(shift) <= 32)
    ensures x * PAGE_WORDS + PAGE_WORDS <= |p.mem|
    ensures Mapped(p.pages[x].slab, p.mem, x, shift, p.kinds[x].used)
    ensures forall c :: c in p.kinds[x].used ==> Reserved(shift) <= c < Count(shift)
    ensures !HasRoom(shift, p.kinds[x].used) <==> p.pages[x].next == NULL
    ensures shift != EXACT_SHIFT ==> And(p.pages[x].slab, SHIFT_MASK) == shift
  {
    assert DescAt(p.pages[x], p.mem, p.kinds, x);
    ChunkIndexBounds(shift, 0);
    if shift == EXACT_SHIFT { Geometry(shift); }
    if shift != EXACT_SHIFT {
      StoredShift(p.pages[x].slab, p.mem, x, shift, p.kinds[x].used);
    }
    if HasRoom(shift, p.kinds[x].used) {
      var l, i := HomeList(p, x, 1);
    }
  }

  /** The bit test of rp_slab_free: chunks in use and reserved ones have theirs set. */
  lemma SetBits(p: Pool, x: nat, shift: nat, c: nat)
    requires ChunkPage(p, x, shift) && ChunkShift(shift) && c < Count(shift) <= 512
    requires x * PAGE_WORDS + PAGE_WORDS <= |p.mem|
    ensures ChunkBit(p.pages[x].slab, p.mem, x, shift, c) <==> c in p.kinds[x].used || IsReserved(shift, c)
    ensures c in p.kinds[x].used ==> !IsReserved(shift, c)
  {
    ChunkPageFacts(p, x, shift);
  }

  /** A chunk that holds the bitmap is no block. */
  lemma ReservedNotLive(p: Pool, x: nat, shift: nat, c: nat, start: nat, live: map<nat, nat>)
    requires ChunkPage(p, x, shift) && ChunkShift(shift) && c < Count(shift) && IsReserved(shift, c)
    requires Accounted(p.kinds, start, live)
    ensures live - {ChunkAddr(start, x, shift, c)} == live
  {
    ChunkPageFacts(p, x, shift);
    DecodeChunk(start, x, shift, c, ChunkAddr(start, x, shift, c));
    assert SizeAt(p.kinds, start, ChunkAddr(start, x, shift, c)) == 0;
  }

  ghost predicate CanReturn(p: Pool, x: nat, shift: nat, c: nat, full: bool) {
    && ChunkPage(p, x, shift) && ChunkShift(shift) && p.minShift <= shift
    && Count(shift) <= 512 && Reserved(shift) <= c < Count(shift) && c in p.kinds[x].used
    && (full <==> !HasRoom(shift, p.kinds[x].used))
    && (shift > EXACT_SHIFT ==> c < 32) && (shift == EXACT_SHIFT ==> c < 64)
    && x * PAGE_WORDS + PAGE_WORDS <= |p.mem|
  }

  /** The slot's references when a full page comes back to it. */
  lemma SlotRefs(p: Pool, x: nat, shift: nat)
    requires ChunkPage(p, x, shift) && ChunkShift(shift) && p.minShift <= shift && !HasRoom(shift, p.kinds[x].used)
    ensures Shape(p) && ValidRef(p.pages, p.pages[Sentinel(p, shift - p.minShift)].next)
    ensures p.pages[Sentinel(p, shift - p.minShift)].next != Ref(x)
  {
    var l := shift - p.minShift;
    SlotHead(p, shift);
    ListsApart(p.kinds, p.lists, p.minShift, l);
    assert !Home(p.kinds, p.minShift, x, l);
    assert Ring(p.pages, Sentinel(p, l), p.lists[l], ListTag(p.minShift, l));
  }

  /** The bit of chunk c of page x can be cleared, and the page linked if it was full. */
  ghost predicate Returnable(p: Pool, x: nat, shift: nat, c: nat) {
    && Shape(p) && x < |p.kinds| && p.kinds[x].Chunks? && ChunkShift(shift) && p.minShift <= shift
    && c < Count(shift) <= 512 && (shift > EXACT_SHIFT ==> c < 32) && (shift == EXACT_SHIFT ==> c < 64)
    && x * PAGE_WORDS + PAGE_WORDS <= |p.mem|
    && (!HasRoom(shift, p.kinds[x].used) ==> ValidRef(p.pages, p.pages[Sentinel(p, shift - p.minShift)].next))
  }

  /** The pool's pages once chunk c of page x has been taken back. */
  function ReturnedPages(p: Pool, x: nat, shift: nat, c: nat, full: bool): seq<Page>
    requires Shape(p) && x < |p.kinds| && ChunkShift(shift) && p.minShift <= shift
    requires c < Count(shift) <= 512 && (shift > EXACT_SHIFT ==> c < 32) && (shift == EXACT_SHIFT ==> c < 64)
    requires full ==> ValidRef(p.pages, p.pages[Sentinel(p, shift - p.minShift)].next)
  {
    var linked := if full then Pushed(p.pages, Sentinel(p, shift - p.minShift), x, TypeTag(shift)) else p.pages;
    linked[x := linked[x].(slab := ClearedSlab(p.pages[x].slab, shift, c))]
  }

  lemma ReturnStep(p: Pool, t: Pool, x: nat, shift: nat, c: nat, full: bool)
    requires CanReturn(p, x, shift, c, full) && Shape(p)
    requires full ==> ValidRef(p.pages, p.pages[Sentinel(p, shift - p.minShift)].next)
    requires t.minShift == p.minShift
    requires t.pages == ReturnedPages(p, x, shift, c, full)
    requires t.mem == ClearedMem(p.mem, x, shift, c)
    requires t.kinds == p.kinds[x := Chunks(shift, p.kinds[x].used - {c})]
    requires var l := shift - p.minShift;
      t.lists == if full then p.lists[l := [x] + p.lists[l]] else p.lists
    ensures Core(t)
    ensures HasRoom(shift, p.kinds[x].used - {c})
  {
    hide Core, HasRoom, ClearedSlab, ClearedMem, Pushed, Reserved, Count;
    assert ChunkOf(p, x, c) && ChunkReturned(p, t, x, c);
    hide *;
    ReturnChunkKeepsCore(p, t, x, c);
    ReturnLeavesRoom(shift, p.kinds[x].used, c);
  }

  lemma ReturnLeavesRoom(shift: nat, used: set<nat>, c: nat)
    requires shift <= 12 && Reserved(shift) <= c < Count(shift)
    ensures HasRoom(shift, used - {c})
  {
    assert c !in used - {c};
  }

  /** Releasing the page of the last chunk changes no block. */
  lemma ReleaseSound(kinds: seq<Kind>, x: nat, shift: nat, used: set<nat>, c: nat, start: nat, live: map<nat, nat>,
                     empty: bool)
    requires Accounted(kinds, start, live) && NoneIdle(kinds) && x < |kinds| && kinds[x] == Chunks(shift, used)
    requires ChunkShift(shift) && c < Count(shift) && empty == (used - {c} == {})
    ensures var a := ChunkAddr(start, x, shift, c);
      var kinds' := kinds[x := if empty then Free(1) else Chunks(shift, used - {c})];
      NoneIdle(kinds') && Accounted(kinds', start, live - {a})
  {
    ChunkAccounts(kinds, x, shift, used, c, start, live);
    if empty {
      var mid := kinds[x := Chunks(shift, used - {c})];
      var a := ChunkAddr(start, x, shift, c);
      forall b: nat
        ensures SizeAt(kinds[x := Free(1)], start, b) == SizeAt(mid, start, b)
      {}
    }
  }

  lemma EmptyTest(p: Pool, x: nat, shift: nat)
    requires ChunkPage(p, x, shift) && ChunkShift(shift) && x * PAGE_WORDS + PAGE_WORDS <= |p.mem|
    ensures shift == EXACT_SHIFT ==> (p.pages[x].slab == 0 <==> p.kinds[x].used == {})
    ensures shift > EXACT_SHIFT ==> (And(p.pages[x].slab, MAP_MASK) == 0 <==> p.kinds[x].used == {})
    ensures shift < EXACT_SHIFT ==> (IdleMap(p.mem, x, shift) <==> p.kinds[x].used == {})
  {
    ChunkPageFacts(p, x, shift);
    hide Core, HasRoom;
    if shift < EXACT_SHIFT {
      SmallEmpty(p.pages[x].slab, p.mem, x, shift, p.kinds[x].used);
    } else if shift == EXACT_SHIFT {
      ExactEmpty(p.pages[x].slab, p.mem, x, p.kinds[x].used);
    } else {
      BigEmpty(p.pages[x].slab, p.mem, x, shift, p.kinds[x].used);
    }
  }

  lemma DecodeOffset(start: nat, x: nat, shift: nat, a: nat)
    requires start % PAGE_SIZE == 0 && a >= start && (a - start) / PAGE_SIZE == x && ChunkShift(shift)
    ensures a % PAGE_SIZE == (a - start) % PAGE_SIZE
    ensures a % Pow2(shift) == (a - start) % PAGE_SIZE % Pow2(shift)
  {
    Geometry(shift);
    var o, s := (a - start) % PAGE_SIZE, Pow2(shift);
    var pages := start / PAGE_SIZE + x;
    assert a == pages * PAGE_SIZE + o;
    DivUnique(a, PAGE_SIZE, pages, o);
    MulAssociates(pages, Count(shift), s);
    ModAddMultiple(o, s, pages * Count(shift));
  }

  lemma MulAssociates(a: nat, b: nat, c: nat)
    ensures a * (b * c) == (a * b) * c
  {}

  /** An address in page x that names a chunk, decoded as rp_slab_free does. */
  lemma DecodeAligned(start: nat, x: nat, shift: nat, a: nat, c: nat)
    requires start % PAGE_SIZE == 0 && a >= start && (a - start) / PAGE_SIZE == x && ChunkShift(shift)
    requires a % Pow2(shift) == 0 && c == a % PAGE_SIZE / Pow2(shift)
    ensures c < Count(shift) && a == ChunkAddr(start, x, shift, c)
  {
    DecodeOffset(start, x, shift, a);
    Geometry(shift);
    var o, s := a % PAGE_SIZE, Pow2(shift);
    assert o == c * s;
    if c >= Count(shift) {
      MulMonotone(Count(shift), c, s);
    }
  }

  lemma ExactFullTest(p: Pool, x: nat, shift: nat)
    requires ChunkPage(p, x, shift)
    ensures shift == EXACT_SHIFT ==> (p.pages[x].slab == ALL_ONES <==> !HasRoom(shift, p.kinds[x].used))
  {
    ChunkPageFacts(p, x, shift);
    hide Core, HasRoom;
    if shift == EXACT_SHIFT {
      ExactFull(p.pages[x].slab, p.mem, x, p.kinds[x].used);
    }
  }

  /** Pushing a page on its list leaves its `slab` word alone. */
  lemma PushedSlab(p: Pool, x: nat, shift: nat, full: bool)
    requires ChunkPage(p, x, shift) && ChunkShift(shift) && p.minShift <= shift
    requires full <==> !HasRoom(shift, p.kinds[x].used)
    ensures Shape(p)
    ensures full ==>
      && ValidRef(p.pages, p.pages[Sentinel(p, shift - p.minShift)].next)
      && Pushed(p.pages, Sentinel(p, shift - p.minShift), x, TypeTag(shift))[x].slab == p.pages[x].slab
  {
    if full {
      SlotRefs(p, x, shift);
      PushedLinks(p.pages, Sentinel(p, shift - p.minShift), x, TypeTag(shift),
          Deref(p.pages[Sentinel(p, shift - p.minShift)].next));
    }
  }

  /** The chunk cases of the verdict. */
  lemma VerdictInPage(p: Pool, x: nat, shift: nat, start: nat, a: nat)
    requires ChunkPage(p, x, shift) && a >= start && (a - start) / PAGE_SIZE == x
    ensures var offset := (a - start) % PAGE_SIZE; var c := offset / Pow2(shift);
      && PageVerdict(p.kinds, x, offset) ==
           (if offset % Pow2(shift) != 0 then WrongChunk
            else if c in p.kinds[x].used || IsReserved(shift, c) then Freed else ChunkAlreadyFree)
      && (OnBitmap(p, start, a) <==> offset % Pow2(shift) == 0 && IsReserved(shift, c))
  {}

  /** An address rp_slab_free refuses is not live. */
  lemma NotLive(p: Pool, start: nat, live: map<nat, nat>, a: nat)
    requires Sound(p, start, live) && a >= start && (a - start) / PAGE_SIZE < |p.kinds|
    requires PageVerdict(p.kinds, (a - start) / PAGE_SIZE, (a - start) % PAGE_SIZE) != Freed
    ensures live - {a} == live
  {
    assert SizeAt(p.kinds, start, a) == 0;
  }

  lemma OutsideNotLive(p: Pool, start: nat, live: map<nat, nat>, a: nat)
    requires Sound(p, start, live) && (a < start || a >= PageAddr(start, |p.kinds|))
    ensures live - {a} == live
  {
    assert SizeAt(p.kinds, start, a) == 0;
  }

  /** The `slab` word of a page that is not carved into chunks. */
  lemma RunWord(p: Pool, x: nat)
    requires Core(p) && x < |p.kinds| && !p.kinds[x].Chunks?
    ensures p.kinds[x].Free? ==> 1 <= p.kinds[x].len == p.pages[x].slab <= MAX_PAGES
    ensures p.kinds[x].Busy? ==> 1 <= p.kinds[x].len <= MAX_PAGES && p.pages[x].slab == StartWord(p.kinds[x].len)
    ensures p.kinds[x].Inside? ==>
      p.kinds[x].head < |p.kinds| && p.pages[x].slab == if p.kinds[p.kinds[x].head].Free? then 0 else ALL_ONES
    ensures IsRun(p.kinds[x]) ==>
      && And(p.pages[x].slab, Not(PAGE_START)) == p.kinds[x].len
      && p.pages[x].slab != 0 && p.pages[x].slab != ALL_ONES
  {
    assert DescAt(p.pages[x], p.mem, p.kinds, x);
    assert IsRun(p.kinds[x]) ==> RunAt(p.kinds, x, p.kinds[x].len);
    if p.kinds[x].Busy? {
      StartWordLength(p.kinds[x].len);
    } else if p.kinds[x].Free? {
      PlainLength(p.kinds[x].len);
    }
  }

  lemma RunSound(p: Pool, x: nat, k: nat, start: nat, live: map<nat, nat>, a: nat)
    requires Sound(p, start, live) && x < |p.kinds| && IsRun(p.kinds[x]) && p.kinds[x].len == k
    requires a == PageAddr(start, x)
    ensures NoneIdle(p.kinds[x := Free(k)]) && Accounted(p.kinds[x := Free(k)], start, live - {a})
  {
    RekindAccounts(p.kinds, x, Free(k), start, live, a);
  }

  lemma ChunkTags(p: Pool, x: nat)
    requires Core(p) && x < |p.kinds|
    ensures p.kinds[x].Chunks? ==>
      && ChunkPage(p, x, p.kinds[x].shift)
      && (p.kinds[x].shift != EXACT_SHIFT ==> And(p.pages[x].slab, SHIFT_MASK) == p.kinds[x].shift)
  {
    if p.kinds[x].Chunks? {
      ChunkPageFacts(p, x, p.kinds[x].shift);
    }
  }

  // ----- rp_slab_init

  /** The descriptors of a new pool of n pages: one free run, and every slot list empty. */
  function FreshPages(n: nat, minShift: nat): (pages: seq<Page>)
    requires 1 <= n <= MAX_PAGES && ChunkShift(minShift)
    ensures |pages| == n + Slots(minShift) + 1
  {
    var free := n + Slots(minShift);
    seq(free + 1, j requires 0 <= j <= free =>
      if j == 0 then Page(n, Ref(free), Ref(free))
      else if j < n then Page(0, NULL, TAG_PAGE)
      else if j < free then Page(0, Ref(j), NULL)
      else Page(0, Ref(0), NULL))
  }

  function FreshKinds(n: nat): (kinds: seq<Kind>)
    requires n >= 1
    ensures |kinds| == n
  {
    seq(n, j requires 0 <= j < n => if j == 0 then Free(n) else Inside(0))
  }

  function FreshLists(minShift: nat): (lists: seq<seq<nat>>)
    requires ChunkShift(minShift)
    ensures |lists| == Slots(minShift) + 1
  {
    seq(Slots(minShift) + 1, l requires 0 <= l <= Slots(minShift) => if l == Slots(minShift) then [0] else [])
  }

  lemma FreshIsSound(p: Pool, start: nat)
    requires Shape(p) && 1 <= |p.kinds| && start > 0 && start % PAGE_SIZE == 0
    requires p.pages == FreshPages(|p.kinds|, p.minShift)
    requires p.kinds == FreshKinds(|p.kinds|) && p.lists == FreshLists(p.minShift)
    ensures Sound(p, start, map[])
  {
    var f := FreeIndex(p);
    forall l, x: nat | 0 <= l < |p.lists|
      ensures x in p.lists[l] <==> Home(p.kinds, p.minShift, x, l)
    {}
    forall x | 0 <= x < |p.kinds|
      ensures DescAt(p.pages[x], p.mem, p.kinds, x)
    {}
    forall l | 0 <= l < |p.lists|
      ensures Ring(p.pages, Sentinel(p, l), p.lists[l], ListTag(p.minShift, l))
    {}
    forall a: nat
      ensures SizeAt(p.kinds, start, a) == 0
    {}
  }

  // ----- writes by the owner of a block

  lemma LiveInArea(p: Pool, start: nat, live: map<nat, nat>, a: nat)
    requires Sound(p, start, live) && a in live
    ensures start <= a && a + live[a] <= PageAddr(start, |p.kinds|) && live[a] > 0
  {
    BlockWithin(p, start, live, a);
    var x := (a - start) / PAGE_SIZE;
    assert IsRun(p.kinds[x]) ==> RunAt(p.kinds, x, p.kinds[x].len);
  }

  /** The word at an aligned address inside a live block is a word of the page area, and not
      one of a page bitmap. */
  lemma WordInBlock(p: Pool, start: nat, live: map<nat, nat>, a: nat, offset: nat)
    requires Sound(p, start, live) && a in live && offset + 8 <= live[a] && (a + offset) % 8 == 0
    ensures a + offset >= start && (a + offset - start) / 8 < |p.mem|
    ensures start + 8 * ((a + offset - start) / 8) == a + offset
  {
    LiveInArea(p, start, live, a);
    SoundArea(p, start, live);
    hide *;
    WordInArea(start, |p.kinds|, |p.mem|, a + offset);
  }

  lemma SoundArea(p: Pool, start: nat, live: map<nat, nat>)
    requires Sound(p, start, live)
    ensures start % 8 == 0 && |p.mem| == PAGE_WORDS * |p.kinds|
  {}

  lemma WordInArea(start: nat, npages: nat, words: nat, b: nat)
    requires start % 8 == 0 && b % 8 == 0 && words == PAGE_WORDS * npages && start <= b
    requires b + 8 <= PageAddr(start, npages)
    ensures (b - start) / 8 < words && start + 8 * ((b - start) / 8) == b
  {
    assert PageAddr(start, npages) == start + 8 * words;
  }

  lemma WriteSound(p: Pool, t: Pool, start: nat, live: map<nat, nat>, a: nat, offset: nat)
    requires Sound(p, start, live) && a in live && offset + 8 <= live[a] && (a + offset) % 8 == 0
    requires a + offset >= start && (a + offset - start) / 8 < |p.mem| == |t.mem|
    requires t == p.(mem := t.mem) && t.mem == p.mem[(a + offset - start) / 8 := t.mem[(a + offset - start) / 8]]
    ensures Sound(t, start, live)
  {
    WordInBlock(p, start, live, a, offset);
    forall x | 0 <= x < |t.kinds|
      ensures DescAt(t.pages[x], t.mem, t.kinds, x)
    {
      assert DescAt(p.pages[x], p.mem, p.kinds, x);
      if p.kinds[x].Chunks? {
        WriteMissesMap(p, t.mem, start, live, a, offset, x);
      }
    }
  }

  lemma WriteMissesMap(p: Pool, mem: seq<Word>, start: nat, live: map<nat, nat>, a: nat, offset: nat, x: nat)
    requires Sound(p, start, live) && a in live && offset + 8 <= live[a] && x < |p.kinds| && p.kinds[x].Chunks?
    requires a + offset >= start && |mem| == |p.mem|
    requires start + 8 * ((a + offset - start) / 8) == a + offset && (a + offset - start) / 8 < |mem|
    requires mem == p.mem[(a + offset - start) / 8 := mem[(a + offset - start) / 8]]
    requires x * PAGE_WORDS + PAGE_WORDS <= |mem|
    ensures ChunkShift(p.kinds[x].shift) && Mapped(p.pages[x].slab, mem, x, p.kinds[x].shift, p.kinds[x].used)
  {
    var shift := p.kinds[x].shift;
    assert DescAt(p.pages[x], p.mem, p.kinds, x);
    forall c: nat | c < Count(shift)
      ensures ChunkBit(p.pages[x].slab, mem, x, shift, c) <==> ChunkBit(p.pages[x].slab, p.mem, x, shift, c)
    {
      if shift < EXACT_SHIFT {
        MapWordsExact(shift);
        LiveBlocksMissBitmaps(p, start, live, a, x, c / 64);
      }
    }
  }
}
