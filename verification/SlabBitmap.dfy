/** What rp_slab_free does to a chunk that holds its page's bitmap: the bit of a chunk that was
    never handed out is cleared, and the pool is lost. */
module SlabBitmap {
  import opened Words
  import opened SlabModel
  import opened SlabInvariant
  import opened SlabSteps
  import opened SlabLive
  import opened SlabBits
  import opened SlabFacts

  /** t is p after the reserved chunk c of page x has been freed; a full page rejoins its list. */
  ghost predicate Defaced(p: Pool, t: Pool, x: nat, shift: nat, c: nat) {
    && ChunkPage(p, x, shift) && Returnable(p, x, shift, c)
    && shift < EXACT_SHIFT && c < Reserved(shift)
    && t == p.(pages := ReturnedPages(p, x, shift, c, !HasRoom(shift, p.kinds[x].used)),
               mem := ClearedMem(p.mem, x, shift, c))
  }

  /** The same, by the address that was freed. */
  ghost predicate BitmapFreed(p: Pool, t: Pool, start: nat, a: nat) {
    && OnBitmap(p, start, a)
    && var x := (a - start) / PAGE_SIZE;
    && var shift := p.kinds[x].shift;
    Defaced(p, t, x, shift, (a - start) % PAGE_SIZE / Pow2(shift))
  }

  lemma BlocksBelow(p: Pool, start: nat, end: nat, a: nat)
    requires OnBitmap(p, start, a)
    ensures start <= a < PageAddr(start, |p.kinds|)
  {}

  /** Only small pages keep chunks back. */
  lemma ReservedIsSmall(shift: nat, c: nat)
    requires ChunkShift(shift) && IsReserved(shift, c)
    ensures shift < EXACT_SHIFT
  {}

  lemma RelistedTag(p: Pool, x: nat, shift: nat)
    requires ChunkPage(p, x, shift) && ChunkShift(shift) && p.minShift <= shift && !HasRoom(shift, p.kinds[x].used)
    ensures Shape(p) && x < |p.pages| && ValidRef(p.pages, p.pages[Sentinel(p, shift - p.minShift)].next)
    ensures TagOf(Pushed(p.pages, Sentinel(p, shift - p.minShift), x, TypeTag(shift))[x].prev) == TypeTag(shift)
  {
    hide Core, HasRoom;
    SlotRefs(p, x, shift);
    var s := Sentinel(p, shift - p.minShift);
    PushedLinks(p.pages, s, x, TypeTag(shift), Deref(p.pages[s].next));
  }

  lemma DefacedDesc(p: Pool, t: Pool, x: nat, shift: nat, c: nat)
    requires Defaced(p, t, x, shift, c)
    ensures |t.pages| == |p.pages| > x && |t.mem| == |p.mem|
    ensures t.pages[x].slab == shift && TagOf(t.pages[x].prev) == TAG_SMALL
  {
    hide Core, Mapped, HasRoom, Pushed;
    ChunkPageFacts(p, x, shift);
    DescSlab(p, x, shift);
    TagMeans(p, x);
    if !HasRoom(shift, p.kinds[x].used) {
      RelistedTag(p, x, shift);
    }
  }

  lemma DescSlab(p: Pool, x: nat, shift: nat)
    requires ChunkPage(p, x, shift) && shift < EXACT_SHIFT
    ensures x < |p.pages| && p.pages[x].slab == shift
  {
    assert DescAt(p.pages[x], p.mem, p.kinds, x);
  }

  /** The bitmap says of every chunk what it did, but for c, which it now calls free. */
  lemma DefacedBits(p: Pool, t: Pool, x: nat, shift: nat, c: nat, d: nat)
    requires Defaced(p, t, x, shift, c) && d < Count(shift)
    ensures |t.mem| == |p.mem|
    ensures Bit(MapWord(t.mem, x, d / 64), d % 64) <==> d != c && (d < Reserved(shift) || d in p.kinds[x].used)
  {
    ChunkPageFacts(p, x, shift);
    hide Core, HasRoom;
    Clearing(p.pages[x].slab, p.mem, x, shift, c);
    assert ChunkBit(p.pages[x].slab, p.mem, x, shift, d) <==> d < Reserved(shift) || d in p.kinds[x].used;
  }

  /** No reading of what is then in memory, with whatever runs, chunks and lists, satisfies the
      pool's invariant. */
  lemma DefacedIsLost(p: Pool, t: Pool, x: nat, shift: nat, c: nat, q: Pool)
    requires Defaced(p, t, x, shift, c)
    requires q.pages == t.pages && q.mem == t.mem && |q.kinds| == |p.kinds|
    ensures !Core(q)
  {
    DefacedDesc(p, t, x, shift, c);
    DefacedBits(p, t, x, shift, c, c);
    hide Defaced;
    if Core(q) {
      ReservedSet(q, x, shift, c);
    }
  }

  /** In a pool, a descriptor that says SMALL and a shift has its reserved bits set. */
  lemma ReservedSet(q: Pool, x: nat, shift: nat, c: nat)
    requires Core(q) && x < |q.kinds| && ChunkShift(shift) && c < Reserved(shift) && c < Count(shift)
    requires x < |q.pages| && q.pages[x].slab == shift && TagOf(q.pages[x].prev) == TAG_SMALL
    ensures c < 512 && x * PAGE_WORDS + PAGE_WORDS <= |q.mem| && Bit(MapWord(q.mem, x, c / 64), c % 64)
  {
    TagMeans(q, x);
    assert DescAt(q.pages[x], q.mem, q.kinds, x);
    ChunkPageFacts(q, x, q.kinds[x].shift);
    assert ChunkBit(q.pages[x].slab, q.mem, x, shift, c);
  }

  /** The page is not taken for idle: a block of it is live, and that chunk's bit is set. */
  lemma DefacedNotIdle(p: Pool, t: Pool, x: nat, shift: nat, c: nat)
    requires Defaced(p, t, x, shift, c) && p.kinds[x].used != {}
    ensures |t.mem| == |p.mem| && !IdleMap(t.mem, x, shift)
  {
    hide Core, HasRoom, Mapped, ReturnedPages, ClearedMem, MapWord, Pow2;
    var d :| d in p.kinds[x].used;
    ChunkPageFacts(p, x, shift);
    DefacedBits(p, t, x, shift, c, d);
    MaskFits(shift);
    MapWordsExact(shift);
    hide Defaced, Count;
    if d < 64 {
      HeadBit(MapWord(t.mem, x, 0), Reserved(shift), d);
    } else {
      BitZero(d % 64);
    }
  }

  lemma DefacedNow(p: Pool, t: Pool, x: nat, shift: nat, c: nat)
    requires ChunkPage(p, x, shift) && Returnable(p, x, shift, c) && IsReserved(shift, c) && NoneIdle(p.kinds)
    requires t == p.(pages := ReturnedPages(p, x, shift, c, !HasRoom(shift, p.kinds[x].used)),
                     mem := ClearedMem(p.mem, x, shift, c))
    ensures Defaced(p, t, x, shift, c) && shift < EXACT_SHIFT && |t.mem| == |p.mem| && !IdleMap(t.mem, x, shift)
  {
    ReservedIsSmall(shift, c);
    DefacedNotIdle(p, t, x, shift, c);
  }

  lemma HeadBit(w: Word, r: nat, d: nat)
    requires r <= d < 64 && Pow2(r) - 1 <= ALL_ONES && Bit(w, d)
    ensures And(w, Not(Pow2(r) - 1)) != 0
  {
    BitAnd(w, Not(Pow2(r) - 1), d);
    NotBit(Pow2(r) - 1, d);
    BitOnes(r, d);
    BitZero(d);
  }

  /** The chunk is the first that the search of the page's bitmap comes to: it is handed out
      as soon as the page is asked for a chunk. */
  lemma DefacedIsNext(p: Pool, t: Pool, x: nat, shift: nat, c: nat, n: nat, i: nat)
    requires Defaced(p, t, x, shift, c) && |t.mem| == |p.mem|
    requires n < 8 && FirstClearBit(t.mem, x, n, i)
    ensures 64 * n + i == c
  {
    ReservedBelow(shift, c);
    DefacedBits(p, t, x, shift, c, c);
    hide Defaced, MapWord;
    var b := 64 * n + i;
    assert b / 64 == n && b % 64 == i;
    if c < b {
      BitsBefore(t.mem, x, n, i, c);
    } else if b < c {
      DefacedBits(p, t, x, shift, c, b);
    }
  }

  lemma ReservedBelow(shift: nat, c: nat)
    requires 3 <= shift < EXACT_SHIFT && c < Reserved(shift)
    ensures c < Count(shift)
  {
    Geometry(shift);
  }

  lemma DefacedHasClear(p: Pool, t: Pool, x: nat, shift: nat, c: nat)
    requires Defaced(p, t, x, shift, c)
    ensures |t.mem| == |p.mem| && 1 <= MapWords(shift) <= 8
    ensures exists w :: 0 <= w < MapWords(shift) && MapWord(t.mem, x, w) != ALL_ONES
  {
    DefacedBits(p, t, x, shift, c, c);
    MapWordsExact(shift);
    Geometry(shift);
    hide Defaced, MapWord;
    BusyBit(c % 64);
    assert MapWord(t.mem, x, c / 64) != ALL_ONES;
  }

  /** Once an address on a bitmap has been freed, no pool is left. */
  lemma BitmapIsLost(p: Pool, t: Pool, start: nat, a: nat, q: Pool)
    requires BitmapFreed(p, t, start, a)
    requires q.pages == t.pages && q.mem == t.mem && |q.kinds| == |p.kinds|
    ensures !Core(q)
  {
    var x := (a - start) / PAGE_SIZE;
    var shift := p.kinds[x].shift;
    hide Defaced, Core;
    DefacedIsLost(p, t, x, shift, (a - start) % PAGE_SIZE / Pow2(shift), q);
  }

  lemma BitmapGone(p: Pool, t: Pool, x: nat, shift: nat, c: nat, start: nat, live: map<nat, nat>, a: nat)
    requires Defaced(p, t, x, shift, c) && Sound(p, start, live) && c < Count(shift)
    requires a == ChunkAddr(start, x, shift, c) && OnBitmap(p, start, a)
    requires (a - start) / PAGE_SIZE == x && (a - start) % PAGE_SIZE / Pow2(shift) == c
    ensures BitmapFreed(p, t, start, a) && !Core(t) && live - {a} == live
  {
    hide Core, HasRoom, Mapped, NoneIdle, Accounted;
    ReservedNotLive(p, x, shift, c, start, live);
    DefacedIsLost(p, t, x, shift, c, t);
  }

  /** The page is where the next search of its slot list begins. */
  lemma DefacedFirst(p: Pool, t: Pool, x: nat, shift: nat, c: nat)
    requires Defaced(p, t, x, shift, c) && (HasRoom(shift, p.kinds[x].used) ==> SlotFront(p, x, shift))
    ensures Sentinel(p, shift - p.minShift) < |t.pages| == |p.pages|
    ensures t.pages[Sentinel(p, shift - p.minShift)].next == Ref(x)
  {
    var s := Sentinel(p, shift - p.minShift);
    SlotHead(p, shift);
    hide Core, Mapped, HasRoom;
    if !HasRoom(shift, p.kinds[x].used) {
      SlotRefs(p, x, shift);
      PushedLinks(p.pages, s, x, TypeTag(shift), Deref(p.pages[s].next));
    } else {
      FrontNext(p, x, shift);
    }
  }

  lemma FrontNext(p: Pool, x: nat, shift: nat)
    requires SlotFront(p, x, shift)
    ensures Shape(p) && p.pages[Sentinel(p, shift - p.minShift)].next == Ref(x)
  {
    var l := shift - p.minShift;
    assert Ring(p.pages, Sentinel(p, l), p.lists[l], ListTag(p.minShift, l));
    assert p.pages[Sentinel(p, l)].next == Ref(At(Sentinel(p, l), p.lists[l], 0));
  }

  /** All the search for a chunk needs to know of the page. */
  lemma BitmapNext(p: Pool, t: Pool, start: nat, a: nat)
    requires BitmapFreed(p, t, start, a)
    requires var x := (a - start) / PAGE_SIZE;
      HasRoom(p.kinds[x].shift, p.kinds[x].used) ==> SlotFront(p, x, p.kinds[x].shift)
    ensures var x, shift := (a - start) / PAGE_SIZE, p.kinds[(a - start) / PAGE_SIZE].shift;
      && x < |t.pages| == |p.pages| && t.pages[x].slab == shift && 3 <= shift < EXACT_SHIFT && p.minShift <= shift
      && Sentinel(p, shift - p.minShift) < |t.pages|
      && t.pages[Sentinel(p, shift - p.minShift)].next == Ref(x)
      && x * PAGE_WORDS + PAGE_WORDS <= |t.mem|
      && Count(shift) / 64 <= 8
      && exists w :: 0 <= w < Count(shift) / 64 && MapWord(t.mem, x, w) != ALL_ONES
  {
    hide Core, HasRoom, Defaced;
    var x := (a - start) / PAGE_SIZE;
    var shift, c := p.kinds[x].shift, (a - start) % PAGE_SIZE / Pow2(p.kinds[x].shift);
    DefacedShape(p, t, x, shift, c);
    DefacedDesc(p, t, x, shift, c);
    DefacedFirst(p, t, x, shift, c);
    DefacedHasClear(p, t, x, shift, c);
  }

  lemma DefacedShape(p: Pool, t: Pool, x: nat, shift: nat, c: nat)
    requires Defaced(p, t, x, shift, c)
    ensures 3 <= shift < EXACT_SHIFT && p.minShift <= shift && x < |p.kinds| && Shape(p)
    ensures x * PAGE_WORDS + PAGE_WORDS <= |t.mem|
  {}

  /** The chunk found is the one that was freed. */
  lemma BitmapFound(p: Pool, t: Pool, start: nat, a: nat, n: nat, i: nat)
    requires BitmapFreed(p, t, start, a)
    requires var x := (a - start) / PAGE_SIZE;
      x * PAGE_WORDS + PAGE_WORDS <= |t.mem| && n < 8 && FirstClearBit(t.mem, x, n, i)
    ensures var x, s := (a - start) / PAGE_SIZE, Pow2(p.kinds[(a - start) / PAGE_SIZE].shift);
      a == start + PAGE_SIZE * x + ((n * 64) * s + i * s)
  {
    hide Core, HasRoom, Defaced, FirstClearBit;
    var x := (a - start) / PAGE_SIZE;
    var shift, c := p.kinds[x].shift, (a - start) % PAGE_SIZE / Pow2(p.kinds[x].shift);
    DefacedBitsLength(p, t, x, shift, c);
    DefacedIsNext(p, t, x, shift, c, n, i);
    SmallAddr(start, x, shift, n, i);
    hide *;
    Rebuilt(start, x, Pow2(shift), c, a);
  }

  lemma Rebuilt(start: nat, x: nat, s: nat, c: nat, a: nat)
    requires a >= start && s > 0 && x == (a - start) / PAGE_SIZE
    requires (a - start) % PAGE_SIZE % s == 0 && c == (a - start) % PAGE_SIZE / s
    ensures a == start + PAGE_SIZE * x + c * s
  {
    var o := (a - start) % PAGE_SIZE;
    assert o == o / s * s + o % s;
  }

  lemma DefacedBitsLength(p: Pool, t: Pool, x: nat, shift: nat, c: nat)
    requires Defaced(p, t, x, shift, c)
    ensures |t.mem| == |p.mem|
  {}
}
