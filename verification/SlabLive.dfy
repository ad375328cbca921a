/** Which addresses are live blocks, and what the invariant says about them as a whole. */
module SlabLive {
  import opened Sequences
  import opened Arith
  import opened Words
  import opened SlabModel
  import opened SlabInvariant
  import opened SlabSteps

  /** The address of page x, and of chunk c in it. */
  function PageAddr(start: nat, x: nat): nat { start + PAGE_SIZE * x }

  function ChunkAddr(start: nat, x: nat, shift: nat, c: nat): nat { PageAddr(start, x) + c * Pow2(shift) }

  /** The size of the live block at address a, or 0 if there is none. */
  function SizeAt(kinds: seq<Kind>, start: nat, a: nat): nat {
    if a < start || (a - start) / PAGE_SIZE >= |kinds| then 0
    else SizeIn(kinds[(a - start) / PAGE_SIZE], (a - start) % PAGE_SIZE)
  }

  function SizeIn(kind: Kind, offset: nat): nat {
    match kind
    case Busy(len) => if offset == 0 then PAGE_SIZE * len else 0
    case Chunks(shift, used) =>
      if offset % Pow2(shift) == 0 && offset / Pow2(shift) in used then Pow2(shift) else 0
    case _ => 0
  }

  /** The live map is exactly what the page kinds record. */
  ghost predicate Accounted(kinds: seq<Kind>, start: nat, live: map<nat, nat>) {
    && (forall a: nat :: a in live <==> SizeAt(kinds, start, a) > 0)
    && (forall a: nat :: a in live ==> live[a] == SizeAt(kinds, start, a))
  }

  /** No page is carved into chunks without one of them being in use. */
  ghost predicate NoneIdle(kinds: seq<Kind>) {
    forall x :: 0 <= x < |kinds| && kinds[x].Chunks? ==> kinds[x].used != {}
  }

  /** A pool whose area begins at start and whose live blocks are `live`. */
  ghost predicate Sound(p: Pool, start: nat, live: map<nat, nat>) {
    && Core(p)
    && NoneIdle(p.kinds)
    && Accounted(p.kinds, start, live)
    && start > 0 && start % PAGE_SIZE == 0
  }

  // ----- address arithmetic

  lemma ChunkFits(shift: nat, c: nat)
    requires ChunkShift(shift) && c < Count(shift)
    ensures c * Pow2(shift) + Pow2(shift) <= PAGE_SIZE
    ensures (c * Pow2(shift)) % Pow2(shift) == 0 && (c * Pow2(shift)) / Pow2(shift) == c
  {
    Geometry(shift);
    MulMonotone(c + 1, Count(shift), Pow2(shift));
    DivUnique(c * Pow2(shift), Pow2(shift), c, 0);
  }

  /** Decoding an address as rp_slab_free does recovers page and chunk. */
  lemma DecodeChunk(start: nat, x: nat, shift: nat, c: nat, a: nat)
    requires ChunkShift(shift) && c < Count(shift)
    ensures a == ChunkAddr(start, x, shift, c) <==>
      && a >= start
      && (a - start) / PAGE_SIZE == x
      && (a - start) % PAGE_SIZE % Pow2(shift) == 0
      && (a - start) % PAGE_SIZE / Pow2(shift) == c
  {
    ChunkFits(shift, c);
    var s := Pow2(shift);
    hide *;
    PageDecodes(start, x, c * s, a);
    if a >= start {
      ChunkDecodes((a - start) % PAGE_SIZE, s, c);
    }
  }

  lemma PageDecodes(start: nat, x: nat, k: nat, a: nat)
    requires k < PAGE_SIZE
    ensures a == start + PAGE_SIZE * x + k <==>
      a >= start && (a - start) / PAGE_SIZE == x && (a - start) % PAGE_SIZE == k
  {}

  lemma ChunkDecodes(o: nat, s: nat, c: nat)
    requires s > 0
    ensures o == c * s <==> o % s == 0 && o / s == c
  {
    if o == c * s {
      DivUnique(o, s, c, 0);
    } else {
      assert o == o / s * s + o % s;
    }
  }

  /** Chunks are aligned to their size. */
  lemma ChunkAligned(start: nat, x: nat, shift: nat, c: nat)
    requires start % PAGE_SIZE == 0 && ChunkShift(shift)
    ensures ChunkAddr(start, x, shift, c) % Pow2(shift) == 0
  {
    Geometry(shift);
    var page, s := start / PAGE_SIZE + x, Pow2(shift);
    assert PAGE_SIZE * page == (Count(shift) * page) * s;
    DivUnique(ChunkAddr(start, x, shift, c), s, Count(shift) * page + c, 0);
  }

  lemma ChunkAbove(start: nat, x: nat, shift: nat, c: nat)
    ensures ChunkAddr(start, x, shift, c) >= start
  {}

  // ----- how each step moves the live blocks

  lemma TakeAccounts(kinds: seq<Kind>, x: nat, k: nat, start: nat, live: map<nat, nat>)
    requires Accounted(kinds, start, live) && Tiled(kinds)
    requires x < |kinds| && kinds[x].Free? && 1 <= k <= kinds[x].len
    ensures PageAddr(start, x) !in live
    ensures Accounted(TakenKinds(kinds, x, k), start, live[PageAddr(start, x) := PAGE_SIZE * k])
  {
    var r := TakenKinds(kinds, x, k);
    assert RunAt(kinds, x, kinds[x].len);
    forall a: nat
      ensures SizeAt(r, start, a) == if a == PageAddr(start, x) then PAGE_SIZE * k else SizeAt(kinds, start, a)
    {
      if a >= start && (a - start) / PAGE_SIZE < |kinds| {
        var y := (a - start) / PAGE_SIZE;
        assert a == PageAddr(start, y) + (a - start) % PAGE_SIZE;
        if x < y < x + kinds[x].len { assert kinds[y] == Inside(x); }
      }
    }
    assert SizeAt(kinds, start, PageAddr(start, x)) == 0;
  }

  /** A fresh page is carved and its first chunk handed out. */
  lemma CarveAccounts(kinds: seq<Kind>, x: nat, shift: nat, c: nat, start: nat, live: map<nat, nat>)
    requires Accounted(kinds, start, live) && Tiled(kinds) && x < |kinds| && kinds[x].Free?
    requires ChunkShift(shift) && c < Count(shift) && 1 <= kinds[x].len
    ensures var a := ChunkAddr(start, x, shift, c);
      && a !in live
      && Accounted(TakenKinds(kinds, x, 1)[x := Chunks(shift, {c})], start, live[a := Pow2(shift)])
  {
    var a := ChunkAddr(start, x, shift, c);
    var r := TakenKinds(kinds, x, 1)[x := Chunks(shift, {c})];
    assert RunAt(kinds, x, kinds[x].len);
    DecodeChunk(start, x, shift, c, a);
    forall b: nat
      ensures SizeAt(r, start, b) == if b == a then Pow2(shift) else SizeAt(kinds, start, b)
    {
      DecodeChunk(start, x, shift, c, b);
      if b >= start && (b - start) / PAGE_SIZE < |kinds| {
        var y := (b - start) / PAGE_SIZE;
        if x < y < x + kinds[x].len { assert kinds[y] == Inside(x); }
      }
    }
    assert SizeAt(kinds, start, a) == 0;
  }

  /** Page x changes its kind, and with it the block at address p. */
  lemma RekindAccounts(kinds: seq<Kind>, x: nat, kind: Kind, start: nat, live: map<nat, nat>, p: nat)
    requires Accounted(kinds, start, live) && x < |kinds| && p >= start && (p - start) / PAGE_SIZE == x
    requires forall o: nat :: o < PAGE_SIZE && o != (p - start) % PAGE_SIZE ==> SizeIn(kind, o) == SizeIn(kinds[x], o)
    ensures var size := SizeIn(kind, (p - start) % PAGE_SIZE);
      Accounted(kinds[x := kind], start, if size > 0 then live[p := size] else live - {p})
  {
    var r := kinds[x := kind];
    forall a: nat
      ensures SizeAt(r, start, a) == if a == p then SizeIn(kind, (p - start) % PAGE_SIZE) else SizeAt(kinds, start, a)
    {
      if a != p && a >= start && (a - start) / PAGE_SIZE == x {
        assert (a - start) % PAGE_SIZE != (p - start) % PAGE_SIZE;
      }
    }
  }

  lemma ChunkAccounts(kinds: seq<Kind>, x: nat, shift: nat, used: set<nat>, c: nat, start: nat, live: map<nat, nat>)
    requires Accounted(kinds, start, live) && x < |kinds| && ChunkShift(shift) && c < Count(shift)
    requires kinds[x] == Chunks(shift, used)
    ensures var a := ChunkAddr(start, x, shift, c);
      && (a in live <==> c in used)
      && Accounted(kinds[x := Chunks(shift, used + {c})], start, live[a := Pow2(shift)])
      && Accounted(kinds[x := Chunks(shift, used - {c})], start, live - {a})
  {
    var a := ChunkAddr(start, x, shift, c);
    DecodeChunk(start, x, shift, c, a);
    forall o: nat | o < PAGE_SIZE && o != (a - start) % PAGE_SIZE
      ensures SizeIn(Chunks(shift, used + {c}), o) == SizeIn(kinds[x], o)
      ensures SizeIn(Chunks(shift, used - {c}), o) == SizeIn(kinds[x], o)
    {
      DecodeChunk(start, x, shift, c, PageAddr(start, x) + o);
    }
    RekindAccounts(kinds, x, Chunks(shift, used + {c}), start, live, a);
    RekindAccounts(kinds, x, Chunks(shift, used - {c}), start, live, a);
  }

  // ----- what holds of every sound pool

  lemma SoundChunks(p: Pool, start: nat, live: map<nat, nat>, x: nat)
    requires Sound(p, start, live) && x < |p.kinds| && p.kinds[x].Chunks?
    ensures Tiled(p.kinds) && ChunkShift(p.kinds[x].shift)
    ensures forall c :: c in p.kinds[x].used ==> Reserved(p.kinds[x].shift) <= c < Count(p.kinds[x].shift)
  {}

  /** The bytes owned by the page at x: nothing but its own area, so blocks of different
      runs and pages never meet. */
  lemma BlockWithin(p: Pool, start: nat, live: map<nat, nat>, a: nat)
    requires Sound(p, start, live) && a in live
    ensures a >= start && live[a] > 0
    ensures var x := (a - start) / PAGE_SIZE;
      && x < |p.kinds|
      && (p.kinds[x].Busy? ==> a == PageAddr(start, x) && live[a] == PAGE_SIZE * p.kinds[x].len)
      && (p.kinds[x].Chunks? ==>
           && live[a] == Pow2(p.kinds[x].shift)
           && a % live[a] == 0
           && PageAddr(start, x) + Reserved(p.kinds[x].shift) * live[a] <= a
           && a + live[a] <= PageAddr(start, x + 1))
      && (p.kinds[x].Busy? || p.kinds[x].Chunks?)
  {
    assert SizeAt(p.kinds, start, a) > 0;
    var x := (a - start) / PAGE_SIZE;
    if p.kinds[x].Chunks? {
      SoundChunks(p, start, live, x);
      hide Sound, Accounted;
      ChunkWithin(start, x, p.kinds[x].shift, (a - start) % PAGE_SIZE / Pow2(p.kinds[x].shift), a);
    }
  }

  /** A chunk that is not reserved lies in its page, past the bitmap. */
  lemma ChunkWithin(start: nat, x: nat, shift: nat, c: nat, a: nat)
    requires start % PAGE_SIZE == 0 && ChunkShift(shift) && Reserved(shift) <= c < Count(shift)
    requires a >= start && x == (a - start) / PAGE_SIZE && c == (a - start) % PAGE_SIZE / Pow2(shift)
    requires (a - start) % PAGE_SIZE % Pow2(shift) == 0
    ensures a % Pow2(shift) == 0 && a + Pow2(shift) <= PageAddr(start, x + 1)
    ensures PageAddr(start, x) + Reserved(shift) * Pow2(shift) <= a
  {
    DecodeChunk(start, x, shift, c, a);
    ChunkFits(shift, c);
    ChunkAligned(start, x, shift, c);
    hide Count, Pow2;
    MulMonotone(Reserved(shift), c, Pow2(shift));
  }

  /** Live blocks lie inside the page area, and no two of them overlap. */
  lemma LiveBlocksDisjoint(p: Pool, start: nat, live: map<nat, nat>, a: nat, b: nat)
    requires Sound(p, start, live) && a in live && b in live && a < b
    ensures start <= a && a + live[a] <= b && b + live[b] <= PageAddr(start, |p.kinds|)
  {
    BlockWithin(p, start, live, a);
    BlockWithin(p, start, live, b);
    var x, y := (a - start) / PAGE_SIZE, (b - start) / PAGE_SIZE;
    assert IsRun(p.kinds[x]) ==> RunAt(p.kinds, x, p.kinds[x].len);
    assert IsRun(p.kinds[y]) ==> RunAt(p.kinds, y, p.kinds[y].len);
    assert x <= y;
    if x == y {
      SamePageDisjoint(p, start, live, a, b);
    } else if p.kinds[x].Busy? {
      assert y >= x + p.kinds[x].len;
    }
  }

  lemma SamePageDisjoint(p: Pool, start: nat, live: map<nat, nat>, a: nat, b: nat)
    requires Sound(p, start, live) && a in live && b in live && a < b
    requires (a - start) / PAGE_SIZE == (b - start) / PAGE_SIZE
    ensures a + live[a] <= b
  {
    BlockWithin(p, start, live, a);
    BlockWithin(p, start, live, b);
    var x := (a - start) / PAGE_SIZE;
    if p.kinds[x].Chunks? {
      Geometry(p.kinds[x].shift);
      assert a % live[a] == 0 && b % live[a] == 0;
      Multiples(a, b, live[a]);
    }
  }

  /** The bitmap words are inside the reserved chunks. */
  lemma MapIsReserved(shift: nat, w: nat)
    requires ChunkShift(shift) && shift < EXACT_SHIFT && w < Count(shift) / 64
    ensures 8 * w + 8 <= Reserved(shift) * Pow2(shift) <= PAGE_SIZE
  {
    Geometry(shift);
  }

  /** Of different pages y and x, or of the k pages at y and another page x, the bytes are apart. */
  lemma PagesApart(start: nat, y: nat, k: nat, x: nat, a: nat, len: nat, offset: nat)
    requires x < y || y + k <= x
    requires PageAddr(start, y) <= a && a + len <= PageAddr(start, y + k) && offset + 8 <= PAGE_SIZE
    ensures a + len <= PageAddr(start, x) + offset || PageAddr(start, x) + offset + 8 <= a
  {}

  /** A page of chunks is outside every run. */
  lemma ChunksOutsideRuns(kinds: seq<Kind>, x: nat, y: nat)
    requires Tiled(kinds) && x < |kinds| && kinds[x].Chunks? && y < |kinds| && IsRun(kinds[y])
    ensures x < y || y + kinds[y].len <= x
  {
    assert RunAt(kinds, y, kinds[y].len);
  }

  /** No live block touches a page's in-page bitmap. */
  lemma LiveBlocksMissBitmaps(p: Pool, start: nat, live: map<nat, nat>, a: nat, x: nat, w: nat)
    requires Sound(p, start, live) && a in live
    requires x < |p.kinds| && p.kinds[x].Chunks? && p.kinds[x].shift < EXACT_SHIFT
    requires w < Count(p.kinds[x].shift) / 64
    ensures var word := PageAddr(start, x) + 8 * w; a + live[a] <= word || word + 8 <= a
  {
    SoundChunks(p, start, live, x);
    BlockWithin(p, start, live, a);
    hide Sound, Tiled, Reserved, Count, Pow2;
    MapIsReserved(p.kinds[x].shift, w);
    var y := (a - start) / PAGE_SIZE;
    if p.kinds[y].Busy? {
      ChunksOutsideRuns(p.kinds, x, y);
      PagesApart(start, y, p.kinds[y].len, x, a, live[a], 8 * w);
    } else if y != x {
      PagesApart(start, y, 1, x, a, live[a], 8 * w);
    }
  }

  // ----- conservation

  /** Pages in the runs and chunked pages found from page x on. */
  ghost function PagesFrom(kinds: seq<Kind>, x: nat): nat
    decreases |kinds| - x
  {
    if x >= |kinds| then 0
    else if IsRun(kinds[x]) then kinds[x].len + PagesFrom(kinds, x + 1)
    else if kinds[x].Chunks? then 1 + PagesFrom(kinds, x + 1)
    else PagesFrom(kinds, x + 1)
  }

  /** The tiling is exact: the runs and chunked pages together have every page, once. */
  lemma {:induction false} PagesConserved(kinds: seq<Kind>, x: nat)
    requires Tiled(kinds) && x <= |kinds|
    requires x < |kinds| ==> !kinds[x].Inside?
    ensures PagesFrom(kinds, x) == |kinds| - x
    decreases |kinds| - x
  {
    if x < |kinds| {
      var len := if IsRun(kinds[x]) then kinds[x].len else 1;
      assert IsRun(kinds[x]) ==> RunAt(kinds, x, len);
      SkipInside(kinds, x, x + 1, x + len);
      assert x + len < |kinds| ==> !kinds[x + len].Inside?;
      PagesConserved(kinds, x + len);
    }
  }

  lemma {:induction false} SkipInside(kinds: seq<Kind>, x: nat, y: nat, end: nat)
    requires y <= end <= |kinds| && x < y
    requires forall j :: y <= j < end ==> kinds[j] == Inside(x)
    ensures PagesFrom(kinds, y) == PagesFrom(kinds, end)
    decreases end - y
  {
    if y < end {
      SkipInside(kinds, x, y + 1, end);
    }
  }

  function LenAt(kinds: seq<Kind>, x: nat): nat {
    if x < |kinds| && kinds[x].Free? then kinds[x].len else 0
  }

  /** The lengths of the free runs whose heads are in q, in list order... */
  ghost function FreePages(kinds: seq<Kind>, q: seq<nat>): nat {
    if q == [] then 0 else LenAt(kinds, q[0]) + FreePages(kinds, q[1..])
  }

  /** ... and in page order. */
  ghost function FreePagesFrom(kinds: seq<Kind>, q: seq<nat>, x: nat): nat
    decreases |kinds| - x
  {
    if x >= |kinds| then 0
    else (if x in q then LenAt(kinds, x) else 0) + FreePagesFrom(kinds, q, x + 1)
  }

  lemma {:induction false} DropFirst(kinds: seq<Kind>, q: seq<nat>, x: nat)
    requires q != [] && NoDup(q)
    ensures FreePagesFrom(kinds, q, x) == FreePagesFrom(kinds, q[1..], x) + if x <= q[0] then LenAt(kinds, q[0]) else 0
    decreases |kinds| - x
  {
    if x < |kinds| {
      DropFirst(kinds, q, x + 1);
      assert q == [q[0]] + q[1..];
      assert x in q <==> x == q[0] || x in q[1..];
      assert q[0] !in q[1..];
    }
  }

  lemma {:induction false} NoneFrom(kinds: seq<Kind>, x: nat)
    ensures FreePagesFrom(kinds, [], x) == 0
    decreases |kinds| - x
  {
    if x < |kinds| {
      NoneFrom(kinds, x + 1);
    }
  }

  lemma {:induction false} OrderIrrelevant(kinds: seq<Kind>, q: seq<nat>)
    requires NoDup(q)
    ensures FreePages(kinds, q) == FreePagesFrom(kinds, q, 0)
  {
    if q == [] {
      NoneFrom(kinds, 0);
    } else {
      DropFirst(kinds, q, 0);
      OrderIrrelevant(kinds, q[1..]);
    }
  }

  lemma {:induction false} AllFree(kinds: seq<Kind>, q: seq<nat>, x: nat)
    requires forall y :: 0 <= y < |kinds| ==> kinds[y].Free? || kinds[y].Inside?
    requires forall y :: 0 <= y < |kinds| && kinds[y].Free? ==> y in q
    ensures FreePagesFrom(kinds, q, x) == PagesFrom(kinds, x)
    decreases |kinds| - x
  {
    if x < |kinds| {
      AllFree(kinds, q, x + 1);
    }
  }

  lemma FirstIsMember(q: seq<nat>)
    ensures q == [] || q[0] in q
  {}

  /** Once every live block has been freed, in whatever order, no page is on a slot list and
      the free runs add up to all the pages the pool began with. */
  lemma EmptyPoolIsWhole(p: Pool, start: nat, live: map<nat, nat>)
    requires Sound(p, start, live) && live == map[]
    ensures forall l :: 0 <= l < FreeIndex(p) ==> p.lists[l] == []
    ensures FreePages(p.kinds, p.lists[FreeIndex(p)]) == |p.kinds|
  {
    var f := FreeIndex(p);
    forall y | 0 <= y < |p.kinds|
      ensures p.kinds[y].Free? || p.kinds[y].Inside?
    {
      EmptyMeansFree(p, start, live, y);
    }
    forall l | 0 <= l < f
      ensures p.lists[l] == []
    {
      FirstIsMember(p.lists[l]);
      forall x: nat
        ensures x !in p.lists[l]
      {
        assert !Home(p.kinds, p.minShift, x, l);
      }
    }
    forall y: nat | y < |p.kinds| && p.kinds[y].Free?
      ensures y in p.lists[f]
    {
      assert Home(p.kinds, p.minShift, y, f);
    }
    OrderIrrelevant(p.kinds, p.lists[f]);
    AllFree(p.kinds, p.lists[f], 0);
    PagesConserved(p.kinds, 0);
  }

  lemma EmptyMeansFree(p: Pool, start: nat, live: map<nat, nat>, y: nat)
    requires Sound(p, start, live) && live == map[] && y < |p.kinds|
    ensures p.kinds[y].Free? || p.kinds[y].Inside?
  {
    assert IsRun(p.kinds[y]) ==> RunAt(p.kinds, y, p.kinds[y].len);
    assert p.kinds[y].Busy? ==> SizeAt(p.kinds, start, PageAddr(start, y)) > 0;
    if p.kinds[y].Chunks? {
      var shift := p.kinds[y].shift;
      var c :| c in p.kinds[y].used;
      ChunkAccounts(p.kinds, y, shift, p.kinds[y].used, c, start, live);
    }
  }

  // ----- size classes

  /** The first shift from s on whose chunks hold size bytes. */
  function ClassFrom(s: nat, size: nat): (shift: nat)
    requires s <= 11
    ensures s <= shift <= 11
    ensures forall t :: s <= t < shift ==> Pow2(t) < size
    ensures size <= Pow2(shift) || shift == 11
    decreases 11 - s
  {
    if size <= Pow2(s) || s == 11 then s else ClassFrom(s + 1, size)
  }

  /** The least number of pages that hold size bytes. */
  function PagesFor(size: nat): (k: nat)
    ensures size <= PAGE_SIZE * k < size + PAGE_SIZE
  {
    size / PAGE_SIZE + if size % PAGE_SIZE != 0 then 1 else 0
  }

  /** Bytes a request for size bytes is served with. */
  function BlockBytes(minShift: nat, size: nat): (bytes: nat)
    requires minShift <= 11
    ensures bytes >= size && bytes > 0
    ensures size >= MAX_SIZE ==> bytes < size + PAGE_SIZE && bytes % PAGE_SIZE == 0
    ensures size < MAX_SIZE ==> bytes == Pow2(ClassFrom(minShift, size))
  {
    if size >= MAX_SIZE then PAGE_SIZE * PagesFor(size)
    else
      assert Pow2(11) == 2048 by { Geometry(11); }
      Pow2(ClassFrom(minShift, size))
  }

  lemma {:induction false} ClassUnique(s: nat, size: nat, shift: nat)
    requires s <= shift <= 11 && size <= Pow2(shift) && (s < shift ==> Pow2(shift - 1) < size)
    ensures ClassFrom(s, size) == shift
    decreases 11 - s
  {
    if s < shift {
      Pow2Monotone(s, shift - 1);
      ClassUnique(s + 1, size, shift);
    }
  }
}
