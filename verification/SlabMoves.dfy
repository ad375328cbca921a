/** What a request does to the pool, told by page kinds, lists and bitmaps alone: which page it
    takes or gives back, and where it stands afterwards. */
module SlabMoves {
  import opened Arith
  import opened Sequences
  import opened Words
  import opened SlabModel
  import opened SlabInvariant
  import opened SlabSteps
  import opened SlabLive
  import opened SlabBits
  import opened SlabChunks
  import opened SlabFacts
  import opened SlabBitmap

  // ----- taking

  /** t is p after k pages have been taken from the head of the first free run that has them,
      at position i of the free list. */
  ghost predicate PagesTaken(p: Pool, t: Pool, i: nat, k: nat) {
    && FirstFit(p, i, k)
    && var f := FreeIndex(p);
    && var x := p.lists[f][i];
    && t.kinds == TakenKinds(p.kinds, x, k)
    && t.lists == p.lists[f := TakenList(p.lists[f], i, k, p.kinds[x].len)]
    && t.mem == p.mem
  }

  /** The run at position i is the first on the free list with room for size bytes. */
  ghost predicate FirstHolding(p: Pool, i: nat, size: nat) {
    && Shape(p)
    && var q := p.lists[FreeIndex(p)];
    && i < |q| && PAGE_SIZE * LenAt(p.kinds, q[i]) >= size
    && forall j :: 0 <= j < i ==> PAGE_SIZE * LenAt(p.kinds, q[j]) < size
  }

  /** a is the head of that run, and the fewest of its pages that hold size bytes are taken. */
  ghost predicate RunServed(p: Pool, t: Pool, start: nat, size: nat, a: nat, i: nat, k: nat) {
    && FirstHolding(p, i, size) && size <= PAGE_SIZE * k < size + PAGE_SIZE
    && a == PageAddr(start, p.lists[FreeIndex(p)][i]) && PagesTaken(p, t, i, k)
  }

  /** The slot list being empty, the first free page has been cut into chunks, and the first
      that is not part of the bitmap handed out. */
  ghost predicate FromFresh(p: Pool, t: Pool, x: nat, shift: nat, c: nat) {
    && Shape(p) && ChunkShift(shift) && p.minShift <= shift
    && var f, l := FreeIndex(p), shift - p.minShift;
    && p.lists[l] == [] && p.lists[f] != [] && p.lists[f][0] == x
    && x < |p.kinds| && p.kinds[x].Free? && c == Reserved(shift)
    && t.kinds == TakenKinds(p.kinds, x, 1)[x := Chunks(shift, {c})]
    && t.lists == p.lists[f := TakenList(p.lists[f], 0, 1, p.kinds[x].len)][l := [x]]
    && OnlyWords(p.mem, t.mem, x)
  }

  ghost predicate ChunkServed(p: Pool, t: Pool, start: nat, shift: nat, a: nat, x: nat, c: nat) {
    && a == ChunkAddr(start, x, shift, c)
    && (FromFront(p, t, x, shift, c) || FromFresh(p, t, x, shift, c))
  }

  /** a is what a request for size bytes is to get, and t the pool it leaves. */
  ghost predicate Served(p: Pool, t: Pool, start: nat, size: nat, a: nat)
    requires p.minShift <= 11
  {
    if size >= MAX_SIZE then exists i: nat, k: nat :: RunServed(p, t, start, size, a, i, k)
    else exists x: nat, c: nat :: ChunkServed(p, t, start, ClassFrom(p.minShift, size), a, x, c)
  }

  lemma TakenIsFree(p: Pool, t: Pool, i: nat, k: nat)
    requires Core(p) && PagesTaken(p, t, i, k)
    ensures var q := p.lists[FreeIndex(p)];
      && i < |q| && q[i] < |p.kinds| && p.kinds[q[i]].Free? && 1 <= k <= p.kinds[q[i]].len
      && !NoFit(p, k) && q != [] && t.kinds == TakenKinds(p.kinds, q[i], k)
  {
    FirstFitIsFree(p, i, k);
  }

  /** A single page is the first of the free list. */
  lemma TakenForChunks(p: Pool, t: Pool, i: nat, shift: nat)
    requires Core(p) && PagesTaken(p, t, i, 1) && ChunkShift(shift) && p.minShift <= shift
    ensures i == 0 && t.lists[shift - p.minShift] == p.lists[shift - p.minShift]
    ensures var q := p.lists[FreeIndex(p)];
      && q != [] && q[0] < |p.kinds| && p.kinds[q[0]].Free? && 1 <= p.kinds[q[0]].len
      && t.kinds == TakenKinds(p.kinds, q[0], 1)
  {
    var q := p.lists[FreeIndex(p)];
    FirstFitIsFree(p, i, 1);
    FirstIsMember(q);
    FreeRun(p, q[0]);
  }

  lemma FreshServes(p: Pool, mid: Pool, t: Pool, start: nat, shift: nat, a: nat, x: nat, c: nat)
    requires Shape(p) && PagesTaken(p, mid, 0, 1) && ChunkShift(shift) && p.minShift <= shift
    requires p.lists[shift - p.minShift] == [] && p.lists[FreeIndex(p)] != [] && p.lists[FreeIndex(p)][0] == x
    requires x < |p.kinds| && p.kinds[x].Free?
    requires c == Reserved(shift) && a == ChunkAddr(start, x, shift, c)
    requires t.kinds == mid.kinds[x := Chunks(shift, {c})] && t.lists == mid.lists[shift - p.minShift := [x]]
    requires OnlyWords(mid.mem, t.mem, x)
    ensures ChunkServed(p, t, start, shift, a, x, c)
  {
    assert FromFresh(p, t, x, shift, c);
  }

  lemma RunServes(p: Pool, t: Pool, start: nat, size: nat, a: nat, i: nat, k: nat)
    requires PagesTaken(p, t, i, k) && k == PagesFor(size) && p.minShift <= 11 && size >= MAX_SIZE
    requires a == PageAddr(start, p.lists[FreeIndex(p)][i])
    ensures Served(p, t, start, size, a)
  {
    var q := p.lists[FreeIndex(p)];
    forall j | 0 <= j <= i
      ensures LenAt(p.kinds, q[j]) < k <==> PAGE_SIZE * LenAt(p.kinds, q[j]) < size
    {
      PagesEnough(LenAt(p.kinds, q[j]), size);
    }
    hide PagesTaken;
    assert RunServed(p, t, start, size, a, i, k);
  }

  lemma ChunkServes(p: Pool, t: Pool, start: nat, size: nat, a: nat, x: nat, c: nat)
    requires p.minShift <= 11 && size < MAX_SIZE && ChunkServed(p, t, start, ClassFrom(p.minShift, size), a, x, c)
    ensures Served(p, t, start, size, a)
  {}

  // ----- giving back

  /** t is p after the run at x has been freed: it heads the free list, whole as it was. */
  ghost predicate RunGiven(p: Pool, t: Pool, x: nat) {
    && Shape(p) && x < |p.kinds| && IsRun(p.kinds[x])
    && var f := FreeIndex(p);
    && t.kinds == p.kinds[x := Free(p.kinds[x].len)]
    && t.lists == p.lists[f := [x] + Minus(p.lists[f], x)]
    && t.mem == p.mem
  }

  /** t is p after chunk c of page x has been freed: if others are in use, a page that was full
      heads its slot list; if not, the page leaves that list and heads the free list. */
  ghost predicate ChunkGiven(p: Pool, t: Pool, x: nat, c: nat) {
    && Shape(p) && x < |p.kinds| && p.kinds[x].Chunks? && c in p.kinds[x].used && c < 512
    && var shift, rest := p.kinds[x].shift, p.kinds[x].used - {c};
    && ChunkShift(shift) && p.minShift <= shift
    && var f, l := FreeIndex(p), shift - p.minShift;
    && t.kinds == p.kinds[x := if rest == {} then Free(1) else Chunks(shift, rest)]
    && t.lists == (if rest == {} then p.lists[l := Minus(p.lists[l], x)][f := [x] + p.lists[f]]
                   else if HasRoom(shift, p.kinds[x].used) then p.lists
                   else p.lists[l := [x] + p.lists[l]])
    && x * PAGE_WORDS + PAGE_WORDS <= |p.mem| && t.mem == ClearedMem(p.mem, x, shift, c)
  }

  /** The chunk at an offset into its page. */
  function ChunkAt(offset: nat, shift: nat): nat { Quotient(offset, Pow2(shift)) }

  /** t is p after the address a has been freed. */
  ghost predicate Gave(p: Pool, t: Pool, start: nat, a: nat) {
    && a >= start
    && var x, offset := (a - start) / PAGE_SIZE, (a - start) % PAGE_SIZE;
    && x < |p.kinds|
    && if p.kinds[x].Chunks? then ChunkGiven(p, t, x, ChunkAt(offset, p.kinds[x].shift)) else RunGiven(p, t, x)
  }

  /** A run stands on no slot list, so fronting it changes the free list alone. */
  lemma RunIsGiven(p: Pool, t: Pool, x: nat)
    requires Core(p) && x < |p.kinds| && IsRun(p.kinds[x])
    requires t.kinds == p.kinds[x := Free(p.kinds[x].len)] && t.mem == p.mem
    requires t.lists == Fronted(p.lists, FreeIndex(p), x)
    ensures RunGiven(p, t, x)
  {
    var f := FreeIndex(p);
    forall m | 0 <= m < |p.lists|
      ensures t.lists[m] == p.lists[f := [x] + Minus(p.lists[f], x)][m]
    {
      if m != f {
        assert !Home(p.kinds, p.minShift, x, m);
        assert [] + p.lists[m] == p.lists[m];
      }
    }
  }

  /** A page of chunks stands on no list but that of its class. */
  lemma OnlyHome(p: Pool, x: nat, shift: nat)
    requires ChunkPage(p, x, shift) && ChunkShift(shift) && p.minShift <= shift
    ensures Shape(p) && (x in p.lists[shift - p.minShift] <==> HasRoom(shift, p.kinds[x].used))
    ensures forall m :: 0 <= m < |p.lists| && m != shift - p.minShift ==> x !in p.lists[m]
  {
    assert x in p.lists[shift - p.minShift] <==> Home(p.kinds, p.minShift, x, shift - p.minShift);
    forall m | 0 <= m < |p.lists| && m != shift - p.minShift
      ensures x !in p.lists[m]
    {
      assert !Home(p.kinds, p.minShift, x, m);
    }
  }

  lemma MinusFront(x: nat, q: seq<nat>)
    ensures Minus([x] + q, x) == q
  {
    assert Index([x] + q, x) == 0;
    MinusIs([x] + q, x);
  }

  lemma FrontedAt(lists: seq<seq<nat>>, f: nat, x: nat, m: nat)
    requires m < |lists|
    ensures Fronted(lists, f, x)[m] == if m == f then [x] + Minus(lists[m], x) else Minus(lists[m], x)
  {
    assert [] + Minus(lists[m], x) == Minus(lists[m], x);
  }

  /** Putting a page back on a list it was not on and then fronting it is fronting it. */
  lemma RelistedFronted(q: seq<seq<nat>>, lists: seq<seq<nat>>, f: nat, l: nat, x: nat)
    requires l < f < |q| && forall m :: 0 <= m < |q| && m != l ==> x !in q[m]
    requires lists == if x in q[l] then q else q[l := [x] + q[l]]
    ensures Fronted(lists, f, x) == q[l := Minus(q[l], x)][f := [x] + q[f]]
  {
    MinusFront(x, q[l]);
    hide Fronted;
    forall m | 0 <= m < |q|
      ensures Fronted(lists, f, x)[m] == q[l := Minus(q[l], x)][f := [x] + q[f]][m]
    {
      FrontedAt(lists, f, x, m);
    }
  }

  lemma ChunkIsGiven(p: Pool, t: Pool, x: nat, shift: nat, c: nat, lists: seq<seq<nat>>)
    requires ChunkPage(p, x, shift) && ChunkShift(shift) && p.minShift <= shift && Shape(p) && c in p.kinds[x].used
    requires c < 512 && x * PAGE_WORDS + PAGE_WORDS <= |p.mem| && t.mem == ClearedMem(p.mem, x, shift, c)
    requires var l := shift - p.minShift;
      lists == if HasRoom(shift, p.kinds[x].used) then p.lists else p.lists[l := [x] + p.lists[l]]
    requires var rest := p.kinds[x].used - {c};
      && t.kinds == p.kinds[x := if rest == {} then Free(1) else Chunks(shift, rest)]
      && t.lists == if rest == {} then Fronted(lists, FreeIndex(p), x) else lists
    ensures ChunkGiven(p, t, x, c)
  {
    hide Core, HasRoom, ClearedMem, Fronted;
    OnlyHome(p, x, shift);
    RelistedFronted(p.lists, lists, FreeIndex(p), shift - p.minShift, x);
  }

  // ----- what follows for a caller

  /** What was freed can be had again: a request of its size does not fail. */
  lemma GivenServes(p: Pool, t: Pool, start: nat, live: map<nat, nat>, a: nat, size: nat)
    requires Sound(p, start, live) && a in live && live[a] == BlockBytes(p.minShift, size)
    requires Gave(p, t, start, a) && Shape(p) && Shape(t) && t.minShift == p.minShift
    ensures !Exhausted(t, size)
  {
    hide Sound, RunGiven, ChunkGiven, HasRoom, BlockBytes, Pow2, Reserved, Count, ChunkAt;
    var x := (a - start) / PAGE_SIZE;
    BlockKind(p, start, live, a, x);
    BlockClass(p.minShift, p.kinds[x], size);
    if p.kinds[x].Chunks? {
      GivenChunk(p, t, x, ChunkAt((a - start) % PAGE_SIZE, p.kinds[x].shift));
    } else {
      GivenRun(p, t, x);
    }
  }

  /** The page of a live block. */
  lemma BlockKind(p: Pool, start: nat, live: map<nat, nat>, a: nat, x: nat)
    requires Sound(p, start, live) && a in live && a >= start && x == (a - start) / PAGE_SIZE
    ensures x < |p.kinds| && p.minShift <= 11 && (p.kinds[x].Busy? || p.kinds[x].Chunks?)
    ensures p.kinds[x].Busy? ==> live[a] == PAGE_SIZE * p.kinds[x].len
    ensures p.kinds[x].Chunks? ==>
      && ChunkShift(p.kinds[x].shift) && live[a] == Pow2(p.kinds[x].shift)
      && forall c :: c in p.kinds[x].used ==> Reserved(p.kinds[x].shift) <= c < Count(p.kinds[x].shift)
  {
    hide Accounted, NoneIdle;
    BlockWithin(p, start, live, a);
    if p.kinds[x].Chunks? {
      SoundChunks(p, start, live, x);
    }
  }

  /** A page of chunks holds blocks of its class alone, and a run those of whole pages. */
  lemma BlockClass(minShift: nat, kind: Kind, size: nat)
    requires minShift <= 11 && (kind.Chunks? ==> ChunkShift(kind.shift))
    requires if kind.Chunks? then Pow2(kind.shift) == BlockBytes(minShift, size)
      else kind.Busy? && PAGE_SIZE * kind.len == BlockBytes(minShift, size)
    requires ChunkShift(minShift)
    ensures if kind.Chunks? then size < MAX_SIZE && kind.shift == ClassFrom(minShift, size)
      else size >= MAX_SIZE && PAGE_SIZE * kind.len >= size
  {
    if kind.Chunks? {
      Geometry(kind.shift);
    }
    if size < MAX_SIZE {
      var shift := ClassFrom(minShift, size);
      Geometry(shift);
      if kind.Chunks? {
        SameClass(kind.shift, shift);
      }
    }
  }

  lemma GivenRun(p: Pool, t: Pool, x: nat)
    requires RunGiven(p, t, x)
    ensures x < |t.kinds| && t.kinds[x] == Free(p.kinds[x].len)
  {}

  lemma GivenChunk(p: Pool, t: Pool, x: nat, c: nat)
    requires ChunkGiven(p, t, x, c)
    requires forall d :: d in p.kinds[x].used ==> Reserved(p.kinds[x].shift) <= d < Count(p.kinds[x].shift)
    ensures x < |t.kinds| && HasChunk(t.kinds[x], p.kinds[x].shift)
  {
    hide ClearedMem, Minus;
    assert t.kinds[x].Chunks? ==> c !in t.kinds[x].used;
  }

  lemma SameClass(s: nat, shift: nat)
    requires Pow2(s) == Pow2(shift)
    ensures s == shift
  {
    if s != shift {
      Pow2Strict(if s < shift then s else shift, if s < shift then shift else s);
    }
  }

  lemma Pow2Strict(s: nat, t: nat)
    requires s < t
    ensures Pow2(s) < Pow2(t)
  {
    Pow2Monotone(s + 1, t);
  }

  /** A run that heads the free list is the first a request looks at. */
  lemma RunAgain(p: Pool, mid: Pool, t: Pool, u: Pool, start: nat, size: nat, a: nat, b: nat, i: nat, k: nat)
    requires RunServed(p, mid, start, size, a, i, k) && Shape(mid) && Gave(mid, t, start, a)
    requires size >= MAX_SIZE && t.minShift <= 11 && Served(t, u, start, size, b)
    ensures b == a
  {
    var x := p.lists[FreeIndex(p)][i];
    assert (a - start) / PAGE_SIZE == x;
    assert mid.kinds[x] == Busy(k);
    assert t.kinds[x] == Free(k) && t.lists[FreeIndex(t)][0] == x;
    assert PAGE_SIZE * LenAt(t.kinds, t.lists[FreeIndex(t)][0]) >= size;
    var j: nat, n: nat :| RunServed(t, u, start, size, b, j, n);
    assert j == 0;
  }

  /** Once the chunk a page served is freed, the page heads its slot list and is as it was. */
  lemma FrontFreed(p: Pool, mid: Pool, t: Pool, x: nat, shift: nat, c: nat)
    requires FromFront(p, mid, x, shift, c) && NoneIdle(p.kinds) && ChunkGiven(mid, t, x, c)
    ensures x < |t.kinds| && t.kinds[x] == p.kinds[x]
    ensures Shape(mid) && p.minShift <= shift && shift - p.minShift < |t.lists|
    ensures t.lists[shift - p.minShift] != [] && t.lists[shift - p.minShift][0] == x
  {
    hide MarkedMem, ClearedMem, MarkedSlab, Retired, HasRoom, Unlinked, Minus;
    assert p.kinds[x].used + {c} - {c} == p.kinds[x].used;
    assert mid.kinds[x] == Chunks(shift, p.kinds[x].used + {c});
  }

  /** A page cut for a chunk is, once that is freed, the first free page, and none has chunks. */
  lemma FreshFreed(p: Pool, mid: Pool, t: Pool, x: nat, shift: nat, c: nat)
    requires FromFresh(p, mid, x, shift, c) && Shape(mid) && mid.minShift == p.minShift && ChunkGiven(mid, t, x, c)
    ensures shift - p.minShift < FreeIndex(p) < |t.lists| && t.lists[shift - p.minShift] == []
    ensures t.lists[FreeIndex(p)] != [] && t.lists[FreeIndex(p)][0] == x
  {
    hide OnlyWords, ClearedMem, TakenKinds, TakenList, HasRoom;
    assert mid.kinds[x] == Chunks(shift, {c}) && {c} - {c} == {};
    var none: seq<nat> := [];
    assert [x] + none == [x];
    MinusFront(x, none);
  }

  /** So the same request gets the same chunk. */
  lemma ChunkAgain(p: Pool, mid: Pool, t: Pool, u: Pool, start: nat, shift: nat, a: nat, b: nat,
                   x: nat, c: nat, y: nat, d: nat)
    requires ChunkServed(p, mid, start, shift, a, x, c) && NoneIdle(p.kinds) && Shape(mid)
    requires mid.minShift == p.minShift == t.minShift
    requires ChunkGiven(mid, t, x, c) && ChunkServed(t, u, start, shift, b, y, d)
    ensures b == a
  {
    hide ChunkGiven, MarkedMem, MarkedSlab, Retired, HasRoom, Unlinked, OnlyWords, TakenKinds, TakenList, NoneIdle;
    if FromFront(p, mid, x, shift, c) {
      FrontFreed(p, mid, t, x, shift, c);
    } else {
      FreshFreed(p, mid, t, x, shift, c);
    }
  }

  lemma ServedChunk(p: Pool, t: Pool, start: nat, shift: nat, a: nat, x: nat, c: nat)
    requires ChunkServed(p, t, start, shift, a, x, c) && ChunkShift(shift)
    ensures x < |t.kinds| && t.kinds[x].Chunks? && t.kinds[x].shift == shift
    ensures a >= start && (a - start) / PAGE_SIZE == x && ChunkAt((a - start) % PAGE_SIZE, shift) == c
  {
    hide MarkedMem, MarkedSlab, Retired, HasRoom, Unlinked, OnlyWords, ChunkAddr;
    FirstChunkLeavesRoom(shift);
    DecodeChunk(start, x, shift, c, a);
  }

  /** The address just freed is the next a request of the same size gets. */
  lemma FreedIsNext(p: Pool, mid: Pool, t: Pool, u: Pool, start: nat, size: nat, a: nat, b: nat)
    requires Core(p) && NoneIdle(p.kinds) && Shape(mid) && mid.minShift == p.minShift == t.minShift
    requires Served(p, mid, start, size, a) && Gave(mid, t, start, a) && Served(t, u, start, size, b)
    ensures b == a
  {
    hide Core, NoneIdle, RunServed, ChunkServed, ChunkGiven, RunGiven;
    CoreShape(p);
    if size >= MAX_SIZE {
      var i: nat, k: nat :| RunServed(p, mid, start, size, a, i, k);
      RunAgain(p, mid, t, u, start, size, a, b, i, k);
    } else {
      var shift := ClassFrom(p.minShift, size);
      var x: nat, c: nat :| ChunkServed(p, mid, start, shift, a, x, c);
      var y: nat, d: nat :| ChunkServed(t, u, start, shift, b, y, d);
      ServedChunk(p, mid, start, shift, a, x, c);
      ChunkAgain(p, mid, t, u, start, shift, a, b, x, c, y, d);
    }
  }

  // ----- the contents of live blocks

  /** Word w of the page area is in a live block. */
  ghost predicate InBlock(start: nat, live: map<nat, nat>, w: nat) {
    exists a :: a in live && a <= start + 8 * w && start + 8 * w + 8 <= a + live[a]
  }

  /** No word of a live block has changed. */
  ghost predicate Untouched(before: seq<Word>, after: seq<Word>, start: nat, live: map<nat, nat>) {
    |after| == |before| && forall w :: 0 <= w < |before| && InBlock(start, live, w) ==> after[w] == before[w]
  }

  /** A change of the bitmap word of a chunk touches no block. */
  lemma BitmapOnly(p: Pool, mem: seq<Word>, start: nat, live: map<nat, nat>, x: nat, shift: nat, c: nat)
    requires Sound(p, start, live) && x < |p.kinds| && p.kinds[x].Chunks? && p.kinds[x].shift == shift
    requires ChunkShift(shift) && c < Count(shift) <= 512 && x * PAGE_WORDS + PAGE_WORDS <= |p.mem|
    requires if shift >= EXACT_SHIFT then mem == p.mem
      else |mem| == |p.mem| && mem == p.mem[x * PAGE_WORDS + c / 64 := mem[x * PAGE_WORDS + c / 64]]
    ensures Untouched(p.mem, mem, start, live)
  {
    if shift < EXACT_SHIFT {
      MapWordsExact(shift);
      var w := x * PAGE_WORDS + c / 64;
      forall a | a in live
        ensures !(a <= start + 8 * w && start + 8 * w + 8 <= a + live[a])
      {
        LiveBlocksMissBitmaps(p, start, live, a, x, c / 64);
      }
      assert !InBlock(start, live, w);
    }
  }

  /** No block is in a free page. */
  lemma FreePageApart(p: Pool, start: nat, live: map<nat, nat>, a: nat, x: nat)
    requires Sound(p, start, live) && a in live && x < |p.kinds| && p.kinds[x].Free?
    ensures a + live[a] <= PageAddr(start, x) || PageAddr(start, x + 1) <= a
  {
    BlockWithin(p, start, live, a);
    var y := (a - start) / PAGE_SIZE;
    assert p.kinds[y].Busy? ==> RunAt(p.kinds, y, p.kinds[y].len);
    hide Sound;
  }

  lemma FreePageOnly(p: Pool, mem: seq<Word>, start: nat, live: map<nat, nat>, x: nat)
    requires Sound(p, start, live) && x < |p.kinds| && p.kinds[x].Free? && OnlyWords(p.mem, mem, x)
    ensures Untouched(p.mem, mem, start, live)
  {
    hide Sound;
    forall w | 0 <= w < |p.mem| && InBlock(start, live, w)
      ensures mem[w] == p.mem[w]
    {
      var a :| a in live && a <= start + 8 * w && start + 8 * w + 8 <= a + live[a];
      FreePageApart(p, start, live, a, x);
    }
  }

  /** A request leaves every live block's words alone. */
  lemma ServedUntouched(p: Pool, t: Pool, start: nat, live: map<nat, nat>, size: nat, a: nat)
    requires Sound(p, start, live) && p.minShift <= 11 && Served(p, t, start, size, a)
    ensures Untouched(p.mem, t.mem, start, live)
  {
    hide Sound, Core, RunServed, ChunkServed;
    if size >= MAX_SIZE {
      var i: nat, k: nat :| RunServed(p, t, start, size, a, i, k);
      RunUntouched(p, t, start, size, a, i, k);
    } else {
      var shift := ClassFrom(p.minShift, size);
      var x: nat, c: nat :| ChunkServed(p, t, start, shift, a, x, c);
      ChunkUntouched(p, t, start, live, shift, a, x, c);
    }
  }

  lemma RunUntouched(p: Pool, t: Pool, start: nat, size: nat, a: nat, i: nat, k: nat)
    requires RunServed(p, t, start, size, a, i, k)
    ensures t.mem == p.mem
  {}

  lemma ChunkUntouched(p: Pool, t: Pool, start: nat, live: map<nat, nat>, shift: nat, a: nat, x: nat, c: nat)
    requires Sound(p, start, live) && ChunkServed(p, t, start, shift, a, x, c)
    ensures Untouched(p.mem, t.mem, start, live)
  {
    hide Sound, HasRoom, Retired, MarkedSlab, Unlinked, TakenKinds, Untouched;
    if FromFront(p, t, x, shift, c) {
      BitmapOnly(p, t.mem, start, live, x, shift, c);
    } else {
      FreePageOnly(p, t.mem, start, live, x);
    }
  }

  /** Freeing leaves all words of all blocks alone, those of the freed one included. */
  lemma GaveUntouched(p: Pool, t: Pool, start: nat, live: map<nat, nat>, a: nat)
    requires Sound(p, start, live) && Gave(p, t, start, a)
    ensures Untouched(p.mem, t.mem, start, live)
  {
    var x := (a - start) / PAGE_SIZE;
    if p.kinds[x].Chunks? {
      var shift := p.kinds[x].shift;
      var c := ChunkAt((a - start) % PAGE_SIZE, shift);
      SoundChunks(p, start, live, x);
      ChunkIndexBounds(shift, c);
      hide Sound, HasRoom, Untouched;
      BitmapOnly(p, t.mem, start, live, x, shift, c);
    }
  }

  lemma BitmapUntouched(p: Pool, t: Pool, start: nat, live: map<nat, nat>, a: nat)
    requires Sound(p, start, live) && BitmapFreed(p, t, start, a)
    ensures Untouched(p.mem, t.mem, start, live)
  {
    hide Sound, HasRoom, Untouched, ReturnedPages;
    var x := (a - start) / PAGE_SIZE;
    var shift := p.kinds[x].shift;
    BitmapOnly(p, t.mem, start, live, x, shift, (a - start) % PAGE_SIZE / Pow2(shift));
  }

  lemma UntouchedTwice(before: seq<Word>, mid: seq<Word>, after: seq<Word>, start: nat, live: map<nat, nat>,
                       held: map<nat, nat>)
    requires Untouched(before, mid, start, live) && Untouched(mid, after, start, held)
    requires forall a :: a in live ==> a in held && held[a] == live[a]
    ensures Untouched(before, after, start, live)
  {
    forall w | 0 <= w < |before| && InBlock(start, live, w)
      ensures InBlock(start, held, w)
    {}
  }

  lemma OutsideNotBitmap(p: Pool, start: nat, end: nat, a: nat)
    requires PageAddr(start, |p.kinds|) <= end && (a < start || a > end)
    ensures !OnBitmap(p, start, a)
  {}
}
