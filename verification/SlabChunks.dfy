/** Handing out and taking back one chunk as steps of the whole pool. */
module SlabChunks {
  import opened Sequences
  import opened Words
  import opened SlabModel
  import opened SlabInvariant
  import opened SlabSteps
  import opened SlabLive

  /** Page x is carved into chunks and chunk c is not one of the reserved ones. */
  ghost predicate ChunkOf(p: Pool, x: nat, c: nat) {
    && Shape(p)
    && x < |p.kinds| && p.kinds[x].Chunks?
    && ChunkShift(p.kinds[x].shift) && p.minShift <= p.kinds[x].shift
    && Reserved(p.kinds[x].shift) <= c < Count(p.kinds[x].shift)
    && x * PAGE_WORDS + PAGE_WORDS <= |p.mem|
  }

  function SlotOf(p: Pool, x: nat): nat
    requires x < |p.kinds| && p.kinds[x].Chunks? && p.minShift <= p.kinds[x].shift
  {
    p.kinds[x].shift - p.minShift
  }

  /** Page x, no longer having room, leaves the front of its slot list: `next` becomes NULL
      and `prev` just the type tag. */
  function Retired(pages: seq<Page>, x: nat, shift: nat): (r: seq<Page>)
    requires x < |pages|
    requires ValidRef(pages, Untag(pages[x].prev)) && ValidRef(pages, pages[x].next)
  {
    Unlinked(pages, x)[x := Unlinked(pages, x)[x].(next := NULL, prev := TypeTag(shift))]
  }

  /** t is p after chunk c of page x, at the front of its slot list, has been handed out. */
  ghost predicate ChunkTaken(p: Pool, t: Pool, x: nat, c: nat)
    requires ChunkOf(p, x, c) && Count(p.kinds[x].shift) <= 512
  {
    var shift, used, l := p.kinds[x].shift, p.kinds[x].used, SlotOf(p, x);
    ChunkIndexBounds(shift, c);
    && p.lists[l] != [] && p.lists[l][0] == x && c !in used
    && t.minShift == p.minShift
    && t.kinds == p.kinds[x := Chunks(shift, used + {c})]
    && t.mem == MarkedMem(p.mem, x, shift, c)
    && var marked := p.pages[x := p.pages[x].(slab := MarkedSlab(p.pages[x].slab, shift, c))];
    && if HasRoom(shift, used + {c}) then
         t.pages == marked && t.lists == p.lists
       else
         && ValidRef(marked, Untag(marked[x].prev)) && ValidRef(marked, marked[x].next)
         && t.pages == Retired(marked, x, shift)
         && t.lists == p.lists[l := p.lists[l][1..]]
  }

  lemma FrontRemoved(q: seq<nat>)
    requires q != [] && NoDup(q)
    ensures q[1..] == Without(q, 0) && NoDup(q[1..])
    ensures forall y: nat :: y in q[1..] <==> y in q && y != q[0]
  {
    forall y: nat
      ensures y in q[1..] <==> y in q && y != q[0]
    {
      WithoutMembers(q, 0, y);
    }
  }

  lemma MarkedRing(p: Pool, x: nat, slab: Word, l: nat)
    requires Core(p) && x < |p.kinds| && l < |p.lists|
    ensures Ring(p.pages[x := p.pages[x].(slab := slab)], Sentinel(p, l), p.lists[l], ListTag(p.minShift, l))
  {
    RingFrame(p.pages, p.pages[x := p.pages[x].(slab := slab)], Sentinel(p, l), p.lists[l], ListTag(p.minShift, l));
  }

  lemma TakenDesc(p: Pool, x: nat, c: nat, slab': Word, mem': seq<Word>, on: bool)
    requires Core(p) && ChunkOf(p, x, c)
    requires |mem'| == |p.mem|
    requires BitMoved(p.pages[x].slab, p.mem, slab', mem', x, p.kinds[x].shift, c, on)
    ensures var used := p.kinds[x].used;
      Mapped(slab', mem', x, p.kinds[x].shift, if on then used + {c} else used - {c})
  {
    assert DescAt(p.pages[x], p.mem, p.kinds, x);
    MovedMap(p.pages[x].slab, p.mem, slab', mem', x, p.kinds[x].shift, p.kinds[x].used, c, on);
  }

  lemma TakeChunkRekinds(p: Pool, t: Pool, x: nat, c: nat)
    requires Core(p) && ChunkOf(p, x, c) && Count(p.kinds[x].shift) <= 512 && ChunkTaken(p, t, x, c)
    ensures Shape(t) && Rekinded(p, t, x)
  {
    var shift := p.kinds[x].shift;
    ChunkIndexBounds(shift, c);
    Marking(p.pages[x].slab, p.mem, x, shift, c);
    TakenDesc(p, x, c, MarkedSlab(p.pages[x].slab, shift, c), t.mem, true);
  }

  lemma TakeLastRelists(p: Pool, t: Pool, x: nat, c: nat)
    requires Core(p) && ChunkOf(p, x, c) && Count(p.kinds[x].shift) <= 512 && ChunkTaken(p, t, x, c)
    requires !HasRoom(p.kinds[x].shift, p.kinds[x].used + {c})
    ensures Shape(t) && Relisted(p, t, x)
  {
    hide Core, HasRoom, MarkedSlab, MarkedMem, Ring, Retired, NoDup;
    ChunkIndexBounds(p.kinds[x].shift, c);
    var marked := p.pages[x := p.pages[x].(slab := MarkedSlab(p.pages[x].slab, p.kinds[x].shift, c))];
    assert p.lists[SlotOf(p, x)][0] in p.lists[SlotOf(p, x)];
    RetireFirst(p, marked, x, SlotOf(p, x));
  }

  lemma TakeChunkRelists(p: Pool, t: Pool, x: nat, c: nat)
    requires Core(p) && ChunkOf(p, x, c) && Count(p.kinds[x].shift) <= 512 && ChunkTaken(p, t, x, c)
    ensures Shape(t) && Relisted(p, t, x)
  {
    var l := SlotOf(p, x);
    if HasRoom(p.kinds[x].shift, p.kinds[x].used + {c}) {
      assert p.lists[l][0] in p.lists[l];
      ListsApart(p.kinds, p.lists, p.minShift, l);
      MarkedRing(p, x, t.pages[x].slab, l);
      hide Tiled, ChunkedOK, Described, Linked, Listed, MarkedSlab, MarkedMem;
    } else {
      hide *;
      TakeLastRelists(p, t, x, c);
    }
  }

  lemma FrontFacts(p: Pool, x: nat, l: nat)
    requires Core(p) && x < |p.kinds| && p.kinds[x].Chunks? && p.minShift <= p.kinds[x].shift <= 11 && l == SlotOf(p, x)
    requires p.lists[l] != [] && p.lists[l][0] == x
    ensures l < |p.lists| && |p.kinds| <= Sentinel(p, l) < |p.pages| && NoDup(p.lists[l])
    ensures Apart(Sentinel(p, l), p.lists[l])
    ensures ListTag(p.minShift, l) == TypeTag(p.kinds[x].shift) < 4
    ensures forall y :: y in p.lists[l] ==> y < |p.kinds|
  {
    ListsApart(p.kinds, p.lists, p.minShift, l);
  }

  lemma RetireFirst(p: Pool, marked: seq<Page>, x: nat, l: nat)
    requires Core(p) && x < |p.kinds| && p.kinds[x].Chunks? && p.minShift <= p.kinds[x].shift <= 11 && l == SlotOf(p, x)
    requires p.lists[l] != [] && p.lists[l][0] == x
    requires |marked| == |p.pages| && marked == p.pages[x := p.pages[x].(slab := marked[x].slab)]
    ensures ValidRef(marked, Untag(marked[x].prev)) && ValidRef(marked, marked[x].next)
    ensures Ring(Retired(marked, x, p.kinds[x].shift), Sentinel(p, l), p.lists[l][1..], TypeTag(p.kinds[x].shift))
    ensures NoDup(p.lists[l][1..])
    ensures forall y: nat :: y in p.lists[l][1..] <==> y in p.lists[l] && y != x
    ensures OnlyLinks(marked, Retired(marked, x, p.kinds[x].shift), Sentinel(p, l), p.lists[l])
  {
    hide Core, Unlinked, Ring, NoDup, Apart, Tiled, ChunkedOK, Described, Linked, Listed;
    FrontFacts(p, x, l);
    var q, s, shift := p.lists[l], Sentinel(p, l), p.kinds[x].shift;
    MarkedRing(p, x, marked[x].slab, l);
    FrontRemoved(q);
    UnlinkRing(marked, s, q, TypeTag(shift), 0);
    RetiredRing(marked, Retired(marked, x, shift), s, q, x, shift);
  }

  lemma RetiredRing(marked: seq<Page>, pages: seq<Page>, s: nat, q: seq<nat>, x: nat, shift: nat)
    requires x < |marked| && q != [] && q[0] == x && Apart(s, q)
    requires ValidRef(marked, Untag(marked[x].prev)) && ValidRef(marked, marked[x].next)
    requires Ring(Unlinked(marked, x), s, Without(q, 0), TypeTag(shift))
    requires pages == Retired(marked, x, shift)
    ensures Ring(pages, s, q[1..], TypeTag(shift))
  {
    FrontRemoved(q);
    var r := q[1..];
    forall i {:trigger pages[r[i]]} | 0 <= i < |r|
      ensures pages[r[i]] == Unlinked(marked, x)[r[i]]
    {
      assert r[i] in r;
    }
    RingFrame(Unlinked(marked, x), pages, s, r, TypeTag(shift));
  }

  /** Handing out a chunk keeps the invariant: a page that becomes full leaves its list. */
  lemma TakeChunkKeepsCore(p: Pool, t: Pool, x: nat, c: nat)
    requires Core(p) && ChunkOf(p, x, c) && Count(p.kinds[x].shift) <= 512 && ChunkTaken(p, t, x, c)
    ensures Core(t)
  {
    TakeChunkRekinds(p, t, x, c);
    TakeChunkRelists(p, t, x, c);
    RechunkKeepsCore(p, t, x);
  }

  /** t is p after chunk c of page x has been taken back; a full page rejoins its list. */
  ghost predicate ChunkReturned(p: Pool, t: Pool, x: nat, c: nat)
    requires ChunkOf(p, x, c) && Count(p.kinds[x].shift) <= 512
  {
    var shift, used, l := p.kinds[x].shift, p.kinds[x].used, SlotOf(p, x);
    ChunkIndexBounds(shift, c);
    && c in used
    && t.minShift == p.minShift
    && t.kinds == p.kinds[x := Chunks(shift, used - {c})]
    && t.mem == ClearedMem(p.mem, x, shift, c)
    && var slab := ClearedSlab(p.pages[x].slab, shift, c);
    && if HasRoom(shift, used) then
         t.pages == p.pages[x := p.pages[x].(slab := slab)] && t.lists == p.lists
       else
         && ValidRef(p.pages, p.pages[Sentinel(p, l)].next)
         && var pushed := Pushed(p.pages, Sentinel(p, l), x, TypeTag(shift));
         && t.pages == pushed[x := pushed[x].(slab := slab)]
         && t.lists == p.lists[l := [x] + p.lists[l]]
  }

  lemma ReturnChunkRekinds(p: Pool, t: Pool, x: nat, c: nat)
    requires Core(p) && ChunkOf(p, x, c) && Count(p.kinds[x].shift) <= 512 && ChunkReturned(p, t, x, c)
    ensures Shape(t) && Rekinded(p, t, x)
  {
    var shift, used := p.kinds[x].shift, p.kinds[x].used;
    ChunkIndexBounds(shift, c);
    Clearing(p.pages[x].slab, p.mem, x, shift, c);
    TakenDesc(p, x, c, ClearedSlab(p.pages[x].slab, shift, c), t.mem, false);
    assert HasRoom(shift, used - {c});
  }

  lemma RejoinList(p: Pool, t: seq<Page>, x: nat, l: nat, slab: Word)
    requires Core(p) && x < |p.kinds| && p.kinds[x].Chunks? && p.minShift <= p.kinds[x].shift <= 11 && l == SlotOf(p, x)
    requires x !in p.lists[l]
    requires ValidRef(p.pages, p.pages[Sentinel(p, l)].next)
    requires var pushed := Pushed(p.pages, Sentinel(p, l), x, TypeTag(p.kinds[x].shift));
      t == pushed[x := pushed[x].(slab := slab)]
    ensures Ring(t, Sentinel(p, l), [x] + p.lists[l], TypeTag(p.kinds[x].shift))
    ensures NoDup([x] + p.lists[l])
    ensures OnlyLinks(p.pages[x := p.pages[x].(slab := slab)], t, Sentinel(p, l), [x] + p.lists[l])
  {
    var tag := TypeTag(p.kinds[x].shift);
    var q, s := p.lists[l], Sentinel(p, l);
    ListsApart(p.kinds, p.lists, p.minShift, l);
    assert Ring(p.pages, s, q, ListTag(p.minShift, l));
    assert tag == ListTag(p.minShift, l);
    hide *;
    PushRing(p.pages, s, q, tag, x);
    SlabIgnored(Pushed(p.pages, s, x, tag), p.pages, t, s, [x] + q, tag, x, slab);
  }

  lemma SlabIgnored(pages: seq<Page>, base: seq<Page>, t: seq<Page>, s: nat, q: seq<nat>, tag: nat, x: nat, slab: Word)
    requires Ring(pages, s, q, tag) && OnlyLinks(base, pages, s, q) && x < |base|
    requires t == pages[x := pages[x].(slab := slab)]
    ensures Ring(t, s, q, tag) && OnlyLinks(base[x := base[x].(slab := slab)], t, s, q)
  {
    RingFrame(pages, t, s, q, tag);
  }

  lemma FullIsUnlisted(p: Pool, x: nat, c: nat)
    requires Core(p) && ChunkOf(p, x, c) && !HasRoom(p.kinds[x].shift, p.kinds[x].used)
    ensures SlotOf(p, x) < |p.lists| && x !in p.lists[SlotOf(p, x)]
    ensures HasRoom(p.kinds[x].shift, p.kinds[x].used - {c})
  {
    assert x in p.lists[SlotOf(p, x)] <==> Home(p.kinds, p.minShift, x, SlotOf(p, x));
  }

  lemma ReturnFirstRelists(p: Pool, t: Pool, x: nat, c: nat)
    requires Core(p) && ChunkOf(p, x, c) && Count(p.kinds[x].shift) <= 512 && ChunkReturned(p, t, x, c)
    requires !HasRoom(p.kinds[x].shift, p.kinds[x].used)
    ensures Shape(t) && Relisted(p, t, x)
  {
    hide Core, HasRoom, ClearedSlab, ClearedMem, Pushed, Ring, NoDup;
    var l := SlotOf(p, x);
    ChunkIndexBounds(p.kinds[x].shift, c);
    FullIsUnlisted(p, x, c);
    RejoinList(p, t.pages, x, l, ClearedSlab(p.pages[x].slab, p.kinds[x].shift, c));
  }

  lemma ReturnOtherFacts(p: Pool, t: Pool, x: nat, c: nat)
    requires Core(p) && ChunkOf(p, x, c) && Count(p.kinds[x].shift) <= 512 && ChunkReturned(p, t, x, c)
    requires HasRoom(p.kinds[x].shift, p.kinds[x].used)
    ensures SlotOf(p, x) < |p.lists|
    ensures x in p.lists[SlotOf(p, x)] && NoDup(p.lists[SlotOf(p, x)])
    ensures HasRoom(p.kinds[x].shift, p.kinds[x].used - {c})
    ensures Ring(t.pages, Sentinel(p, SlotOf(p, x)), p.lists[SlotOf(p, x)], TypeTag(p.kinds[x].shift))
  {
    var l := SlotOf(p, x);
    assert x in p.lists[l] <==> Home(p.kinds, p.minShift, x, l);
    MarkedRing(p, x, t.pages[x].slab, l);
  }

  lemma ReturnOtherRelists(p: Pool, t: Pool, x: nat, c: nat)
    requires Core(p) && ChunkOf(p, x, c) && Count(p.kinds[x].shift) <= 512 && ChunkReturned(p, t, x, c)
    requires HasRoom(p.kinds[x].shift, p.kinds[x].used)
    ensures Shape(t) && Relisted(p, t, x)
  {
    hide Tiled, ChunkedOK, Described, Linked, Listed, ClearedSlab, ClearedMem, Ring, HasRoom, NoDup, Core;
    ReturnOtherFacts(p, t, x, c);
  }

  lemma ReturnChunkRelists(p: Pool, t: Pool, x: nat, c: nat)
    requires Core(p) && ChunkOf(p, x, c) && Count(p.kinds[x].shift) <= 512 && ChunkReturned(p, t, x, c)
    ensures Shape(t) && Relisted(p, t, x)
  {
    var room := HasRoom(p.kinds[x].shift, p.kinds[x].used);
    hide *;
    if room {
      ReturnOtherRelists(p, t, x, c);
    } else {
      ReturnFirstRelists(p, t, x, c);
    }
  }

  lemma ReturnChunkKeepsCore(p: Pool, t: Pool, x: nat, c: nat)
    requires Core(p) && ChunkOf(p, x, c) && Count(p.kinds[x].shift) <= 512 && ChunkReturned(p, t, x, c)
    ensures Core(t)
  {
    ReturnChunkRekinds(p, t, x, c);
    ReturnChunkRelists(p, t, x, c);
    RechunkKeepsCore(p, t, x);
  }
}
