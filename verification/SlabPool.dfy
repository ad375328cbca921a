/** The slab allocator: rp_slab.c over a descriptor array and the words of its page area. */
module SlabAllocator {
  import Arith
  import opened Words
  import opened SlabModel
  import opened SlabInvariant
  import opened SlabSteps
  import opened SlabLive
  import opened SlabBits
  import opened SlabChunks
  import opened SlabFacts
  import opened SlabBitmap
  import opened SlabMoves
  import opened SlabLayout

  /** s is n without its low digits, unit being half their weight. */
  ghost predicate Bracket(s: nat, unit: nat, n: nat) {
    s * (2 * unit) <= n < (s + 1) * (2 * unit)
  }

  lemma HalveBracket(s: nat, unit: nat, n: nat)
    requires Bracket(s, unit, n)
    ensures Bracket(s / 2, 2 * unit, n)
    ensures s == 1 ==> 2 * unit <= n
  {
    var h, u := s / 2, 2 * unit;
    assert h * (2 * u) == (2 * h) * u && (h + 1) * (2 * u) == (2 * h + 2) * u;
    Arith.MulMonotone(2 * h, s, u);
    Arith.MulMonotone(s + 1, 2 * h + 2, u);
  }

  class SlabPool {
    const minShift: nat
    const start: nat
    const end: nat
    const npages: nat
    const pages: array<Page>   // page descriptors, then the slot sentinels, then `free`
    const mem: array<Word>     // the page area, eight bytes a word

    ghost var kinds: seq<Kind>
    ghost var lists: seq<seq<nat>>
    ghost var live: map<nat, nat>

    ghost function View(): Pool
      reads this, pages, mem
    {
      Pool(minShift, pages[..], mem[..], kinds, lists)
    }

    ghost predicate Formed()
      reads this, pages, mem
    {
      pages != mem as object && |kinds| == npages && start + PAGE_SIZE * npages <= end && Core(View())
    }

    ghost predicate Valid()
      reads this, pages, mem
    {
      Formed() && Sound(View(), start, live)
    }

    /** rp_slab_init on the region from base to end. */
    constructor (base: nat, end: nat, minShift: nat)
      requires PoolRegion(base, end, minShift)
      requires StartAt(base, end, minShift) <= end && PageCount(base, end, minShift) >= 1
      ensures Valid() && live == map[]
      ensures this.minShift == minShift && this.end == end
      ensures start == StartAt(base, end, minShift) && npages == PageCount(base, end, minShift)
      ensures kinds == FreshKinds(npages) && lists == FreshLists(minShift)
    {
      LayoutExact(base, end, minShift);
      var n := PageCount(base, end, minShift);
      this.minShift, this.end, npages := minShift, end, n;
      start := StartAt(base, end, minShift);
      pages := new Page[n + Slots(minShift) + 1];
      mem := new Word[n * PAGE_WORDS];
      kinds, lists, live := FreshKinds(n), FreshLists(minShift), map[];
      new;
      InitDescs();
      FreshIsSound(View(), start);
    }

    /** The stores of rp_slab_init. */
    method InitDescs()
      requires 1 <= npages <= MAX_PAGES && ChunkShift(minShift) && pages.Length == npages + Slots(minShift) + 1
      modifies pages
      ensures pages[..] == FreshPages(npages, minShift)
    {
      var free := npages + Slots(minShift);
      for j := npages to free
        invariant forall l :: npages <= l < j ==> pages[l] == Page(0, Ref(l), NULL)
      {
        pages[j] := Page(0, Ref(j), NULL);
      }
      for j := 0 to npages
        invariant forall l :: npages <= l < free ==> pages[l] == Page(0, Ref(l), NULL)
        invariant forall l :: 0 <= l < j ==> pages[l] == Page(0, NULL, TAG_PAGE)
      {
        pages[j] := Page(0, NULL, TAG_PAGE);
      }
      pages[free] := Page(0, Ref(0), NULL);
      pages[0] := Page(npages, Ref(free), Ref(free));
    }

    /** r->next = v */
    method StoreNext(r: nat, v: nat)
      requires ValidRef(pages[..], r)
      modifies pages
      ensures pages[..] == SetNext(old(pages[..]), r, v)
    {
      pages[Deref(r)] := pages[Deref(r)].(next := v);
    }

    /** r->prev = v */
    method StorePrev(r: nat, v: nat)
      requires ValidRef(pages[..], r)
      modifies pages
      ensures pages[..] == SetPrev(old(pages[..]), r, v)
    {
      pages[Deref(r)] := pages[Deref(r)].(prev := v);
    }

    ghost function FreeListIndex(): nat
      requires minShift <= 12
    {
      Slots(minShift)
    }

    /** rp_slab_alloc_pages: the first free run with k pages, split if it is longer. */
    method AllocPages(k: nat) returns (r: nat, ghost i: nat)
      requires Formed() && k >= 1
      modifies this`kinds, this`lists, pages
      ensures Formed()
      ensures r == NULL ==> NoFit(View(), k) && View() == old(View())
      ensures r != NULL ==> PagesTaken(old(View()), View(), i, k) && r == Ref(old(lists)[FreeListIndex()][i])
    {
      ghost var f := FreeListIndex();
      ghost var q := lists[f];
      var free := pages.Length - 1;
      assert free == Sentinel(View(), f);
      ListsApart(kinds, lists, minShift, f);
      i := 0;
      var page := pages[free].next;
      while page != Ref(free)
        invariant View() == old(View())
        invariant 0 <= i <= |q| && page == Ref(At(free, q, i))
        invariant forall j :: 0 <= j < i ==> LenAt(kinds, q[j]) < k
        decreases |q| - i
      {
        var x := Deref(page);
        assert x == q[i] && x in q;
        FreeRun(View(), x);
        if pages[x].slab >= k {
          CarveRun(x, k, i);
          return page, i;
        }
        page := pages[x].next;
        i := i + 1;
      }
      forall x | x in q
        ensures LenAt(kinds, x) < k
      {
        var j :| 0 <= j < |q| && q[j] == x;
      }
      r := NULL;
    }

    /** Take k pages from the head of the free run at x and mark them busy. */
    method CarveRun(x: nat, k: nat, ghost i: nat)
      requires Formed() && Fits(View(), i, k) && x == lists[FreeListIndex()][i]
      modifies this`kinds, this`lists, pages
      ensures Formed()
      ensures kinds == TakenKinds(old(kinds), x, k)
      ensures lists == old(lists)[FreeListIndex() :=
        TakenList(old(lists)[FreeListIndex()], i, k, old(kinds)[x].len)]
    {
      ghost var p := View();
      DetachRun(x, k, i);
      hide Core, CutOut, Detached, Stamped;
      ghost var linked := pages[..];
      Stamp(x, k);
      ghost var t := Taken(p, linked, i, k);
      TakeKeepsCore(p, linked, i, k);
      kinds, lists := t.kinds, t.lists;
      assert View() == t;
    }

    /** Split the free run at x, or unlink it if it has just k pages. */
    method DetachRun(x: nat, k: nat, ghost i: nat)
      requires Formed() && Fits(View(), i, k) && x == lists[FreeListIndex()][i]
      modifies pages
      ensures Detached(old(View()), pages[..], i, k)
    {
      ghost var p := View();
      FreeRun(p, x) by { assert x in lists[FreeListIndex()]; }
      UnlinkRefs(p, i, x);
      if k < kinds[x].len {
        SplitDetaches(p, i, x, k);
      }
      hide Core, Fits, CutOut, Detached, Replaced, Unlinked;
      if pages[x].slab > k {
        SplitRun(x, k);
      } else {
        Unlink(x);
      }
    }

    /** Mark the k pages from x on as one allocated run. */
    method Stamp(x: nat, k: nat)
      requires 1 <= k <= MAX_PAGES && x + k <= pages.Length
      modifies pages
      ensures pages[..] == Stamped(old(pages[..]), x, k)
    {
      ghost var before := pages[..];
      pages[x] := Page(StartWord(k), NULL, TAG_PAGE);
      var rest, y := k - 1, x + 1;
      while rest > 0
        invariant y + rest == x + k && x < y
        invariant forall j :: 0 <= j < |before| ==>
          pages[j] == (if j == x then Page(StartWord(k), NULL, TAG_PAGE)
              else if x < j < y then Page(ALL_ONES, NULL, TAG_PAGE) else before[j])
      {
        pages[y] := Page(ALL_ONES, NULL, TAG_PAGE);
        y, rest := y + 1, rest - 1;
      }
    }

    /** Put what is left of the run at x after k pages in its place on the free list. */
    method SplitRun(x: nat, k: nat)
      requires x + k < pages.Length && 1 <= k < pages[x].slab <= MAX_PAGES
      requires ValidRef(pages[..], pages[x].prev) && ValidRef(pages[..], pages[x].next) && pages[x].prev != Ref(x)
      modifies pages
      ensures pages[..] == Replaced(Cut(old(pages[..]), x, k, old(pages[x].slab)), x, x + k)
    {
      pages[x + k] := pages[x + k].(slab := pages[x].slab - k);
      assert pages[..] == Cut(old(pages[..]), x, k, old(pages[x].slab));
      PutInPlace(x, x + k);
    }

    /** page y takes over the links of page x, and x's neighbours point at y. */
    method PutInPlace(x: nat, y: nat)
      requires x < pages.Length && y < pages.Length
      requires ValidRef(pages[..], pages[x].prev) && ValidRef(pages[..], pages[x].next)
      requires pages[x].prev != Ref(x) && y != x
      modifies pages
      ensures pages[..] == Replaced(old(pages[..]), x, y)
    {
      StoreNext(Ref(y), pages[x].next);
      StorePrev(Ref(y), pages[x].prev);
      StoreNext(pages[x].prev, Ref(y));
      StorePrev(pages[x].next, Ref(y));
    }

    /** prev->next = page->next; page->next->prev = page->prev */
    method Unlink(x: nat)
      requires x < pages.Length && ValidRef(pages[..], Untag(pages[x].prev)) && ValidRef(pages[..], pages[x].next)
      requires Untag(pages[x].prev) != Ref(x)
      modifies pages
      ensures pages[..] == Unlinked(old(pages[..]), x)
    {
      var prev := pages[x].prev;
      StoreNext(Untag(prev), pages[x].next);
      StorePrev(pages[x].next, prev);
    }

    /** rp_slab_free_pages: the run at x goes to the front of the free list, from whatever
        list its head was on. Runs are not merged. */
    method FreePages(x: nat, k: nat)
      requires Formed() && Heads(kinds, x, k)
      requires kinds[x].Chunks? ==> kinds[x].shift <= 12 && HasRoom(kinds[x].shift, kinds[x].used)
      modifies this`kinds, this`lists, pages
      ensures Formed()
      ensures kinds == old(kinds)[x := Free(k)]
      ensures lists == Fronted(old(lists), FreeListIndex(), x)
    {
      ghost var p := View();
      HeadBounds(p, x, k);
      ghost var f := FreeListIndex();
      GiveRefs(p, x, k);
      hide Core, Released, Heads, HasRoom, Fronted;
      Release(x, k);
      kinds, lists := kinds[x := Free(k)], Fronted(lists, f, x);
      assert View() == p.(pages := pages[..], kinds := kinds, lists := lists);
    }

    /** The stores of rp_slab_free_pages. */
    method Release(x: nat, k: nat)
      requires 1 <= k <= MAX_PAGES && x + k < pages.Length && Releasable(pages[..], x, k)
      modifies pages
      ensures pages[..] == Released(old(pages[..]), x, k)
    {
      Zero(x, k);
      if pages[x].next != NULL {
        Unlink(x);
      }
      PushFree(x);
    }

    /** page->slab = k; memset(&page[1], 0, ...) */
    method Zero(x: nat, k: nat)
      requires 1 <= k <= MAX_PAGES && x + k <= pages.Length
      modifies pages
      ensures pages[..] == Zeroed(old(pages[..]), x, k)
    {
      ghost var before := pages[..];
      pages[x] := pages[x].(slab := k);
      for y := x + 1 to x + k
        invariant forall j :: 0 <= j < |before| ==>
          pages[j] == (if j == x then before[x].(slab := k) else if x < j < y then Page(0, NULL, TAG_PAGE)
              else before[j])
      {
        pages[y] := Page(0, NULL, TAG_PAGE);
      }
    }

    /** The page becomes the first on the free list. */
    method PushFree(x: nat)
      requires x < pages.Length - 1 && ValidRef(pages[..], pages[pages.Length - 1].next)
      requires pages[pages.Length - 1].next != Ref(x)
      modifies pages
      ensures pages[..] == Pushed(old(pages[..]), pages.Length - 1, x, TAG_PAGE)
    {
      var free := pages.Length - 1;
      PushedLinks(pages[..], free, x, TAG_PAGE, Deref(pages[free].next));
      pages[x] := pages[x].(prev := Ref(free));
      pages[x] := pages[x].(next := pages[free].next);
      StorePrev(pages[x].next, Ref(x));
      pages[free] := pages[free].(next := Ref(x));
    }

    // ----- chunks

    /** The page leaves the front of its slot list: it has just become full. */
    method RetirePage(x: nat, shift: nat)
      requires x < pages.Length && ValidRef(pages[..], Untag(pages[x].prev)) && ValidRef(pages[..], pages[x].next)
      requires Untag(pages[x].prev) != Ref(x)
      modifies pages
      ensures pages[..] == Retired(old(pages[..]), x, shift)
    {
      Unlink(x);
      pages[x] := pages[x].(next := NULL);
      pages[x] := pages[x].(prev := TypeTag(shift));
    }

    /** for (m = 1, i = 0; m; m <<= 1, i++): the first clear bit of a bitmap word. */
    method FirstClear(w: Word) returns (m: nat, i: nat)
      requires w != ALL_ONES
      ensures i < 64 && m == Pow2(i) && !Bit(w, i)
      ensures forall j: nat :: j < i ==> Bit(w, j)
    {
      m, i := 1, 0;
      while m != 0
        invariant i <= 64 && m == if i < 64 then Pow2(i) else 0
        invariant forall j: nat :: j < i ==> Bit(w, j)
        decreases 64 - i
      {
        TestBit(w, i);
        if And(w, m) == 0 {
          break;
        }
        ShiftBit(i);
        m, i := (2 * m) % (ALL_ONES + 1), i + 1;
      }
      ClearBitExists(w, i);
    }

    /** for (m = 1 << 32, i = 0; m & mask; m <<= 1, i++): the first clear bit of a BIG map. */
    method FirstClearBig(w: Word, mask: Word, ghost last: nat) returns (m: nat, i: nat)
      requires MAP_SHIFT < last <= 64
      requires forall j: nat :: Bit(mask, j) <==> MAP_SHIFT <= j < last
      requires exists j: nat :: MAP_SHIFT <= j < last && !Bit(w, j)
      ensures MAP_SHIFT + i < last && m == Pow2(MAP_SHIFT + i) && !Bit(w, MAP_SHIFT + i)
      ensures forall j: nat :: MAP_SHIFT <= j < MAP_SHIFT + i ==> Bit(w, j)
    {
      m, i := Pow2(MAP_SHIFT), 0;
      ghost var b := MAP_SHIFT;
      TestBit(mask, b);
      while And(mask, m) != 0
        invariant b == MAP_SHIFT + i <= last && (b < last ==> m == Pow2(b))
        invariant And(mask, m) != 0 <==> b < last
        invariant forall j: nat :: MAP_SHIFT <= j < b ==> Bit(w, j)
        decreases last - b
      {
        TestBit(w, b);
        if And(w, m) == 0 {
          break;
        }
        NextBigBit(mask, b, last);
        ShiftBit(b);
        m, i := (2 * m) % (ALL_ONES + 1), i + 1;
        b := b + 1;
      }
    }

    /** The first bitmap word of page x, from `from` on, that is not RP_SLAB_BUSY. */
    method FirstWord(x: nat, from: nat, count: nat) returns (n: nat)
      requires from <= count <= 8 && x * PAGE_WORDS + PAGE_WORDS <= mem.Length
      ensures from <= n <= count
      ensures forall w :: from <= w < n ==> MapWord(mem[..], x, w) == ALL_ONES
      ensures n < count ==> MapWord(mem[..], x, n) != ALL_ONES
    {
      n := from;
      while n < count && mem[x * PAGE_WORDS + n] == ALL_ONES
        invariant from <= n <= count
        invariant forall w :: from <= w < n ==> MapWord(mem[..], x, w) == ALL_ONES
      {
        n := n + 1;
      }
    }

    /** The two searches together: the first clear bit of page x's bitmap words. */
    method FirstClearOf(x: nat, count: nat) returns (n: nat, m: nat, i: nat)
      requires count <= 8 && x * PAGE_WORDS + PAGE_WORDS <= mem.Length
      requires exists w :: 0 <= w < count && MapWord(mem[..], x, w) != ALL_ONES
      ensures n < count && FirstClearBit(mem[..], x, n, i) && m == Pow2(i)
    {
      n := FirstWord(x, 0, count);
      assert mem[x * PAGE_WORDS + n] == MapWord(mem[..], x, n);
      m, i := FirstClear(mem[x * PAGE_WORDS + n]);
    }

    /** Find and mark the first free chunk of a SMALL page, through the bitmap words at its front;
        `full` is whether no other is left. */
    method MarkSmall(x: nat, shift: nat) returns (n: nat, i: nat, full: bool)
      requires Formed() && SlotFront(View(), x, shift) && shift < EXACT_SHIFT
      modifies mem
      ensures CanTake(old(View()), x, shift, 64 * n + i, full)
      ensures mem[..] == MarkedMem(old(mem[..]), x, shift, 64 * n + i)
    {
      hide Core, HasRoom, Mapped;
      ghost var p := View();
      MapWordsExact(shift);
      ChunkIndexBounds(shift, 0);
      FrontHasRoom(p, x, shift);
      var map_ := Count(shift) / 64;
      SomeWordHasRoom(p, x, shift);
      var m;
      n, m, i := FirstClearOf(x, map_);
      SmallChunkFree(p, x, shift, n, i);
      ghost var c := 64 * n + i;
      SmallFullNow(p, x, shift, c);
      hide SlotFront, Formed;
      SetBit(mem[x * PAGE_WORDS + n], i);
      mem[x * PAGE_WORDS + n] := Or(mem[x * PAGE_WORDS + n], m);
      assert c / 64 == n && c % 64 == i;
      assert mem[..] == MarkedMem(p.mem, x, shift, c);
      full := false;
      ghost var marked := mem[..];
      assert forall v :: 0 <= v < n ==> MapWord(marked, x, v) == MapWord(p.mem, x, v);
      assert MapWord(marked, x, n) == mem[x * PAGE_WORDS + n];
      if mem[x * PAGE_WORDS + n] == ALL_ONES {
        var w := FirstWord(x, n + 1, map_);
        full := w == map_;
        assert mem[..] == marked;
      }
    }

    /** A chunk having been marked in its bitmap, the page leaves its list if that was the
        last one. */
    method FinishTake(x: nat, shift: nat, ghost c: nat, full: bool, ghost p: Pool)
      requires CanTake(p, x, shift, c, full)
      requires pages[..] == MarkedPages(p, x, shift, c) && mem[..] == MarkedMem(p.mem, x, shift, c)
      requires pages != mem as object && |p.kinds| == npages && start + PAGE_SIZE * npages <= end
      requires p.minShift == minShift && kinds == p.kinds && lists == p.lists
      modifies this`kinds, this`lists, pages
      ensures Formed() && kinds == p.kinds[x := Chunks(shift, p.kinds[x].used + {c})]
      ensures FromFront(p, View(), x, shift, c)
    {
      FrontRefs(p, x, shift);
      ghost var l := shift - minShift;
      assert pages[x].prev == p.pages[x].prev && pages[x].next == p.pages[x].next;
      hide Core, HasRoom, SlotFront;
      if full {
        RetirePage(x, shift);
        lists := lists[l := lists[l][1..]];
      }
      kinds := kinds[x := Chunks(shift, kinds[x].used + {c})];
      TakeStep(p, View(), x, shift, c, full);
    }

    /** A chunk of a SMALL page. */
    method TakeSmall(x: nat, shift: nat) returns (a: nat, ghost c: nat)
      requires Formed() && SlotFront(View(), x, shift) && shift < EXACT_SHIFT
      modifies this`kinds, this`lists, pages, mem
      ensures Formed()
      ensures Reserved(shift) <= c < Count(shift) && c !in old(kinds)[x].used && a == ChunkAddr(start, x, shift, c)
      ensures forall d :: Reserved(shift) <= d < c ==> d in old(kinds)[x].used
      ensures kinds == old(kinds)[x := Chunks(shift, old(kinds)[x].used + {c})]
      ensures FromFront(old(View()), View(), x, shift, c)
    {
      ghost var p := View();
      assert x < |p.pages| && ChunkShift(shift);
      hide Core, SlotFront, HasRoom;
      var n, i, full := MarkSmall(x, shift);
      c := 64 * n + i;
      assert pages[..] == p.pages && MarkedPages(p, x, shift, c) == p.pages;
      FinishTake(x, shift, c, full, p);
      SmallAddr(start, x, shift, n, i);
      a := start + PAGE_SIZE * x + ((n * 64) * Pow2(shift) + i * Pow2(shift));
    }

    /** A chunk of an EXACT page: the descriptor word is its bitmap. */
    method TakeExact(x: nat) returns (a: nat, ghost c: nat)
      requires Formed() && SlotFront(View(), x, EXACT_SHIFT)
      modifies this`kinds, this`lists, pages
      ensures Formed()
      ensures Reserved(EXACT_SHIFT) <= c < Count(EXACT_SHIFT) && c !in old(kinds)[x].used
      ensures a == ChunkAddr(start, x, EXACT_SHIFT, c)
      ensures forall d :: Reserved(EXACT_SHIFT) <= d < c ==> d in old(kinds)[x].used
      ensures kinds == old(kinds)[x := Chunks(EXACT_SHIFT, old(kinds)[x].used + {c})]
      ensures FromFront(old(View()), View(), x, EXACT_SHIFT, c)
    {
      ghost var p := View();
      FrontHasRoom(p, x, EXACT_SHIFT);
      ExactChunkFree(p, x);
      var m, i := FirstClear(pages[x].slab);
      c := i;
      ExactFullNow(p, x, c);
      SetBit(pages[x].slab, i);
      hide Core, Mapped, HasRoom;
      pages[x] := pages[x].(slab := Or(pages[x].slab, m));
      var full := pages[x].slab == ALL_ONES;
      FinishTake(x, EXACT_SHIFT, c, full, p);
      a := start + PAGE_SIZE * x + i * Pow2(EXACT_SHIFT);
    }

    /** n = 1 << (12 - (slab & SHIFT_MASK)); ((1 << n) - 1) << RP_SLAB_MAP_SHIFT */
    method ChunkMask(slab: Word, ghost shift: nat) returns (mask: Word)
      requires And(slab, SHIFT_MASK) == shift && ChunkShift(shift) && shift > EXACT_SHIFT
      ensures mask == BigMask(shift)
      ensures forall j: nat :: Bit(mask, j) <==> MAP_SHIFT <= j < MAP_SHIFT + Count(shift)
    {
      BigMaskBits(shift);
      var n := Pow2(PAGE_SHIFT - And(slab, SHIFT_MASK));
      mask := (Pow2(n) - 1) * Pow2(MAP_SHIFT);
    }

    /** Find and mark a free chunk of a BIG page, in the high half of the descriptor word. */
    method MarkBig(x: nat, shift: nat) returns (i: nat, full: bool)
      requires Formed() && SlotFront(View(), x, shift) && shift > EXACT_SHIFT
      modifies pages
      ensures CanTake(old(View()), x, shift, i, full)
      ensures pages[..] == MarkedPages(old(View()), x, shift, i)
    {
      ghost var p := View();
      BigChunkFree(p, x, shift);
      FrontHasRoom(p, x, shift);
      hide Core, HasRoom, BigMask, SlotFront;
      var mask := ChunkMask(pages[x].slab, shift);
      var m;
      m, i := FirstClearBig(pages[x].slab, mask, MAP_SHIFT + Count(shift));
      BigFullNow(p, x, shift, i);
      SetBit(pages[x].slab, MAP_SHIFT + i);
      pages[x] := pages[x].(slab := Or(pages[x].slab, m));
      full := And(pages[x].slab, MAP_MASK) == mask;
    }

    /** A chunk of a BIG page. */
    method TakeBig(x: nat, shift: nat) returns (a: nat, ghost c: nat)
      requires Formed() && SlotFront(View(), x, shift) && shift > EXACT_SHIFT
      modifies this`kinds, this`lists, pages
      ensures Formed()
      ensures Reserved(shift) <= c < Count(shift) && c !in old(kinds)[x].used && a == ChunkAddr(start, x, shift, c)
      ensures forall d :: Reserved(shift) <= d < c ==> d in old(kinds)[x].used
      ensures kinds == old(kinds)[x := Chunks(shift, old(kinds)[x].used + {c})]
      ensures FromFront(old(View()), View(), x, shift, c)
    {
      ghost var p := View();
      hide Core, SlotFront, HasRoom;
      var i, full := MarkBig(x, shift);
      c := i;
      assert mem[..] == p.mem;
      FinishTake(x, shift, c, full, p);
      a := start + PAGE_SIZE * x + i * Pow2(shift);
    }

    // ----- a fresh page of chunks

    /** The bitmap words of a fresh SMALL page; n is how many chunks they take up. */
    method FreshWords(x: nat, shift: nat) returns (n: nat)
      requires ChunkShift(shift) && shift < EXACT_SHIFT && x * PAGE_WORDS + PAGE_WORDS <= mem.Length
      modifies mem
      ensures n == Reserved(shift) && OnlyWords(old(mem[..]), mem[..], x)
      ensures FreshMapped(shift, mem[..], x, shift)
    {
      ghost var before := mem[..];
      MapWordsExact(shift);
      n := Count(shift) / 8 / Pow2(shift);
      if n == 0 {
        n := 1;
      }
      Pow2Word();
      Pow2Monotone(n + 1, 64);
      mem[x * PAGE_WORDS] := 2 * Pow2(n) - 1;
      var count := Count(shift) / 64;
      for i := 1 to count
        invariant OnlyWords(before, mem[..], x)
        invariant MapWord(mem[..], x, 0) == Pow2(n + 1) - 1
        invariant forall w :: 1 <= w < i ==> MapWord(mem[..], x, w) == 0
      {
        ghost var prior := mem[..];
        mem[x * PAGE_WORDS + i] := 0;
        assert mem[..] == prior[x * PAGE_WORDS + i := 0];
        assert forall w :: 1 <= w < i ==> MapWord(mem[..], x, w) == MapWord(prior, x, w);
      }
      FreshSmall(mem[..], x, shift);
    }

    /** The descriptor of a fresh page; c is the chunk handed out with it. */
    method FreshWord(x: nat, shift: nat) returns (slab: Word, c: nat)
      requires ChunkShift(shift) && x * PAGE_WORDS + PAGE_WORDS <= mem.Length
      modifies mem
      ensures c == Reserved(shift) && OnlyWords(old(mem[..]), mem[..], x)
      ensures FreshMapped(slab, mem[..], x, shift)
    {
      if shift < EXACT_SHIFT {
        c := FreshWords(x, shift);
        slab := shift;
      } else if shift == EXACT_SHIFT {
        FreshExact(mem[..], x);
        slab, c := 1, 0;
      } else {
        FreshBig(mem[..], x, shift);
        slab, c := Or(Pow2(MAP_SHIFT), shift), 0;
      }
    }

    /** Make page x the only page of a slot whose list was empty. */
    method LinkAlone(x: nat, s: nat, slab: Word, tag: nat)
      requires x < pages.Length && s < pages.Length && x != s
      modifies pages
      ensures pages[..] == old(pages[..])[x := Page(slab, Ref(s), Ref(s) + tag)][s := old(pages[s]).(next := Ref(x))]
    {
      pages[x] := pages[x].(slab := slab);
      pages[x] := pages[x].(next := Ref(s));
      pages[x] := pages[x].(prev := Ref(s) + tag);
      pages[s] := pages[s].(next := Ref(x));
    }

    /** Cut page x into chunks, hand out the first, and make x the only page of its slot. */
    method Carve(x: nat, shift: nat) returns (a: nat, ghost c: nat)
      requires Formed() && FreshPage(View(), x, shift)
      modifies this`kinds, this`lists, pages, mem
      ensures Formed()
      ensures c == Reserved(shift) && a == ChunkAddr(start, x, shift, c)
      ensures kinds == old(kinds)[x := Chunks(shift, {c})] && lists == old(lists)[shift - minShift := [x]]
      ensures OnlyWords(old(mem[..]), mem[..], x)
    {
      hide Core, FreshMapped, OnlyWords;
      ghost var p := View();
      CoreShape(p);
      var s := npages + (shift - minShift);
      var slab, first := FreshWord(x, shift);
      c := first;
      assert pages[..] == p.pages;
      LinkAlone(x, s, slab, TypeTag(shift));
      kinds := kinds[x := Chunks(shift, {c})];
      lists := lists[shift - minShift := [x]];
      CarveStep(p, View(), x, shift);
      a := start + PAGE_SIZE * x + first * Pow2(shift);
    }

    // ----- rp_slab_alloc

    /** shift = 1; for (s = size - 1; s >>= 1; shift++): the class of a request above the
        smallest chunk. */
    method ShiftFor(size: nat) returns (shift: nat)
      requires 2 <= size < MAX_SIZE
      ensures 1 <= shift <= 11 && Pow2(shift - 1) < size <= Pow2(shift)
    {
      shift := 1;
      var s: nat := (size - 1) / 2;
      ghost var unit: nat := 1;
      while s != 0
        invariant shift >= 1 && unit == Pow2(shift - 1)
        invariant Bracket(s, unit, size - 1)
        invariant s == 0 ==> unit <= size - 1
        decreases s
      {
        HalveBracket(s, unit, size - 1);
        unit := 2 * unit;
        s, shift := s / 2, shift + 1;
      }
      assert size - 1 < 2 * unit;
      ShiftBelow12(shift, size);
    }

    /** The chunk class of a small request. */
    method ClassOf(size: nat) returns (shift: nat)
      requires size < MAX_SIZE && ChunkShift(minShift)
      ensures shift == ClassFrom(minShift, size)
    {
      if size > Pow2(minShift) {
        assert Pow2(3) == 8;
        Pow2Monotone(3, minShift);
        shift := ShiftFor(size);
        assert minShift < shift by {
          if shift <= minShift { Pow2Monotone(shift, minShift); }
        }
        ClassUnique(minShift, size, shift);
      } else {
        shift := minShift;
      }
    }

    /** A chunk request: the first page of the slot list, or a fresh page. */
    method AllocChunk(shift: nat) returns (a: nat, ghost x: nat, ghost c: nat)
      requires Valid() && ChunkShift(shift) && minShift <= shift
      modifies this, pages, mem
      ensures Valid()
      ensures a == NULL <==> old(lists[shift - minShift] == [] && lists[FreeListIndex()] == [])
      ensures a == NULL ==> View() == old(View()) && live == old(live)
      ensures a != NULL ==> a !in old(live) && live == old(live)[a := Pow2(shift)] && a % Pow2(shift) == 0
      ensures a != NULL ==> ChunkServed(old(View()), View(), start, shift, a, x, c)
    {
      hide Core, NoneIdle, Accounted, SlotFront, ChunkServed;
      ghost var p := View();
      CoreShape(p);
      SlotHead(p, shift);
      var slot := npages + (shift - minShift);
      var page := pages[slot].next;
      if pages[Deref(page)].next != page {
        x := Deref(page);
        a, c := TakeFrom(Deref(page), shift);
      } else {
        a, x, c := TakeFresh(shift);
      }
    }

    method TakeFrom(x: nat, shift: nat) returns (a: nat, ghost c: nat)
      requires Valid() && SlotFront(View(), x, shift)
      modifies this, pages, mem
      ensures Valid()
      ensures a != NULL && a !in old(live) && live == old(live)[a := Pow2(shift)] && a % Pow2(shift) == 0
      ensures ChunkServed(old(View()), View(), start, shift, a, x, c)
    {
      hide Core, SlotFront, NoneIdle, Accounted, FromFront;
      ghost var p := View();
      FrontBasics(p, x, shift);
      if shift < EXACT_SHIFT {
        a, c := TakeSmall(x, shift);
      } else if shift == EXACT_SHIFT {
        a, c := TakeExact(x);
      } else {
        a, c := TakeBig(x, shift);
      }
      live := live[a := Pow2(shift)];
      TakeSound(p, View(), x, shift, c, start, old(live));
    }

    method TakeFresh(shift: nat) returns (a: nat, ghost x: nat, ghost c: nat)
      requires Valid() && ChunkShift(shift) && minShift <= shift && lists[shift - minShift] == []
      modifies this, pages, mem
      ensures Valid()
      ensures a == NULL <==> old(lists)[FreeListIndex()] == []
      ensures a == NULL ==> View() == old(View()) && live == old(live)
      ensures a != NULL ==> a !in old(live) && live == old(live)[a := Pow2(shift)] && a % Pow2(shift) == 0
      ensures a != NULL ==> ChunkServed(old(View()), View(), start, shift, a, x, c)
    {
      hide Core, NoneIdle, Accounted, NoFit, PagesTaken, TakenKinds, FreshPage, ChunkServed;
      ghost var p := View();
      CoreShape(p);
      var r, i := AllocPages(1);
      if r == NULL {
        NoFitOne(p);
        return NULL, 0, 0;
      }
      var page := Deref(r);
      x := page;
      ghost var mid := View();
      TakenForChunks(p, mid, i, shift);
      CoreShape(mid);
      TakenIsFresh(p, mid, x, shift);
      a, c := Carve(page, shift);
      live := live[a := Pow2(shift)];
      CarveSound(p, View(), x, shift, c, start, old(live));
      FreshServes(p, mid, View(), start, shift, a, x, c);
    }

    /** A page request: whole pages from the first free run that has enough. */
    method AllocRun(k: nat) returns (a: nat, ghost i: nat)
      requires Valid() && k >= 1
      modifies this, pages, mem
      ensures Valid()
      ensures a == NULL <==> old(NoFit(View(), k))
      ensures a == NULL ==> View() == old(View()) && live == old(live)
      ensures a != NULL ==> a !in old(live) && live == old(live)[a := PAGE_SIZE * k] && a % PAGE_SIZE == 0
      ensures a != NULL ==>
        PagesTaken(old(View()), View(), i, k) && a == PageAddr(start, old(lists)[FreeListIndex()][i])
    {
      hide Core, NoneIdle, Accounted, NoFit, PagesTaken;
      ghost var p := View();
      CoreShape(p);
      var r;
      r, i := AllocPages(k);
      if r == NULL {
        return NULL, 0;
      }
      var x := Deref(r);
      TakenIsFree(p, View(), i, k);
      a := start + PAGE_SIZE * x;
      live := live[a := PAGE_SIZE * k];
      TakeRunSound(p, View(), x, k, start, old(live));
    }

    /** rp_slab_alloc */
    method Alloc(size: nat) returns (a: nat)
      requires Valid() && size <= ALL_ONES
      modifies this, pages, mem
      ensures Valid()
      ensures a != NULL ==> a !in old(live) && live == old(live)[a := BlockBytes(minShift, size)]
      ensures a != NULL && size >= MAX_SIZE ==> size <= live[a] < size + PAGE_SIZE
      ensures a != NULL ==> a % BlockUnit(minShift, size) == 0
      ensures a == NULL ==> View() == old(View()) && live == old(live)
      ensures a == NULL <==> Exhausted(old(View()), size)
      ensures a != NULL ==> Served(old(View()), View(), start, size, a)
      ensures Untouched(old(mem[..]), mem[..], start, old(live))
    {
      hide Core, NoneIdle, Accounted, NoFit, Served, ChunkServed, PagesTaken, Exhausted, Pow2, InBlock;
      ghost var p, was := View(), live;
      CoreShape(p);
      if size >= MAX_SIZE {
        ghost var i;
        NoFitExhausted(p, size);
        a, i := AllocRun(size / PAGE_SIZE + if size % PAGE_SIZE != 0 then 1 else 0);
        if a != NULL {
          RunServes(p, View(), start, size, a, i, PagesFor(size));
        }
      } else {
        ghost var x, c;
        EmptyExhausted(p, size);
        var shift := ClassOf(size);
        a, x, c := AllocChunk(shift);
        if a != NULL {
          ChunkServes(p, View(), start, size, a, x, c);
        }
      }
      if a != NULL {
        ServedUntouched(p, View(), start, was, size, a);
      }
    }

    // ----- rp_slab_free

    /** The page becomes the first of its slot list again. */
    method PushSlot(x: nat, s: nat, tag: nat)
      requires x < pages.Length && s < pages.Length && x != s
      requires ValidRef(pages[..], pages[s].next) && pages[s].next != Ref(x)
      modifies pages
      ensures pages[..] == Pushed(old(pages[..]), s, x, tag)
    {
      pages[x] := pages[x].(next := pages[s].next);
      pages[s] := pages[s].(next := Ref(x));
      pages[x] := pages[x].(prev := Ref(s) + tag);
      StorePrev(pages[x].next, Ref(x) + tag);
    }

    /** Clear the bit of chunk c, wherever its class keeps it. */
    method ClearChunk(x: nat, shift: nat, c: nat)
      requires x < pages.Length && x * PAGE_WORDS + PAGE_WORDS <= mem.Length && ChunkShift(shift)
      requires c < Count(shift) <= 512 && (shift > EXACT_SHIFT ==> c < 32) && (shift == EXACT_SHIFT ==> c < 64)
      requires pages != mem as object
      modifies pages, mem
      ensures pages[..] == old(pages[..])[x := old(pages[x]).(slab := ClearedSlab(old(pages[x].slab), shift, c))]
      ensures mem[..] == ClearedMem(old(mem[..]), x, shift, c)
    {
      if shift < EXACT_SHIFT {
        var w := x * PAGE_WORDS + c / 64;
        ClearBit(mem[w], c % 64);
        mem[w] := And(mem[w], Not(Pow2(c % 64)));
        assert old(pages[..])[x := old(pages[x])] == old(pages[..]);
      } else {
        var i := if shift == EXACT_SHIFT then c else MAP_SHIFT + c;
        ClearBit(pages[x].slab, i);
        pages[x] := pages[x].(slab := And(pages[x].slab, Not(Pow2(i))));
      }
    }

    /** A page that was full rejoins its slot list, and the bit of chunk c is cleared. */
    method ReturnStores(x: nat, shift: nat, c: nat)
      requires Formed() && ChunkPage(View(), x, shift) && ChunkShift(shift) && c < Count(shift)
      modifies pages, mem
      ensures var p := old(View());
        && Returnable(p, x, shift, c)
        && pages[..] == ReturnedPages(p, x, shift, c, !HasRoom(shift, kinds[x].used))
        && mem[..] == ClearedMem(p.mem, x, shift, c)
    {
      hide Core, HasRoom, Mapped;
      ghost var p := View();
      ChunkPageFacts(p, x, shift);
      ExactFullTest(p, x, shift);
      var full := if shift == EXACT_SHIFT then pages[x].slab == ALL_ONES else pages[x].next == NULL;
      if full {
        SlotRefs(p, x, shift);
        PushSlot(x, npages + (shift - minShift), TypeTag(shift));
      }
      PushedSlab(p, x, shift, full);
      ClearChunk(x, shift, c);
    }

    /** The chunk that was in use is free: the lists and the page's kind follow. */
    ghost method ReturnUsed(x: nat, shift: nat, c: nat, p: Pool)
      requires ChunkPage(p, x, shift) && ChunkShift(shift) && c in p.kinds[x].used && Returnable(p, x, shift, c)
      requires pages[..] == ReturnedPages(p, x, shift, c, !HasRoom(shift, p.kinds[x].used))
      requires mem[..] == ClearedMem(p.mem, x, shift, c)
      requires pages != mem as object && |p.kinds| == npages && start + PAGE_SIZE * npages <= end
      requires p.minShift == minShift && kinds == p.kinds && lists == p.lists
      modifies this`kinds, this`lists
      ensures Formed() && kinds == p.kinds[x := Chunks(shift, p.kinds[x].used - {c})]
      ensures ChunkPage(View(), x, shift) && HasRoom(shift, kinds[x].used)
      ensures lists == (if HasRoom(shift, p.kinds[x].used) then p.lists
          else p.lists[shift - minShift := [x] + p.lists[shift - minShift]])
    {
      hide Core, HasRoom, Mapped;
      var l, full := shift - minShift, !HasRoom(shift, p.kinds[x].used);
      ChunkPageFacts(p, x, shift);
      if full {
        lists := lists[l := [x] + lists[l]];
      }
      kinds := kinds[x := Chunks(shift, kinds[x].used - {c})];
      ReturnStep(p, View(), x, shift, c, full);
    }

    /** Whether all bits of page x but those of its reserved chunks are clear. */
    method Idle(x: nat, shift: nat) returns (empty: bool)
      requires x < pages.Length && x * PAGE_WORDS + PAGE_WORDS <= mem.Length && ChunkShift(shift)
      ensures shift == EXACT_SHIFT ==> (empty <==> pages[x].slab == 0)
      ensures shift > EXACT_SHIFT ==> (empty <==> And(pages[x].slab, MAP_MASK) == 0)
      ensures shift < EXACT_SHIFT ==> (empty <==> IdleMap(mem[..], x, shift))
    {
      if shift < EXACT_SHIFT {
        MaskFits(shift);
        MapWordsExact(shift);
        var n := Count(shift) / 8 / Pow2(shift);
        n := if n == 0 then 1 else n;
        assert MapWord(mem[..], x, 0) == mem[x * PAGE_WORDS];
        if And(mem[x * PAGE_WORDS], Not(Pow2(n) - 1)) != 0 {
          return false;
        }
        var count := Count(shift) / 64;
        for w := 1 to count
          invariant forall v :: 1 <= v < w ==> MapWord(mem[..], x, v) == 0
        {
          assert MapWord(mem[..], x, w) == mem[x * PAGE_WORDS + w];
          if mem[x * PAGE_WORDS + w] != 0 {
            return false;
          }
        }
        return true;
      } else if shift == EXACT_SHIFT {
        return pages[x].slab == 0;
      } else {
        return And(pages[x].slab, MAP_MASK) == 0;
      }
    }

    /** Clear the bit of chunk c of page x, and take back the page itself if that leaves none in
        use. Freeing a chunk that holds the bitmap, which was never in use, leaves no pool. */
    method FreeChunk(x: nat, shift: nat, c: nat)
      requires Valid() && ChunkPage(View(), x, shift) && ChunkShift(shift) && c < Count(shift)
      requires c in kinds[x].used || IsReserved(shift, c)
      modifies this, pages, mem
      ensures c in old(kinds)[x].used ==> Valid() && live == old(live) - {ChunkAddr(start, x, shift, c)}
      ensures c in old(kinds)[x].used ==> ChunkGiven(old(View()), View(), x, c)
      ensures c !in old(kinds)[x].used ==> live == old(live) && Defaced(old(View()), View(), x, shift, c)
    {
      hide Core, HasRoom, NoneIdle, Accounted, Defaced, IdleMap, Mapped, Fronted, ChunkGiven;
      ghost var p := View();
      ReturnStores(x, shift, c);
      if c in kinds[x].used {
        ReturnUsed(x, shift, c, p);
        EmptyTest(View(), x, shift);
      } else {
        DefacedNow(p, View(), x, shift, c);
      }
      var empty := Idle(x, shift);
      ghost var relisted := lists;
      if empty {
        FreePages(x, 1);
      }
      if c in p.kinds[x].used {
        ChunkPageFacts(p, x, shift);
        ChunkIsGiven(p, View(), x, shift, c, relisted);
        ReleaseSound(p.kinds, x, shift, p.kinds[x].used, c, start, live, empty);
        live := live - {ChunkAddr(start, x, shift, c)};
        assert kinds == p.kinds[x := if empty then Free(1) else Chunks(shift, p.kinds[x].used - {c})];
      }
    }

    /** The same, by address. */
    method FreeBit(x: nat, shift: nat, c: nat, ghost a: nat)
      requires Valid() && ChunkPage(View(), x, shift) && ChunkShift(shift) && c < Count(shift)
      requires c in kinds[x].used || IsReserved(shift, c)
      requires a == ChunkAddr(start, x, shift, c) && (a - start) / PAGE_SIZE == x
      requires (a - start) % PAGE_SIZE / Pow2(shift) == c
      requires OnBitmap(View(), start, a) <==> c !in kinds[x].used
      modifies this, pages, mem
      ensures live == old(live) - {a} && (Valid() <==> c in old(kinds)[x].used)
      ensures c !in old(kinds)[x].used ==> BitmapFreed(old(View()), View(), start, a)
      ensures c in old(kinds)[x].used ==> Gave(old(View()), View(), start, a)
    {
      hide Core, HasRoom, NoneIdle, Accounted, Mapped, Defaced, OnBitmap, ChunkGiven;
      ghost var p, was := View(), live;
      FreeChunk(x, shift, c);
      if c !in p.kinds[x].used {
        BitmapGone(p, View(), x, shift, c, start, was, a);
      }
    }

    /** The chunk cases of rp_slab_free. */
    method FreeInPage(x: nat, shift: nat, a: nat) returns (r: FreeResult)
      requires Valid() && ChunkPage(View(), x, shift)
      requires a >= start && (a - start) / PAGE_SIZE == x
      modifies this, pages, mem
      ensures r == PageVerdict(old(kinds), x, (a - start) % PAGE_SIZE)
      ensures live == old(live) - {a} && (r != Freed ==> View() == old(View()))
      ensures Valid() <==> !old(OnBitmap(View(), start, a))
      ensures old(OnBitmap(View(), start, a)) ==> BitmapFreed(old(View()), View(), start, a)
      ensures r == Freed && !old(OnBitmap(View(), start, a)) ==> Gave(old(View()), View(), start, a)
    {
      hide Core, HasRoom, NoneIdle, Accounted, Mapped, Defaced, PageVerdict, OnBitmap, Gave;
      ghost var p := View();
      ChunkPageFacts(p, x, shift);
      DecodeOffset(start, x, shift, a);
      VerdictInPage(p, x, shift, start, a);
      if a % Pow2(shift) != 0 {
        NotLive(p, start, live, a);
        return WrongChunk;
      }
      var c := Shr(a % PAGE_SIZE, shift);
      ShrDivides(a % PAGE_SIZE, shift);
      DecodeAligned(start, x, shift, a, c);
      SetBits(p, x, shift, c);
      var used := BitSet(x, shift, c);
      if used {
        FreeBit(x, shift, c, a);
        return Freed;
      }
      NotLive(p, start, live, a);
      return ChunkAlreadyFree;
    }

    /** The bit of chunk c of page x. */
    method BitSet(x: nat, shift: nat, c: nat) returns (b: bool)
      requires x < pages.Length && x * PAGE_WORDS + PAGE_WORDS <= mem.Length && ChunkShift(shift)
      requires c < Count(shift) <= 512 && (shift > EXACT_SHIFT ==> c < 32) && (shift == EXACT_SHIFT ==> c < 64)
      ensures b == ChunkBit(pages[x].slab, mem[..], x, shift, c)
    {
      if shift < EXACT_SHIFT {
        TestBit(mem[x * PAGE_WORDS + c / 64], c % 64);
        b := And(mem[x * PAGE_WORDS + c / 64], Pow2(c % 64)) != 0;
      } else {
        var i := if shift == EXACT_SHIFT then c else MAP_SHIFT + c;
        TestBit(pages[x].slab, i);
        b := And(pages[x].slab, Pow2(i)) != 0;
      }
    }

    /** The whole-page case of rp_slab_free. */
    method FreeRunAt(x: nat, a: nat) returns (r: FreeResult)
      requires Valid() && x < npages && !kinds[x].Chunks?
      requires a >= start && (a - start) / PAGE_SIZE == x
      modifies this, pages, mem
      ensures Valid() && r == PageVerdict(old(kinds), x, (a - start) % PAGE_SIZE)
      ensures live == old(live) - {a} && (r != Freed ==> View() == old(View()))
      ensures r == Freed ==> RunGiven(old(View()), View(), x)
    {
      hide Core, NoneIdle, Accounted, Fronted, RunGiven;
      ghost var p := View();
      CoreShape(p);
      RunWord(p, x);
      DecodeOffset(start, x, 3, a);
      if a % PAGE_SIZE != 0 {
        NotLive(p, start, live, a);
        return WrongChunk;
      }
      if pages[x].slab == 0 {
        NotLive(p, start, live, a);
        return PageAlreadyFree;
      }
      if pages[x].slab == ALL_ONES {
        NotLive(p, start, live, a);
        return WrongPage;
      }
      var size := And(pages[x].slab, Not(PAGE_START));
      FreePages(x, size);
      RunIsGiven(p, View(), x);
      RunSound(p, x, size, start, live, a);
      live := live - {a};
      return Freed;
    }

    /** rp_slab_free of an address in the page area, by the tag of the page's descriptor. */
    method FreeByTag(a: nat) returns (r: FreeResult)
      requires Valid() && start <= a < PageAddr(start, npages)
      modifies this, pages, mem
      ensures r == PageVerdict(old(kinds), (a - start) / PAGE_SIZE, (a - start) % PAGE_SIZE)
      ensures live == old(live) - {a}
      ensures r != Freed ==> View() == old(View())
      ensures Valid() <==> !old(OnBitmap(View(), start, a))
      ensures old(OnBitmap(View(), start, a)) ==> BitmapFreed(old(View()), View(), start, a)
      ensures r == Freed && !old(OnBitmap(View(), start, a)) ==> Gave(old(View()), View(), start, a)
    {
      hide Core, NoneIdle, Accounted, BitmapFreed, IsReserved, RunGiven, ChunkGiven;
      CoreShape(View());
      var x := (a - start) / PAGE_SIZE;
      TagMeans(View(), x);
      ChunkTags(View(), x);
      match TagOf(pages[x].prev) {
        case 0 => r := FreeRunAt(x, a);
        case 2 => r := FreeInPage(x, EXACT_SHIFT, a);
        case _ => r := FreeInPage(x, And(pages[x].slab, SHIFT_MASK), a);
      }
    }

    /** rp_slab_free. The pool stays one exactly if the address is not that of a chunk holding
        its page's bitmap. */
    method FreeAt(a: nat) returns (r: FreeResult)
      requires Valid()
      requires a < start || a > end || a < PageAddr(start, npages)
      modifies this, pages, mem
      ensures r == Verdict(old(View()), start, end, a)
      ensures live == old(live) - {a}
      ensures r != Freed ==> View() == old(View())
      ensures Valid() <==> !old(OnBitmap(View(), start, a))
      ensures old(OnBitmap(View(), start, a)) ==> BitmapFreed(old(View()), View(), start, a)
      ensures r == Freed && !old(OnBitmap(View(), start, a)) ==> Gave(old(View()), View(), start, a)
      ensures Untouched(old(mem[..]), mem[..], start, old(live))
    {
      hide Core, NoneIdle, Accounted, BitmapFreed, IsReserved, Gave, PageVerdict, InBlock;
      ghost var p, was := View(), live;
      if a < start || a > end {
        OutsideNotLive(View(), start, live, a);
        OutsideNotBitmap(View(), start, end, a);
        return OutsidePool;
      }
      r := FreeByTag(a);
      if OnBitmap(p, start, a) {
        BitmapUntouched(p, View(), start, was, a);
      } else if r == Freed {
        GaveUntouched(p, View(), start, was, a);
      }
    }

    /** A chunk of a page's bitmap is freed while the page is first of its slot list, or full:
        the next search of the slot list hands it out, as the address of a block. */
    method HandsOutBitmap(a: nat) returns (b: nat)
      requires Valid() && OnBitmap(View(), start, a)
      requires var x := (a - start) / PAGE_SIZE;
        HasRoom(kinds[x].shift, kinds[x].used) ==> SlotFront(View(), x, kinds[x].shift)
      modifies this, pages, mem
      ensures b == a
    {
      hide Core, HasRoom, Sound, SlotFront, BitmapFreed, FirstClearBit, Gave, Untouched, Verdict;
      ghost var p := View();
      BlocksBelow(p, start, end, a);
      var x := (a - start) / PAGE_SIZE;
      var r := FreeAt(a);
      ghost var t := View();
      BitmapNext(p, t, start, a);
      var shift := pages[x].slab;
      var page := Deref(pages[npages + (shift - minShift)].next);
      var n, m, i := FirstClearOf(page, Count(shift) / 64);
      BitmapFound(p, t, start, a, n, i);
      b := start + PAGE_SIZE * page + ((n * 64) * Pow2(shift) + i * Pow2(shift));
    }

    // ----- the owner of a block

    /** Whatever the owner of a live block writes into it, the allocator's own data, in the
        page area included, is untouched. */
    method Write(a: nat, offset: nat, v: Word)
      requires Valid() && a in live && offset + 8 <= live[a] && (a + offset) % 8 == 0
      modifies mem
      ensures Valid() && pages[..] == old(pages[..]) && kinds == old(kinds) && lists == old(lists) && live == old(live)
      ensures (a + offset - start) / 8 < mem.Length
      ensures mem[..] == old(mem[..])[(a + offset - start) / 8 := v]
    {
      ghost var p := View();
      WordInBlock(p, start, live, a, offset);
      mem[(a + offset - start) / 8] := v;
      WriteSound(p, View(), start, live, a, offset);
    }

    /** A block allocated and freed at once leaves the live blocks, and all their words, as they
        were, and what it was is there to be had again. */
    method AllocThenFree(size: nat) returns (a: nat)
      requires Valid() && size <= ALL_ONES
      modifies this, pages, mem
      ensures Valid() && live == old(live)
      ensures a == NULL <==> Exhausted(old(View()), size)
      ensures a == NULL <==> Exhausted(View(), size)
      ensures a == NULL ==> View() == old(View())
      ensures a != NULL ==>
        exists mid :: Served(old(View()), mid, start, size, a) && Gave(mid, View(), start, a) && Shape(mid)
          && mid.minShift == minShift
      ensures Untouched(old(mem[..]), mem[..], start, live)
    {
      hide Core, NoneIdle, Accounted, Served, Gave, Exhausted, InBlock, OnBitmap, Verdict, BlockBytes;
      ghost var was, w := live, mem[..];
      CoreShape(View());
      a := Alloc(size);
      if a == NULL {
        return;
      }
      ghost var mid, held := View(), live;
      CoreShape(mid);
      LiveInArea(mid, start, live, a);
      LiveMeansFreed(mid, start, end, live, a);
      var r := FreeAt(a);
      CoreShape(View());
      GivenServes(mid, View(), start, held, a, size);
      assert was[a := BlockBytes(minShift, size)] - {a} == was;
      UntouchedTwice(w, mid.mem, mem[..], start, was, held);
    }

    /** A request of the same size then gets the same block. */
    method AllocFreeAlloc(size: nat) returns (a: nat, b: nat)
      requires Valid() && size <= ALL_ONES
      modifies this, pages, mem
      ensures Valid() && b == a
      ensures live == if a == NULL then old(live) else old(live)[a := BlockBytes(minShift, size)]
    {
      hide Core, NoneIdle, Accounted, Served, Gave, Exhausted, Untouched, BlockBytes;
      ghost var p := View();
      a := AllocThenFree(size);
      ghost var t := View();
      b := Alloc(size);
      if a != NULL {
        ghost var mid :| Served(p, mid, start, size, a) && Gave(mid, t, start, a) && Shape(mid)
          && mid.minShift == minShift;
        FreedIsNext(p, mid, t, View(), start, size, a, b);
      }
    }
  }
}
