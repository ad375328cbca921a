/** What a slab pool's descriptors mean, and the invariant tying page kinds, list contents,
    links and bitmaps together. */
module SlabInvariant {
  import opened Sequences
  import opened Words
  import opened SlabModel

  /** The role of a page: head of a free run, head of an allocated run, carved into chunks
      (of which `used` are handed out), or a further page of the run starting at `head`. */
  datatype Kind =
    | Free(len: nat)
    | Busy(len: nat)
    | Chunks(shift: nat, used: set<nat>)
    | Inside(head: nat)

  /** Concrete pool contents with the abstract picture beside them. The descriptors of
      `pages` are the |kinds| page descriptors, then the slot sentinels, then `free`. */
  datatype Pool = Pool(
    minShift: nat,
    pages: seq<Page>,
    mem: seq<Word>,
    kinds: seq<Kind>,
    lists: seq<seq<nat>>)

  // ----- chunk geometry

  /** Chunks in a page of chunks of 2^shift bytes. */
  function Count(shift: nat): nat
    requires shift <= 12
  {
    Pow2(12 - shift)
  }

  /** Chunks at the front of a page that hold its own bitmap. */
  function Reserved(shift: nat): nat
    requires shift <= 12
  {
    if shift >= EXACT_SHIFT then 0
    else
      var n := Count(shift) / 8 / Pow2(shift);
      if n == 0 then 1 else n
  }

  function TypeTag(shift: nat): nat {
    if shift < EXACT_SHIFT then TAG_SMALL else if shift == EXACT_SHIFT then TAG_EXACT else TAG_BIG
  }

  predicate ChunkShift(shift: nat) { 3 <= shift <= 11 }

  lemma Geometry(shift: nat)
    requires ChunkShift(shift)
    ensures Count(shift) * Pow2(shift) == PAGE_SIZE
    ensures Pow2(shift) == [8, 16, 32, 64, 128, 256, 512, 1024, 2048][shift - 3]
    ensures Count(shift) == [512, 256, 128, 64, 32, 16, 8, 4, 2][shift - 3]
    ensures Reserved(shift) == [8, 2, 1, 0, 0, 0, 0, 0, 0][shift - 3]
  {
    assert Pow2(1) == 2 && Pow2(2) == 4 && Pow2(3) == 8;
    assert Pow2(4) == 16 && Pow2(5) == 32 && Pow2(6) == 64;
    assert Pow2(7) == 128 && Pow2(8) == 256 && Pow2(9) == 512;
    assert Pow2(10) == 1024 && Pow2(11) == 2048;
  }

  /** Some chunk of the page can still be handed out. */
  ghost predicate HasRoom(shift: nat, used: set<nat>)
    requires shift <= 12
  {
    exists c: nat :: Reserved(shift) <= c < Count(shift) && c !in used
  }

  /** bitmap[w] of page x */
  function MapWord(mem: seq<Word>, x: nat, w: nat): Word
    requires w < PAGE_WORDS && x * PAGE_WORDS + PAGE_WORDS <= |mem|
  {
    mem[x * PAGE_WORDS + w]
  }

  /** The bitmap bit of chunk c of page x: in the page's own words, in the descriptor word,
      or in the high half of the descriptor word. */
  predicate ChunkBit(slab: Word, mem: seq<Word>, x: nat, shift: nat, c: nat)
    requires x * PAGE_WORDS + PAGE_WORDS <= |mem|
    requires c < 512
  {
    if shift < EXACT_SHIFT then Bit(MapWord(mem, x, c / 64), c % 64)
    else if shift == EXACT_SHIFT then Bit(slab, c)
    else Bit(slab, MAP_SHIFT + c)
  }

  /** The bitmap of page x says exactly: reserved chunks and `used`. */
  ghost predicate Mapped(slab: Word, mem: seq<Word>, x: nat, shift: nat, used: set<nat>)
    requires ChunkShift(shift)
    requires x * PAGE_WORDS + PAGE_WORDS <= |mem|
  {
    && Count(shift) <= 512
    && (forall c: nat :: c < Count(shift) ==>
         (ChunkBit(slab, mem, x, shift, c) <==> c < Reserved(shift) || c in used))
    && (shift < EXACT_SHIFT ==> slab == shift)
    && (shift > EXACT_SHIFT ==>
         && (forall i: nat :: i < MAP_SHIFT ==> (Bit(slab, i) <==> Bit(shift, i)))
         && (forall i: nat :: MAP_SHIFT + Count(shift) <= i < 64 ==> !Bit(slab, i)))
  }

  // ----- the invariant, piece by piece

  function Slots(minShift: nat): nat
    requires minShift <= 12
  {
    12 - minShift
  }

  predicate Shape(p: Pool) {
    && ChunkShift(p.minShift)
    && |p.kinds| <= MAX_PAGES
    && |p.lists| == Slots(p.minShift) + 1
    && |p.pages| == |p.kinds| + |p.lists|
    && |p.mem| == |p.kinds| * PAGE_WORDS
  }

  function FreeIndex(p: Pool): nat
    requires Shape(p)
  {
    Slots(p.minShift)
  }

  function Sentinel(p: Pool, l: nat): nat { |p.kinds| + l }

  /** The tag carried by the `prev` of every page on list l. */
  function ListTag(minShift: nat, l: nat): nat
    requires minShift <= 12
  {
    if l < Slots(minShift) then TypeTag(minShift + l) else TAG_PAGE
  }

  ghost predicate RunAt(kinds: seq<Kind>, x: nat, len: nat) {
    && 1 <= len <= |kinds| - x
    && forall j :: x < j < x + len ==> kinds[j] == Inside(x)
  }

  predicate IsRun(k: Kind) { k.Free? || k.Busy? }

  /** The pages are tiled by runs and chunked pages: no overlap, no gap. */
  ghost predicate Tiled(kinds: seq<Kind>) {
    && (forall x :: 0 <= x < |kinds| && IsRun(kinds[x]) ==> RunAt(kinds, x, kinds[x].len))
    && forall x :: 0 <= x < |kinds| && kinds[x].Inside? ==>
         && kinds[x].head < x
         && IsRun(kinds[kinds[x].head])
         && x < kinds[x].head + kinds[kinds[x].head].len
  }

  ghost predicate ChunkedOK(kinds: seq<Kind>, minShift: nat) {
    forall x :: 0 <= x < |kinds| && kinds[x].Chunks? ==>
      && minShift <= kinds[x].shift && ChunkShift(kinds[x].shift)
      && forall c :: c in kinds[x].used ==> Reserved(kinds[x].shift) <= c < Count(kinds[x].shift)
  }

  /** Page x's descriptor says what kinds[x] says. */
  ghost predicate DescAt(page: Page, mem: seq<Word>, kinds: seq<Kind>, x: nat)
    requires x < |kinds| && |mem| == |kinds| * PAGE_WORDS
  {
    match kinds[x]
    case Free(len) => page.slab == len
    case Busy(len) => page == Page(if len <= MAX_PAGES then StartWord(len) else 0, NULL, TAG_PAGE)
    case Inside(h) =>
      page == if h < |kinds| && kinds[h].Free? then Page(0, NULL, TAG_PAGE) else Page(ALL_ONES, NULL, TAG_PAGE)
    case Chunks(shift, used) =>
      && ChunkShift(shift)
      && Mapped(page.slab, mem, x, shift, used)
      && (!HasRoom(shift, used) ==> page.next == NULL && page.prev == TypeTag(shift))
  }

  ghost predicate Described(pages: seq<Page>, mem: seq<Word>, kinds: seq<Kind>)
    requires |kinds| <= |pages| && |mem| == |kinds| * PAGE_WORDS
  {
    forall x :: 0 <= x < |kinds| ==> DescAt(pages[x], mem, kinds, x)
  }

  /** All lists are linked; the sentinel of list l follows the n page descriptors. */
  ghost predicate Linked(pages: seq<Page>, n: nat, lists: seq<seq<nat>>, minShift: nat)
    requires minShift <= 12
  {
    forall l :: 0 <= l < |lists| ==> Ring(pages, n + l, lists[l], ListTag(minShift, l))
  }

  /** Page x belongs on list l: free runs on the free list, chunked pages with room on the
      list of their class, nothing else anywhere. */
  ghost predicate Home(kinds: seq<Kind>, minShift: nat, x: nat, l: nat)
    requires minShift <= 12
  {
    x < |kinds| &&
    match kinds[x]
    case Free(_) => l == Slots(minShift)
    case Chunks(shift, used) => shift <= 12 && l + minShift == shift && l < Slots(minShift) && HasRoom(shift, used)
    case _ => false
  }

  ghost predicate Listed(kinds: seq<Kind>, lists: seq<seq<nat>>, minShift: nat)
    requires minShift <= 12
  {
    && (forall l :: 0 <= l < |lists| ==> NoDup(lists[l]))
    && forall l, x: nat :: 0 <= l < |lists| ==> (x in lists[l] <==> Home(kinds, minShift, x, l))
  }

  ghost predicate Core(p: Pool) {
    && Shape(p)
    && Tiled(p.kinds)
    && ChunkedOK(p.kinds, p.minShift)
    && Described(p.pages, p.mem, p.kinds)
    && Linked(p.pages, |p.kinds|, p.lists, p.minShift)
    && Listed(p.kinds, p.lists, p.minShift)
  }

  // ----- descriptor words

  /** pages | RP_SLAB_PAGE_START */
  function StartWord(len: nat): (w: Word)
    requires len <= MAX_PAGES
  {
    StartWordFits(len);
    Or(len, PAGE_START)
  }

  lemma StartWordFits(len: nat)
    requires len <= MAX_PAGES
    ensures Or(len, PAGE_START) <= ALL_ONES
  {
    Pow2Word();
    OrBelow(len, PAGE_START, 64);
  }

  /** A free run's plain length has no START bit. */
  lemma PlainLength(len: nat)
    requires len <= MAX_PAGES
    ensures And(len, Not(PAGE_START)) == len
  {
    Pow2Of63();
    Pow2Word();
    forall i: nat | i < 64
      ensures Bit(And(len, Not(PAGE_START)), i) <==> Bit(len, i)
    {
      BitAnd(len, Not(PAGE_START), i);
      NotBit(PAGE_START, i);
      BitPow2(63, i);
      if i == 63 {
        BitBeyond(len, 63, i);
      }
    }
    SameBits(And(len, Not(PAGE_START)), len, 64);
  }

  lemma Pow2Of63()
    ensures Pow2(63) == PAGE_START
  {
    Pow2Word();
    assert Pow2(64) == 2 * Pow2(63);
  }

  /** slab & ~RP_SLAB_PAGE_START recovers the run length, and the word is never one of the
      two values that mark the inside of a run. */
  lemma StartWordLength(len: nat)
    requires 1 <= len <= MAX_PAGES
    ensures And(StartWord(len), Not(PAGE_START)) == len
    ensures StartWord(len) != 0 && StartWord(len) != ALL_ONES
  {
    var w := StartWord(len);
    Pow2Of63();
    Pow2Word();
    forall i: nat | i < 64
      ensures Bit(And(w, Not(PAGE_START)), i) <==> Bit(len, i)
    {
      BitAnd(w, Not(PAGE_START), i);
      NotBit(PAGE_START, i);
      BitOr(len, PAGE_START, i);
      BitPow2(63, i);
      if i == 63 {
        BitBeyond(len, 63, i);
      }
    }
    SameBits(And(w, Not(PAGE_START)), len, 64);
    BitOr(len, PAGE_START, 62);
    BitPow2(63, 62);
    assert len < Pow2(62) by { assert Pow2(63) == 2 * Pow2(62); }
    BitBeyond(len, 62, 62);
    BusyBit(62);
  }
}
