/** What the allocator's tests on bitmap words mean: empty, full, first clear bit. */
module SlabBits {
  import opened Words
  import opened SlabModel
  import opened SlabInvariant

  /** The class shift stored in the low four bits of a SMALL or BIG descriptor word. */
  lemma StoredShift(slab: Word, mem: seq<Word>, x: nat, shift: nat, used: set<nat>)
    requires ChunkShift(shift) && shift != EXACT_SHIFT && x * PAGE_WORDS + PAGE_WORDS <= |mem|
    requires Mapped(slab, mem, x, shift, used)
    ensures And(slab, SHIFT_MASK) == shift
  {
    assert Pow2(4) == 16;
    forall i: nat | i < 4
      ensures Bit(And(slab, SHIFT_MASK), i) <==> Bit(shift, i)
    {
      BitAnd(slab, SHIFT_MASK, i);
      BitOnes(4, i);
    }
    SameBits(And(slab, SHIFT_MASK), shift, 4);
  }

  /** Number of bitmap words of a SMALL page. */
  function MapWords(shift: nat): nat
    requires shift <= 12
  {
    Count(shift) / 64
  }

  lemma MapWordsExact(shift: nat)
    requires ChunkShift(shift) && shift < EXACT_SHIFT
    ensures MapWords(shift) * 64 == Count(shift)
    ensures 1 <= MapWords(shift) <= 8 && 1 <= Reserved(shift) <= 8
  {
    Geometry(shift);
  }

  // ----- SMALL: bitmap words at the front of the page

  lemma SmallWordBit(slab: Word, mem: seq<Word>, x: nat, shift: nat, used: set<nat>, w: nat, i: nat)
    requires ChunkShift(shift) && shift < EXACT_SHIFT && x * PAGE_WORDS + PAGE_WORDS <= |mem|
    requires Mapped(slab, mem, x, shift, used) && w < MapWords(shift) <= 8 && i < 64
    ensures 64 * w + i < Count(shift)
    ensures Bit(MapWord(mem, x, w), i) <==> 64 * w + i < Reserved(shift) || 64 * w + i in used
  {
    MapWordsExact(shift);
    var c := 64 * w + i;
    assert c / 64 == w && c % 64 == i;
    assert ChunkBit(slab, mem, x, shift, c) <==> c < Reserved(shift) || c in used;
  }

  lemma SmallBusy(slab: Word, mem: seq<Word>, x: nat, shift: nat, used: set<nat>)
    requires ChunkShift(shift) && shift < EXACT_SHIFT && x * PAGE_WORDS + PAGE_WORDS <= |mem|
    requires Mapped(slab, mem, x, shift, used)
    requires forall w :: 0 <= w < MapWords(shift) <= 8 ==> MapWord(mem, x, w) == ALL_ONES
    ensures !HasRoom(shift, used)
  {
    MapWordsExact(shift);
    forall c: nat | Reserved(shift) <= c < Count(shift)
      ensures c in used
    {
      SmallWordBit(slab, mem, x, shift, used, c / 64, c % 64);
      BusyBit(c % 64);
    }
  }

  lemma SmallRoom(slab: Word, mem: seq<Word>, x: nat, shift: nat, used: set<nat>, w: nat)
    requires ChunkShift(shift) && shift < EXACT_SHIFT && x * PAGE_WORDS + PAGE_WORDS <= |mem|
    requires Mapped(slab, mem, x, shift, used)
    requires w < MapWords(shift) <= 8 && MapWord(mem, x, w) != ALL_ONES
    ensures HasRoom(shift, used)
  {
    if !HasRoom(shift, used) {
      forall i: nat | i < 64
        ensures Bit(MapWord(mem, x, w), i)
      {
        SmallWordBit(slab, mem, x, shift, used, w, i);
      }
      AllBitsSet(MapWord(mem, x, w));
    }
  }

  /** Every bitmap word is busy exactly if no chunk is free. */
  lemma SmallFull(slab: Word, mem: seq<Word>, x: nat, shift: nat, used: set<nat>)
    requires ChunkShift(shift) && shift < EXACT_SHIFT && x * PAGE_WORDS + PAGE_WORDS <= |mem|
    requires Mapped(slab, mem, x, shift, used)
    ensures (forall w :: 0 <= w < MapWords(shift) <= 8 ==> MapWord(mem, x, w) == ALL_ONES) <==> !HasRoom(shift, used)
  {
    hide Mapped, HasRoom;
    if forall w :: 0 <= w < MapWords(shift) <= 8 ==> MapWord(mem, x, w) == ALL_ONES {
      SmallBusy(slab, mem, x, shift, used);
    } else {
      var w :| 0 <= w < MapWords(shift) <= 8 && MapWord(mem, x, w) != ALL_ONES;
      SmallRoom(slab, mem, x, shift, used, w);
    }
  }

  /** The emptiness test of rp_slab_free: no bit above the reserved ones in the first word,
      and every other word zero. */
  lemma SmallHeadBit(slab: Word, mem: seq<Word>, x: nat, shift: nat, used: set<nat>, i: nat)
    requires ChunkShift(shift) && shift < EXACT_SHIFT && x * PAGE_WORDS + PAGE_WORDS <= |mem|
    requires Mapped(slab, mem, x, shift, used) && i < 64
    requires forall c :: c in used ==> Reserved(shift) <= c < Count(shift)
    requires Pow2(Reserved(shift)) - 1 <= ALL_ONES
    ensures Bit(And(MapWord(mem, x, 0), Not(Pow2(Reserved(shift)) - 1)), i) <==> i in used
  {
    MapWordsExact(shift);
    SmallWordBit(slab, mem, x, shift, used, 0, i);
    hide Mapped, MapWord, Bit, And, Not, Pow2, Count;
    var r := Reserved(shift);
    BitAnd(MapWord(mem, x, 0), Not(Pow2(r) - 1), i);
    NotBit(Pow2(r) - 1, i);
    BitOnes(r, i);
  }

  lemma MaskFits(shift: nat)
    requires ChunkShift(shift) && shift < EXACT_SHIFT
    ensures Pow2(Reserved(shift)) - 1 <= ALL_ONES
  {
    MapWordsExact(shift);
    Pow2Word();
    Pow2Monotone(Reserved(shift), 64);
  }

  /** The tests of rp_slab_free: no bit is set but those of the reserved chunks. */
  ghost predicate IdleMap(mem: seq<Word>, x: nat, shift: nat)
    requires x * PAGE_WORDS + PAGE_WORDS <= |mem| && ChunkShift(shift) && shift < EXACT_SHIFT
  {
    MaskFits(shift);
    MapWordsExact(shift);
    && And(MapWord(mem, x, 0), Not(Pow2(Reserved(shift)) - 1)) == 0
    && forall w :: 1 <= w < MapWords(shift) ==> MapWord(mem, x, w) == 0
  }

  lemma SmallOtherZero(slab: Word, mem: seq<Word>, x: nat, shift: nat, used: set<nat>, w: nat)
    requires ChunkShift(shift) && shift < EXACT_SHIFT && x * PAGE_WORDS + PAGE_WORDS <= |mem|
    requires Mapped(slab, mem, x, shift, used) && used == {} && 1 <= w < MapWords(shift)
    ensures MapWords(shift) <= 8 && MapWord(mem, x, w) == 0
  {
    MapWordsExact(shift);
    hide Mapped, MapWord, Bit;
    forall i: nat | i < 64
      ensures !Bit(MapWord(mem, x, w), i)
    {
      SmallWordBit(slab, mem, x, shift, used, w, i);
    }
    NoBitsSet(MapWord(mem, x, w));
  }

  lemma SmallEmpty(slab: Word, mem: seq<Word>, x: nat, shift: nat, used: set<nat>)
    requires ChunkShift(shift) && shift < EXACT_SHIFT && x * PAGE_WORDS + PAGE_WORDS <= |mem|
    requires Mapped(slab, mem, x, shift, used)
    requires forall c :: c in used ==> Reserved(shift) <= c < Count(shift)
    ensures IdleMap(mem, x, shift) <==> used == {}
  {
    MaskFits(shift);
    hide Mapped, MapWord, Bit, And, Not, Reserved, Count, Pow2;
    var head := And(MapWord(mem, x, 0), Not(Pow2(Reserved(shift)) - 1));
    forall i: nat | i < 64
      ensures Bit(head, i) <==> i in used
    {
      SmallHeadBit(slab, mem, x, shift, used, i);
    }
    if used == {} {
      NoBitsSet(head);
      forall w | 1 <= w < MapWords(shift)
        ensures MapWord(mem, x, w) == 0
      {
        SmallOtherZero(slab, mem, x, shift, used, w);
      }
    } else {
      SmallUsedShows(slab, mem, x, shift, used, head);
    }
  }

  lemma SmallUsedShows(slab: Word, mem: seq<Word>, x: nat, shift: nat, used: set<nat>, head: Word)
    requires ChunkShift(shift) && shift < EXACT_SHIFT && x * PAGE_WORDS + PAGE_WORDS <= |mem|
    requires Mapped(slab, mem, x, shift, used) && used != {}
    requires forall c :: c in used ==> Reserved(shift) <= c < Count(shift)
    requires forall i: nat :: i < 64 ==> (Bit(head, i) <==> i in used)
    ensures MapWords(shift) <= 8 && (head != 0 || exists w :: 1 <= w < MapWords(shift) && MapWord(mem, x, w) != 0)
  {
    MapWordsExact(shift);
    hide Mapped, MapWord, Bit;
    var c :| c in used;
    SmallWordBit(slab, mem, x, shift, used, c / 64, c % 64);
    BitZero(c % 64);
  }

  // ----- EXACT: the descriptor word is the bitmap

  lemma ExactBit(slab: Word, mem: seq<Word>, x: nat, used: set<nat>, i: nat)
    requires x * PAGE_WORDS + PAGE_WORDS <= |mem| && Mapped(slab, mem, x, EXACT_SHIFT, used)
    requires i < 64
    ensures Count(EXACT_SHIFT) == 64 && Reserved(EXACT_SHIFT) == 0
    ensures Bit(slab, i) <==> i in used
  {
    Geometry(EXACT_SHIFT);
    assert ChunkBit(slab, mem, x, EXACT_SHIFT, i) <==> i < Reserved(EXACT_SHIFT) || i in used;
  }

  lemma ExactFull(slab: Word, mem: seq<Word>, x: nat, used: set<nat>)
    requires x * PAGE_WORDS + PAGE_WORDS <= |mem| && Mapped(slab, mem, x, EXACT_SHIFT, used)
    ensures slab == ALL_ONES <==> !HasRoom(EXACT_SHIFT, used)
  {
    forall i: nat | i < 64
      ensures Bit(slab, i) <==> i in used
      ensures Count(EXACT_SHIFT) == 64 && Reserved(EXACT_SHIFT) == 0
      ensures Bit(ALL_ONES, i)
    {
      ExactBit(slab, mem, x, used, i);
      BusyBit(i);
    }
    ExactBit(slab, mem, x, used, 0);
    if !HasRoom(EXACT_SHIFT, used) {
      AllBitsSet(slab);
    }
  }

  lemma ExactEmpty(slab: Word, mem: seq<Word>, x: nat, used: set<nat>)
    requires x * PAGE_WORDS + PAGE_WORDS <= |mem| && Mapped(slab, mem, x, EXACT_SHIFT, used)
    requires forall c :: c in used ==> c < Count(EXACT_SHIFT)
    ensures slab == 0 <==> used == {}
  {
    ExactBit(slab, mem, x, used, 0);
    if used == {} {
      forall i: nat | i < 64
        ensures !Bit(slab, i)
      {
        ExactBit(slab, mem, x, used, i);
      }
      NoBitsSet(slab);
    } else {
      var c :| c in used;
      ExactBit(slab, mem, x, used, c);
      BitZero(c);
    }
  }

  // ----- BIG: the high half of the descriptor word is the bitmap

  /** ((1 << (pagesize >> shift)) - 1) << RP_SLAB_MAP_SHIFT */
  function BigMask(shift: nat): nat
    requires shift <= 12
  {
    Shl(Pow2(Count(shift)) - 1, MAP_SHIFT)
  }

  lemma BigMaskBits(shift: nat)
    requires ChunkShift(shift) && shift > EXACT_SHIFT
    ensures BigMask(shift) <= ALL_ONES
    ensures forall i: nat :: Bit(BigMask(shift), i) <==> MAP_SHIFT <= i < MAP_SHIFT + Count(shift)
  {
    BigCount(shift);
    var n := Count(shift);
    hide Count, Bit, Pow2, Shl;
    HighOnesFit(n);
    HighOnesOnly(BigMask(shift), n);
  }

  lemma HighOnesOnly(w: nat, n: nat)
    requires w == Shl(Pow2(n) - 1, MAP_SHIFT)
    ensures forall i: nat :: Bit(w, i) <==> MAP_SHIFT <= i < MAP_SHIFT + n
  {
    forall i: nat
      ensures Bit(w, i) <==> MAP_SHIFT <= i < MAP_SHIFT + n
    {
      HighOnes(n, i);
    }
  }

  lemma BigCount(shift: nat)
    requires ChunkShift(shift) && shift > EXACT_SHIFT
    ensures 1 <= Count(shift) <= 32
  {
    Geometry(shift);
  }

  lemma HighOnesFit(n: nat)
    requires n <= 32
    ensures Shl(Pow2(n) - 1, MAP_SHIFT) <= ALL_ONES
  {
    Pow2Monotone(n, 32);
    Pow2Half();
    assert Pow2(MAP_SHIFT) == 0x1_0000_0000;
  }

  lemma HighOnes(n: nat, i: nat)
    ensures Bit(Shl(Pow2(n) - 1, MAP_SHIFT), i) <==> MAP_SHIFT <= i < MAP_SHIFT + n
  {
    BitShift(Pow2(n) - 1, MAP_SHIFT, i);
    if i >= MAP_SHIFT {
      BitOnes(n, i - MAP_SHIFT);
    }
  }

  lemma MapMaskBit(i: nat)
    requires i < 64
    ensures Bit(MAP_MASK, i) <==> i >= MAP_SHIFT
  {
    Pow2Half();
    assert MAP_MASK == (Pow2(32) - 1) * Pow2(MAP_SHIFT);
    BitShift(Pow2(32) - 1, MAP_SHIFT, i);
    if i >= MAP_SHIFT {
      BitOnes(32, i - MAP_SHIFT);
    }
  }

  lemma BigBit(slab: Word, mem: seq<Word>, x: nat, shift: nat, used: set<nat>, i: nat)
    requires ChunkShift(shift) && shift > EXACT_SHIFT && x * PAGE_WORDS + PAGE_WORDS <= |mem|
    requires Mapped(slab, mem, x, shift, used) && i < 64
    requires forall c :: c in used ==> c < Count(shift)
    ensures Count(shift) <= 32 && Reserved(shift) == 0
    ensures Bit(And(slab, MAP_MASK), i) <==> i >= MAP_SHIFT && i - MAP_SHIFT in used
    ensures i >= MAP_SHIFT ==> (Bit(slab, i) <==> i - MAP_SHIFT in used)
  {
    Geometry(shift);
    BitAnd(slab, MAP_MASK, i);
    MapMaskBit(i);
    if MAP_SHIFT <= i < MAP_SHIFT + Count(shift) {
      var c := i - MAP_SHIFT;
      assert ChunkBit(slab, mem, x, shift, c) <==> c < Reserved(shift) || c in used;
    }
  }

  lemma BigFull(slab: Word, mem: seq<Word>, x: nat, shift: nat, used: set<nat>)
    requires ChunkShift(shift) && shift > EXACT_SHIFT && x * PAGE_WORDS + PAGE_WORDS <= |mem|
    requires Mapped(slab, mem, x, shift, used)
    requires forall c :: c in used ==> c < Count(shift)
    ensures And(slab, MAP_MASK) == BigMask(shift) <==> !HasRoom(shift, used)
  {
    BigBit(slab, mem, x, shift, used, 0);
    BigMaskBits(shift);
    var bits := And(slab, MAP_MASK);
    if !HasRoom(shift, used) {
      Pow2Word();
      forall i: nat | i < 64
        ensures Bit(bits, i) <==> Bit(BigMask(shift), i)
      {
        BigBit(slab, mem, x, shift, used, i);
      }
      SameBits(bits, BigMask(shift), 64);
    } else {
      var c: nat :| Reserved(shift) <= c < Count(shift) && c !in used;
      BigBit(slab, mem, x, shift, used, MAP_SHIFT + c);
      assert Bit(BigMask(shift), MAP_SHIFT + c);
    }
  }

  lemma BigEmpty(slab: Word, mem: seq<Word>, x: nat, shift: nat, used: set<nat>)
    requires ChunkShift(shift) && shift > EXACT_SHIFT && x * PAGE_WORDS + PAGE_WORDS <= |mem|
    requires Mapped(slab, mem, x, shift, used)
    requires forall c :: c in used ==> c < Count(shift)
    ensures And(slab, MAP_MASK) == 0 <==> used == {}
  {
    var bits := And(slab, MAP_MASK);
    if used == {} {
      forall i: nat | i < 64
        ensures !Bit(bits, i)
      {
        BigBit(slab, mem, x, shift, used, i);
      }
      NoBitsSet(bits);
    } else {
      var c :| c in used;
      BigBit(slab, mem, x, shift, used, 0);
      BigBit(slab, mem, x, shift, used, MAP_SHIFT + c);
      BitZero(MAP_SHIFT + c);
    }
  }

  // ----- the words of a page just carved

  /** (2 << n) - 1: the reserved chunks and the first chunk handed out. */
  lemma FreshSmall(mem: seq<Word>, x: nat, shift: nat)
    requires ChunkShift(shift) && shift < EXACT_SHIFT && x * PAGE_WORDS + PAGE_WORDS <= |mem|
    requires MapWord(mem, x, 0) == Pow2(Reserved(shift) + 1) - 1
    requires forall w :: 1 <= w < MapWords(shift) <= 8 ==> MapWord(mem, x, w) == 0
    ensures Mapped(shift, mem, x, shift, {Reserved(shift)})
  {
    MapWordsExact(shift);
    Geometry(shift);
    forall c: nat | c < Count(shift)
      ensures ChunkBit(shift, mem, x, shift, c) <==> c < Reserved(shift) || c in {Reserved(shift)}
    {
      if c / 64 == 0 {
        BitOnes(Reserved(shift) + 1, c);
      } else {
        BitZero(c % 64);
      }
    }
  }

  lemma FreshExact(mem: seq<Word>, x: nat)
    requires x * PAGE_WORDS + PAGE_WORDS <= |mem|
    ensures Mapped(1, mem, x, EXACT_SHIFT, {0})
  {
    Geometry(EXACT_SHIFT);
    forall c: nat | c < Count(EXACT_SHIFT)
      ensures ChunkBit(1, mem, x, EXACT_SHIFT, c) <==> c < Reserved(EXACT_SHIFT) || c in {0}
    {
      BitPow2(0, c);
    }
  }

  /** (1 << RP_SLAB_MAP_SHIFT) | shift */
  lemma FreshBig(mem: seq<Word>, x: nat, shift: nat)
    requires ChunkShift(shift) && shift > EXACT_SHIFT && x * PAGE_WORDS + PAGE_WORDS <= |mem|
    ensures Or(Pow2(MAP_SHIFT), shift) <= ALL_ONES
    ensures Mapped(Or(Pow2(MAP_SHIFT), shift), mem, x, shift, {0})
  {
    Geometry(shift);
    var slab := Or(Pow2(MAP_SHIFT), shift);
    Pow2Word();
    Pow2Half();
    OrBelow(Pow2(MAP_SHIFT), shift, 64);
    forall i: nat
      ensures Bit(slab, i) <==> i == MAP_SHIFT || (i < MAP_SHIFT && Bit(shift, i))
    {
      BitOr(Pow2(MAP_SHIFT), shift, i);
      BitPow2(MAP_SHIFT, i);
      if i >= MAP_SHIFT {
        BitBeyond(shift, 32, i);
      }
    }
    forall c: nat | c < Count(shift)
      ensures ChunkBit(slab, mem, x, shift, c) <==> c < Reserved(shift) || c in {0}
    {
      assert Bit(slab, MAP_SHIFT + c) <==> c == 0;
    }
  }
}
