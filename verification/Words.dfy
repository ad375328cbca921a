/** Unsigned 64-bit machine words as numbers, with the bitwise operators
    defined on their binary digits. */
module Words {
  import Arith

  const ALL_ONES: nat := 0xffff_ffff_ffff_ffff

  type Word = w: nat | w <= ALL_ONES

  function Pow2(n: nat): (p: nat)
    ensures p > 0
  {
    if n == 0 then 1 else 2 * Pow2(n - 1)
  }

  function Shl(w: nat, k: nat): (r: nat) {
    w * Pow2(k)
  }

  function Shr(w: nat, k: nat): (r: nat) {
    if k == 0 then w else Shr(w / 2, k - 1)
  }

  lemma {:induction false} ShrDivides(w: nat, k: nat)
    ensures Shr(w, k) == w / Pow2(k)
  {
    if k > 0 {
      ShrDivides(w / 2, k - 1);
      HalvedDiv(w, Pow2(k - 1));
    }
  }

  lemma HalvedDiv(w: nat, m: nat)
    requires m > 0
    ensures w / (2 * m) == w / 2 / m
  {
    var q, r := w / 2 / m, w / 2 % m;
    assert w / 2 == q * m + r;
    assert q * (2 * m) == 2 * (q * m);
    Arith.DivUnique(w, 2 * m, q, 2 * r + w % 2);
  }

  /** Bit i of w. */
  predicate Bit(w: nat, i: nat) {
    if i == 0 then w % 2 == 1 else Bit(w / 2, i - 1)
  }

  function And(a: nat, b: nat): (r: nat)
    ensures r <= a && r <= b
  {
    if a == 0 || b == 0 then 0
    else 2 * And(a / 2, b / 2) + (if a % 2 == 1 && b % 2 == 1 then 1 else 0)
  }

  function Or(a: nat, b: nat): (r: nat)
    ensures r >= a && r >= b
    decreases a + b
  {
    if a == 0 then b
    else if b == 0 then a
    else 2 * Or(a / 2, b / 2) + (if a % 2 == 1 || b % 2 == 1 then 1 else 0)
  }

  function Not(a: Word): Word {
    ALL_ONES - a
  }

  lemma {:induction false} Pow2Add(m: nat, n: nat)
    ensures Pow2(m + n) == Pow2(m) * Pow2(n)
  {
    if m > 0 {
      Pow2Add(m - 1, n);
      assert Pow2(m + n) == 2 * Pow2(m - 1 + n);
      assert 2 * (Pow2(m - 1) * Pow2(n)) == (2 * Pow2(m - 1)) * Pow2(n);
    }
  }

  lemma Pow2Word()
    ensures Pow2(64) == ALL_ONES + 1
  {
    Pow2Half();
    Pow2Add(32, 32);
  }

  lemma Pow2Half()
    ensures Pow2(32) == 0x1_0000_0000
  {
    assert Pow2(8) == 0x100;
    Pow2Add(8, 8);
    Pow2Add(16, 16);
  }

  lemma {:induction false} Pow2Monotone(m: nat, n: nat)
    requires m <= n
    ensures Pow2(m) <= Pow2(n)
  {
    if m < n {
      Pow2Monotone(m, n - 1);
    }
  }

  lemma {:induction false} BitZero(i: nat)
    ensures !Bit(0, i)
  {
    if i > 0 { BitZero(i - 1); }
  }

  lemma {:induction false} BitAnd(a: nat, b: nat, i: nat)
    ensures Bit(And(a, b), i) <==> Bit(a, i) && Bit(b, i)
  {
    if a == 0 || b == 0 {
      BitZero(i);
    } else if i > 0 {
      BitAnd(a / 2, b / 2, i - 1);
    }
  }

  lemma {:induction false} BitOr(a: nat, b: nat, i: nat)
    ensures Bit(Or(a, b), i) <==> Bit(a, i) || Bit(b, i)
    decreases i
  {
    if a == 0 || b == 0 {
      BitZero(i);
    } else if i > 0 {
      BitOr(a / 2, b / 2, i - 1);
    }
  }

  lemma {:induction false} BitPow2(i: nat, j: nat)
    ensures Bit(Pow2(i), j) <==> i == j
  {
    if j == 0 {
    } else if i == 0 {
      BitZero(j - 1);
    } else {
      BitPow2(i - 1, j - 1);
    }
  }

  lemma {:induction false} BitBeyond(w: nat, n: nat, i: nat)
    requires w < Pow2(n) && n <= i
    ensures !Bit(w, i)
  {
    if n == 0 {
      BitZero(i);
    } else {
      BitBeyond(w / 2, n - 1, i - 1);
    }
  }

  /** Bits of 2^n - 1: exactly the low n. */
  lemma {:induction false} BitOnes(n: nat, i: nat)
    ensures Bit(Pow2(n) - 1, i) <==> i < n
  {
    if n == 0 {
      BitZero(i);
    } else if i > 0 {
      assert (Pow2(n) - 1) / 2 == Pow2(n - 1) - 1;
      BitOnes(n - 1, i - 1);
    }
  }

  /** A number of n digits is determined by them. */
  lemma {:induction false} SameBits(a: nat, b: nat, n: nat)
    requires a < Pow2(n) && b < Pow2(n)
    requires forall i: nat :: i < n ==> (Bit(a, i) <==> Bit(b, i))
    ensures a == b
  {
    if n > 0 {
      assert Bit(a, 0) <==> Bit(b, 0);
      forall i: nat | i < n - 1
        ensures Bit(a / 2, i) <==> Bit(b / 2, i)
      {
        assert Bit(a, i + 1) <==> Bit(b, i + 1);
      }
      SameBits(a / 2, b / 2, n - 1);
    }
  }

  lemma {:induction false} OrBelow(a: nat, b: nat, n: nat)
    requires a < Pow2(n) && b < Pow2(n)
    ensures Or(a, b) < Pow2(n)
  {
    if n > 0 && a != 0 && b != 0 {
      OrBelow(a / 2, b / 2, n - 1);
    }
  }

  /** Shifting left by k moves every bit up by k. */
  lemma {:induction false} BitShift(w: nat, k: nat, i: nat)
    ensures Bit(w * Pow2(k), i) <==> i >= k && Bit(w, i - k)
    decreases k
  {
    if k > 0 {
      assert w * Pow2(k) == 2 * (w * Pow2(k - 1)) by {
        assert Pow2(k) == 2 * Pow2(k - 1);
      }
      if i > 0 {
        assert (w * Pow2(k)) / 2 == w * Pow2(k - 1);
        BitShift(w, k - 1, i - 1);
      }
    }
  }

  lemma {:induction false} BitNot(a: nat, n: nat, i: nat)
    requires a < Pow2(n) && i < n
    ensures Bit(Pow2(n) - 1 - a, i) <==> !Bit(a, i)
  {
    if i > 0 {
      assert (Pow2(n) - 1 - a) / 2 == Pow2(n - 1) - 1 - a / 2;
      BitNot(a / 2, n - 1, i - 1);
    }
  }

  /** The complement of a word, bit by bit. */
  lemma NotBit(a: Word, i: nat)
    requires i < 64
    ensures Bit(Not(a), i) <==> !Bit(a, i)
  {
    Pow2Word();
    BitNot(a, 64, i);
  }

  /** Testing one bit: w & (1 << i). */
  lemma TestBit(w: nat, i: nat)
    ensures And(w, Pow2(i)) != 0 <==> Bit(w, i)
  {
    BitAnd(w, Pow2(i), i);
    BitPow2(i, i);
    if !Bit(w, i) {
      var n := i + 1;
      assert And(w, Pow2(i)) <= Pow2(i) < Pow2(n);
      forall j: nat | j < n
        ensures Bit(And(w, Pow2(i)), j) <==> Bit(0, j)
      {
        BitAnd(w, Pow2(i), j);
        BitPow2(i, j);
        BitZero(j);
      }
      SameBits(And(w, Pow2(i)), 0, n);
    } else {
      BitZero(i);
    }
  }

  /** Setting one bit: w |= 1 << i. */
  lemma SetBit(w: Word, i: nat)
    requires i < 64
    ensures Or(w, Pow2(i)) <= ALL_ONES
    ensures forall j: nat :: Bit(Or(w, Pow2(i)), j) <==> j == i || Bit(w, j)
  {
    Pow2Word();
    Pow2Monotone(i + 1, 64);
    OrBelow(w, Pow2(i), 64);
    forall j: nat
      ensures Bit(Or(w, Pow2(i)), j) <==> j == i || Bit(w, j)
    {
      BitOr(w, Pow2(i), j);
      BitPow2(i, j);
    }
  }

  /** Clearing one bit: w &= ~(1 << i). */
  lemma ClearBit(w: Word, i: nat)
    requires i < 64
    ensures Pow2(i) <= ALL_ONES
    ensures forall j: nat :: Bit(And(w, Not(Pow2(i))), j) <==> j != i && Bit(w, j)
  {
    Pow2Word();
    Pow2Monotone(i + 1, 64);
    forall j: nat
      ensures Bit(And(w, Not(Pow2(i))), j) <==> j != i && Bit(w, j)
    {
      BitAnd(w, Not(Pow2(i)), j);
      BitPow2(i, j);
      if j < 64 {
        NotBit(Pow2(i), j);
      } else {
        BitBeyond(w, 64, j);
      }
    }
  }

  /** Every bit of the all-ones word is set... */
  lemma BusyBit(i: nat)
    requires i < 64
    ensures Bit(ALL_ONES, i)
  {
    Pow2Word();
    BitOnes(64, i);
  }

  /** ... and a word with every bit set is all ones. */
  lemma AllBitsSet(w: Word)
    requires forall i: nat :: i < 64 ==> Bit(w, i)
    ensures w == ALL_ONES
  {
    Pow2Word();
    forall i: nat | i < 64
      ensures Bit(w, i) <==> Bit(ALL_ONES, i)
    {
      BusyBit(i);
    }
    SameBits(w, ALL_ONES, 64);
  }

  /** A word with no bit set is zero. */
  lemma NoBitsSet(w: Word)
    requires forall i: nat :: i < 64 ==> !Bit(w, i)
    ensures w == 0
  {
    Pow2Word();
    forall i: nat | i < 64
      ensures Bit(w, i) <==> Bit(0, i)
    {
      BitZero(i);
    }
    SameBits(w, 0, 64);
  }

  /** The low k bits are the remainder modulo 2^k. */
  lemma {:induction false} LowBits(w: nat, k: nat)
    ensures And(w, Pow2(k) - 1) == w % Pow2(k)
  {
    if k == 0 || w == 0 {
      Arith.DivUnique(0, Pow2(k), 0, 0);
    } else {
      LowBits(w / 2, k - 1);
      var m := Pow2(k - 1);
      Pow2Double(k);
      hide *;
      LowBitsStep(w, m);
    }
  }

  lemma LowBitsStep(w: nat, m: nat)
    requires m > 0 && And(w / 2, m - 1) == w / 2 % m
    ensures And(w, 2 * m - 1) == w % (2 * m)
  {
    HalvedMod(w, m);
    AndOnes(w, m);
  }

  lemma Pow2Double(k: nat)
    requires k > 0
    ensures Pow2(k) == 2 * Pow2(k - 1)
  {}

  lemma AndOnes(w: nat, m: nat)
    requires m > 0
    ensures And(w, 2 * m - 1) == 2 * And(w / 2, m - 1) + w % 2
  {
    assert (2 * m - 1) / 2 == m - 1 && (2 * m - 1) % 2 == 1;
  }

  lemma HalvedMod(w: nat, m: nat)
    requires m > 0
    ensures w % (2 * m) == 2 * (w / 2 % m) + w % 2
  {
    var q, r := w / 2 / m, w / 2 % m;
    assert w / 2 == q * m + r;
    assert q * (2 * m) == 2 * (q * m);
    Arith.DivUnique(w, 2 * m, q, 2 * r + w % 2);
  }
}
