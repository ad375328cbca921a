/** The pool allocator of rp_palloc.c: a chain of equal blocks carved from the front, with a
    failure count that decides where a search starts, and a list of large allocations whose
    headers are themselves carved from the blocks. An address in a block is an offset into it. */
module PoolModel {
  import Arith

  const DATA_SIZE := 32
  const POOL_SIZE := 56
  const LARGE_SIZE := 16
  const MIN_POOL_SIZE := 96
  const MAX_FROM_POOL := 4095
  const ALIGNMENT := 8

  /** One memory block; `last` is the offset of its first unused byte. */
  class Block {
    const size: nat
    var last: nat
    var next: Block?
    var failed: nat

    constructor (size: nat)
      ensures this.size == size
    {
      this.size := size;
    }
  }

  /** An allocation taken straight from the system. */
  class Big {
    const size: nat

    constructor (size: nat)
      ensures this.size == size
    {
      this.size := size;
    }
  }

  /** The header of a large allocation, in the pool's own memory at `off` in `block`. */
  class Large {
    const block: Block
    const off: nat
    var next: Large?
    var alloc: Big?

    constructor (block: Block, off: nat, alloc: Big, next: Large?)
      ensures this.block == block && this.off == off && this.alloc == alloc && this.next == next
    {
      this.block, this.off, this.alloc, this.next := block, off, alloc, next;
    }
  }

  /** The system's ledger: what it has handed out and not got back, and how often it refused. */
  class System {
    ghost var live: set<object>
    ghost var refusals: nat

    constructor ()
      ensures live == {} && refusals == 0
    {
      live, refusals := {}, 0;
    }

    method Memalign(size: nat) returns (b: Block?)
      modifies this
      ensures b != null ==> fresh(b) && b.size == size && live == old(live) + {b} && refusals == old(refusals)
      ensures b == null ==> live == old(live) && refusals == old(refusals) + 1
    {
      if * {
        b := null;
        refusals := refusals + 1;
      } else {
        b := new Block(size);
        live := live + {b};
      }
    }

    method Malloc(size: nat) returns (p: Big?)
      modifies this
      ensures p != null ==> fresh(p) && p.size == size && live == old(live) + {p} && refusals == old(refusals)
      ensures p == null ==> live == old(live) && refusals == old(refusals) + 1
    {
      if * {
        p := null;
        refusals := refusals + 1;
      } else {
        p := new Big(size);
        live := live + {p};
      }
    }

    /** Only what is live may be freed. */
    method Free(x: object)
      requires x in live
      modifies this
      ensures live == old(live) - {x} && refusals == old(refusals)
    {
      live := live - {x};
    }
  }

  function Align(n: nat, a: nat): (m: nat)
    requires a > 0
  {
    (n + (a - 1)) / a * a
  }

  lemma AlignUp(n: nat, a: nat)
    requires a > 0
    ensures n <= Align(n, a) < n + a && Align(n, a) % a == 0
    ensures forall e: nat :: n <= e && e % a == 0 ==> Align(n, a) <= e
  {
    var q := (n + (a - 1)) / a;
    assert n + (a - 1) == q * a + (n + (a - 1)) % a;
    Arith.DivUnique(q * a, a, q, 0);
    forall e: nat | n <= e && e % a == 0
      ensures q * a <= e
    {
      assert e == e / a * a;
      if q * a > e {
        Arith.Multiples(e, q * a, a);
      }
    }
  }

  lemma AlignWithin(n: nat, a: nat, size: nat)
    requires a in {1, ALIGNMENT} && n <= size && size % ALIGNMENT == 0
    ensures n <= Align(n, a) <= size && (a == 1 ==> Align(n, a) == n)
  {
    AlignUp(n, a);
  }

  // ----- the failure counts

  function Min(a: int, b: int): int { if a < b then a else b }

  function Max(a: int, b: int): int { if a > b then a else b }

  /** How often the search has passed block i in vain, counted when a block is appended: k is
      the last block, k0 was the last when the pool was made or last reset. */
  function FailedAt(k: nat, k0: nat, i: nat): (f: int) {
    Min(6, Max(0, k - 1 - Max(i, k0 - 1)))
  }

  /** Where the search starts. */
  function CurrentAt(k: nat, k0: nat): (c: int) {
    if k - k0 < 6 then 0 else k - 6
  }

  /** No search looks at more blocks than this: seven, if the pool was never reset. */
  lemma SearchBound(k: nat, k0: nat)
    requires k0 <= k
    ensures 0 <= CurrentAt(k, k0) <= k
    ensures k - CurrentAt(k, k0) + 1 <= Max(7, k0 + 6)
    ensures k0 <= 1 ==> k - CurrentAt(k, k0) + 1 <= 7
  {}

  /** Appending block k + 1 counts one failure more for each block from the start of the search
      to the one before the last; the sixth moves the start past the block. */
  lemma FailedStep(k: nat, k0: nat, i: nat)
    requires k0 <= k && i <= k
    ensures var c := CurrentAt(k, k0);
      FailedAt(k + 1, k0, i) == if c <= i < k then FailedAt(k, k0, i) + 1 else FailedAt(k, k0, i)
    ensures CurrentAt(k, k0) <= i < k ==> (FailedAt(k, k0, i) > 4 <==> i < CurrentAt(k + 1, k0))
  {}

  lemma SearchStart(k: nat, k0: nat)
    requires k0 <= k
    ensures 0 <= CurrentAt(k, k0) <= CurrentAt(k + 1, k0) <= k
  {}

  /** Blocks before the start are counted no further. */
  lemma Passed(k: nat, k0: nat)
    requires k0 <= k
    ensures forall i: nat {:trigger FailedAt(k, k0, i)} {:trigger FailedAt(k + 1, k0, i)} :: i < CurrentAt(k, k0) ==>
      FailedAt(k + 1, k0, i) == FailedAt(k, k0, i)
  {}

  datatype Ptr = Null | In(block: Block, off: nat) | At(big: Big)

  /** Bytes lo to hi of a block. */
  datatype Region = Region(block: Block, lo: nat, hi: nat)

  predicate Apart(r: Region, s: Region) {
    r.block != s.block || r.hi <= s.lo || s.hi <= r.lo
  }
}
