/** rp_palloc.c */
module PoolAllocator {
  import opened Sequences
  import opened PoolModel

  /** The blocks are linked in order, and all of one size. */
  ghost predicate Chained(blocks: seq<Block>, size: nat)
    reads blocks`next
  {
    && NoDup(blocks)
    && (forall i {:trigger blocks[i].size} :: 0 <= i < |blocks| ==> blocks[i].size == size)
    && forall i {:trigger blocks[i].next} :: 0 <= i < |blocks| ==>
         blocks[i].next == if i + 1 < |blocks| then blocks[i + 1] else null
  }

  /** Where a block's usable bytes begin: behind the pool's header in the first, behind a
      block's header in the others. */
  function Start(b: Block, first: Block): nat {
    if b == first then POOL_SIZE else DATA_SIZE
  }

  /** Each block is used up to `last`. */
  ghost predicate Used(blocks: seq<Block>)
    requires blocks != []
    reads blocks`last
  {
    forall i {:trigger blocks[i].last} :: 0 <= i < |blocks| ==>
        Start(blocks[i], blocks[0]) <= blocks[i].last <= blocks[i].size
  }

  /** The failure counts are those of a pool whose last block was k0 when it was last reset. */
  ghost predicate Counted(blocks: seq<Block>, k0: nat)
    reads blocks`failed
  {
    forall i {:trigger blocks[i].failed} :: 0 <= i < |blocks| ==> blocks[i].failed == FailedAt(|blocks| - 1, k0, i)
  }

  /** The regions handed out are in the used part of their block, and disjoint. */
  ghost predicate Carved(regions: set<Region>, blocks: seq<Block>)
    requires blocks != []
    reads blocks`last
  {
    && (forall r :: r in regions ==> r.block in blocks && Start(r.block, blocks[0]) <= r.lo <= r.hi <= r.block.last)
    && forall r, s :: r in regions && s in regions && r != s ==> Apart(r, s)
  }

  /** The headers of large allocations, in list order; each is a region of the pool. */
  ghost predicate Headed(headers: seq<Large>, large: Large?, regions: set<Region>)
    reads headers`next
  {
    && large == (if headers == [] then null else headers[0])
    && NoDup(headers)
    && (forall i {:trigger headers[i].next} :: 0 <= i < |headers| ==>
         headers[i].next == if i + 1 < |headers| then headers[i + 1] else null)
    && forall h :: h in headers ==> Region(h.block, h.off, h.off + LARGE_SIZE) in regions
  }

  /** No large allocation has two headers. */
  ghost predicate Owned(headers: seq<Large>)
    reads headers`alloc
  {
    forall i, j {:trigger headers[i].alloc, headers[j].alloc} :: 0 <= i < j < |headers| && headers[i].alloc != null ==>
        headers[i].alloc != headers[j].alloc
  }

  /** The large allocations not yet freed. */
  ghost function Outstanding(headers: seq<Large>): set<object>
    reads headers`alloc
  {
    set h | h in headers && h.alloc != null :: h.alloc
  }

  /** What each header holds. */
  ghost function Held(headers: seq<Large>): map<Large, Big?>
    reads headers`alloc
  {
    map h | h in headers :: h.alloc
  }

  /** How far each block is used. */
  ghost function Lasts(blocks: seq<Block>): map<Block, nat>
    reads blocks`last
  {
    map b | b in blocks :: b.last
  }

  ghost function Objects(blocks: seq<Block>): set<object> {
    set b | b in blocks :: b
  }

  lemma OneBlock(b: Block)
    requires MIN_POOL_SIZE <= b.size && b.last == POOL_SIZE && b.next == null && b.failed == 0
    ensures Chained([b], b.size) && Used([b]) && Counted([b], 0)
  {}

  lemma LinkLast(blocks: seq<Block>, p: Block, size: nat, k0: nat)
    requires blocks != [] && k0 < |blocks| && p !in blocks && NoDup(blocks) && p.size == size
    requires forall i {:trigger blocks[i].size} :: 0 <= i < |blocks| ==> blocks[i].size == size
    requires forall i {:trigger blocks[i].next} :: 0 <= i < |blocks| ==>
      blocks[i].next == if i + 1 < |blocks| then blocks[i + 1] else p
    requires p.next == null && p.failed == 0
    requires forall i {:trigger blocks[i].failed} :: 0 <= i < |blocks| ==> blocks[i].failed == FailedAt(|blocks|, k0, i)
    ensures Chained(blocks + [p], size) && Counted(blocks + [p], k0)
  {}

  lemma ObjectsAppend(blocks: seq<Block>, p: Block)
    ensures Objects(blocks + [p]) == Objects(blocks) + {p}
    ensures Lasts(blocks + [p]) == Lasts(blocks)[p := p.last]
  {
    assert forall b :: b in blocks + [p] <==> b in blocks || b == p;
    assert p in blocks + [p];
  }

  /** A region behind all that is used of its block is apart from those handed out. */
  lemma CarvedMore(regions: set<Region>, blocks: seq<Block>, r: Region, was: nat)
    requires blocks != [] && r.block in blocks
    requires forall s :: s in regions ==>
      && s.block in blocks
      && Start(s.block, blocks[0]) <= s.lo <= s.hi <= (if s.block == r.block then was else s.block.last)
    requires forall s, t :: s in regions && t in regions && s != t ==> Apart(s, t)
    requires was <= r.lo <= r.hi <= r.block.last && Start(r.block, blocks[0]) <= r.lo
    ensures Carved(regions + {r}, blocks)
    ensures forall s :: s in regions ==> Apart(r, s)
  {}

  /** The n bytes at r are handed out, apart from all that was. */
  ghost predicate Took(r: Ptr, n: nat, was: set<Region>, regions: set<Region>) {
    && r.In? && regions == was + {Region(r.block, r.off, r.off + n)}
    && forall s :: s in was ==> Apart(Region(r.block, r.off, r.off + n), s)
  }

  lemma HeaderPushed(q: seq<Large>, l: Large, large: Large?, p: Big, regions: set<Region>)
    requires Headed(q, large, regions) && Owned(q) && l !in q && p !in Outstanding(q)
    requires l.alloc == p && l.next == large && Region(l.block, l.off, l.off + LARGE_SIZE) in regions
    ensures Headed([l] + q, l, regions) && Owned([l] + q) && Outstanding([l] + q) == Outstanding(q) + {p}
    ensures Held([l] + q) == Held(q)[l := p]
  {
    var s := [l] + q;
    assert forall h :: h in s <==> h == l || h in q;
    assert forall j :: 0 < j < |s| ==> s[j] == q[j - 1] && q[j - 1] in q;
  }

  lemma TookIn(r: Ptr, n: nat, was: set<Region>, regions: set<Region>)
    requires Took(r, n, was, regions)
    ensures r.In? && Region(r.block, r.off, r.off + n) in regions
  {}

  lemma Rewound(blocks: seq<Block>)
    requires blocks != [] && forall i {:trigger blocks[i]} :: 0 <= i < |blocks| ==>
      blocks[i].last == POOL_SIZE <= blocks[i].size && blocks[i].failed == 0
    ensures Used(blocks) && Counted(blocks, |blocks| - 1) && CurrentAt(|blocks| - 1, |blocks| - 1) == 0
  {}

  lemma ApartFromBlocks(blocks: seq<Block>, headers: seq<Large>)
    ensures Objects(blocks) !! Outstanding(headers)
  {}

  /** The allocations of different headers differ, so the next is not freed yet. */
  lemma StillLive(headers: seq<Large>, i: nat)
    requires Owned(headers) && i < |headers|
    ensures Outstanding(headers[..i + 1]) == Outstanding(headers[..i]) + Given(headers[i].alloc)
    ensures Outstanding(headers[..i]) !! Given(headers[i].alloc)
    ensures Given(headers[i].alloc) <= Outstanding(headers) && Outstanding(headers[..i]) <= Outstanding(headers)
  {
    assert headers[..i + 1] == headers[..i] + [headers[i]];
    assert headers[i] in headers;
    forall h | h in headers[..i]
      ensures h in headers && (headers[i].alloc != null ==> h.alloc != headers[i].alloc)
    {
      var j :| 0 <= j < i && headers[j] == h;
      assert headers[j].alloc == h.alloc;
    }
  }

  lemma NotYetFreed(blocks: seq<Block>, i: nat)
    requires NoDup(blocks) && i < |blocks|
    ensures Objects(blocks[..i + 1]) == Objects(blocks[..i]) + {blocks[i]}
    ensures blocks[i] !in Objects(blocks[..i]) && blocks[i] in Objects(blocks)
  {
    assert blocks[..i + 1] == blocks[..i] + [blocks[i]];
    ObjectsAppend(blocks[..i], blocks[i]);
    assert blocks[i] in blocks;
  }

  lemma UsedLast(blocks: seq<Block>, p: Block)
    requires blocks != [] && Used(blocks) && DATA_SIZE <= p.last <= p.size && p != blocks[0]
    ensures Used(blocks + [p])
  {}

  ghost function Given(p: Big?): set<object> {
    if p == null then {} else {p}
  }

  class Pool {
    const sys: System
    const size: nat
    const max: nat
    const first: Block
    var current: Block
    var large: Large?
    ghost var blocks: seq<Block>
    ghost var headers: seq<Large>
    ghost var regions: set<Region>
    ghost var k0: nat

    ghost predicate Blocks()
      reads this, blocks
    {
      && MIN_POOL_SIZE <= size && size % ALIGNMENT == 0 && max == Min(size - POOL_SIZE, MAX_FROM_POOL)
      && blocks != [] && blocks[0] == first && Chained(blocks, size) && Used(blocks)
      && k0 < |blocks| && Counted(blocks, k0) && current == blocks[CurrentAt(|blocks| - 1, k0)]
    }

    ghost predicate Valid()
      reads this, blocks, headers, sys
    {
      && Blocks()
      && Carved(regions, blocks)
      && Headed(headers, large, regions) && Owned(headers)
      && Objects(blocks) <= sys.live && Outstanding(headers) <= sys.live
    }

    /** What the pool has from the system. */
    ghost function Mine(): set<object>
      reads this, headers
    {
      Objects(blocks) + Outstanding(headers)
    }

    constructor (sys: System, b: Block)
      requires MIN_POOL_SIZE <= b.size && b.size % ALIGNMENT == 0
      requires b.last == POOL_SIZE && b.next == null && b.failed == 0
      ensures Blocks() && blocks == [b] && headers == [] && regions == {} && large == null && this.sys == sys
      ensures this.size == b.size && first == b && k0 == 0
    {
      hide Chained, Used, Counted;
      OneBlock(b);
      this.sys, size, max, first, current, large := sys, b.size, Min(b.size - POOL_SIZE, MAX_FROM_POOL), b, b, null;
      blocks, headers, regions, k0 := [b], [], {}, 0;
    }

    /** rp_create_pool */
    static method Create(sys: System, size: nat) returns (pool: Pool?)
      requires MIN_POOL_SIZE <= size && size % ALIGNMENT == 0
      modifies sys
      ensures pool == null ==> sys.live == old(sys.live) && sys.refusals > old(sys.refusals)
      ensures pool != null ==> fresh(pool) && pool.Valid() && pool.sys == sys && pool.size == size
      ensures pool != null ==> pool.regions == {} && pool.headers == [] && sys.live == old(sys.live) + pool.Mine()
      ensures pool != null ==> pool.blocks == [pool.first] && pool.k0 == 0 && pool.first.last == POOL_SIZE
    {
      hide Pool.Blocks;
      var b := sys.Memalign(size);
      if b == null {
        pool := null;
      } else {
        b.last, b.next, b.failed := POOL_SIZE, null, 0;
        pool := new Pool(sys, b);
        assert pool.blocks[0] in pool.blocks;
      }
    }

    // ----- what a request does to the pool and the system's ledger

    /** Nothing was carved. */
    twostate predicate Unmoved()
      reads this`blocks, this`regions, blocks`last
    {
      blocks == old(blocks) && regions == old(regions) && Lasts(blocks) == old(Lasts(blocks))
    }

    /** The headers hold what they held. */
    twostate predicate SameHeaders()
      reads this`headers, headers`alloc
    {
      && headers == old(headers) && Held(headers) == old(Held(headers))
      && Outstanding(headers) == old(Outstanding(headers))
    }

    /** The system refused memory, and nothing else changed. */
    twostate predicate Refused()
      reads this, sys, blocks`last, headers`alloc
    {
      && Unmoved() && SameHeaders()
      && sys.live == old(sys.live) && sys.refusals > old(sys.refusals)
    }

    /** What was handed out still is, and all that was got from the system is the pool's. */
    twostate predicate Granted()
      reads this, headers, sys
    {
      && old(regions) <= regions
      && sys.live == old(sys.live) + Mine() && sys.refusals == old(sys.refusals)
    }

    /** One more large allocation is outstanding. */
    twostate predicate Added(new p: Big)
      reads this, headers
    {
      Outstanding(headers) == old(Outstanding(headers)) + {p}
    }

    /** r is a new large allocation of n bytes. */
    twostate predicate NewLarge(new r: Ptr, n: nat)
      reads this, headers
    {
      r.At? && fresh(r.big) && r.big.size == n && Outstanding(headers) == old(Outstanding(headers)) + {r.big}
    }

    /** r is where a request for n bytes aligned to a belongs: behind what was used of the first
        block with room, or, if none has room, at the start of a new block behind the others. */
    twostate predicate Placed(new r: Ptr, n: nat, a: nat)
      requires r.In? && a > 0 && old(blocks) != [] && old(k0) < old(|blocks|)
      reads this`blocks
    {
      var i := old(FirstRoom(n, a));
      if i < old(|blocks|) then
        blocks == old(blocks) && r.block == blocks[i] && r.off == Align(old(blocks[i].last), a)
      else
        fresh(r.block) && blocks == old(blocks) + [r.block] && r.off == DATA_SIZE
    }

    /** n bytes were taken there: the block is used up to their end, and the others as far as
        they were. */
    twostate predicate Carves(new r: Ptr, n: nat, a: nat)
      requires a > 0 && old(blocks) != [] && old(k0) < old(|blocks|)
      reads this`blocks, this`regions, blocks`last
    {
      && Took(r, n, old(regions), regions) && Placed(r, n, a)
      && Lasts(blocks) == old(Lasts(blocks))[r.block := r.off + n]
    }

    /** The same, with nothing got from the system but the new block if there was no room. */
    twostate predicate CarvesOnly(new r: Ptr, n: nat, a: nat)
      requires a > 0 && old(blocks) != [] && old(k0) < old(|blocks|)
      reads this`blocks, this`regions, blocks`last, sys
    {
      && Carves(r, n, a) && sys.refusals == old(sys.refusals)
      && sys.live == old(sys.live) + if blocks == old(blocks) then {} else {r.block}
    }

    // ----- carving from the blocks

    /** The first block from the i-th on with room, or the number of blocks if none has. */
    ghost function RoomFrom(i: nat, n: nat, a: nat): (k: nat)
      requires a > 0 && i <= |blocks|
      ensures i <= k <= |blocks|
      decreases |blocks| - i
      reads this`blocks, blocks`last
    {
      if i == |blocks| || Room(blocks[i].last, n, a) then i else RoomFrom(i + 1, n, a)
    }

    /** The same from the current block on. */
    ghost function FirstRoom(n: nat, a: nat): (k: nat)
      requires a > 0 && blocks != [] && k0 < |blocks|
      ensures k <= |blocks|
      reads this`blocks, this`k0, blocks`last
    {
      RoomFrom(CurrentAt(|blocks| - 1, k0), n, a)
    }

    lemma {:induction false} RoomFromIs(i: nat, n: nat, a: nat)
      requires a > 0 && i <= |blocks|
      ensures var k := RoomFrom(i, n, a);
        && (k < |blocks| ==> Room(blocks[k].last, n, a))
        && forall j {:trigger blocks[j]} :: i <= j < k ==> !Room(blocks[j].last, n, a)
      decreases |blocks| - i
    {
      if i < |blocks| && !Room(blocks[i].last, n, a) {
        RoomFromIs(i + 1, n, a);
      }
    }

    /** That block has room, and none of those from the current one up to it has. */
    lemma FirstRoomIs(n: nat, a: nat)
      requires a > 0 && blocks != [] && k0 < |blocks|
      ensures var k := FirstRoom(n, a);
        && CurrentAt(|blocks| - 1, k0) <= k <= |blocks| && (k < |blocks| ==> Room(blocks[k].last, n, a))
        && forall j {:trigger blocks[j]} :: CurrentAt(|blocks| - 1, k0) <= j < k ==> !Room(blocks[j].last, n, a)
    {
      RoomFromIs(CurrentAt(|blocks| - 1, k0), n, a);
    }

    /** A header is small enough to be carved, so a large allocation needs no other for it. */
    lemma HeaderFits()
      requires Valid()
      ensures LARGE_SIZE <= max
    {}

    /** Any request up to max fits in a block that is new or reset, whichever header it has. */
    lemma ResetFits(n: nat)
      requires Blocks() && n <= max
      ensures Room(POOL_SIZE, n, ALIGNMENT) && Room(DATA_SIZE, n, ALIGNMENT)
    {}

    /** A request for n bytes fits behind a block's used part. */
    ghost predicate Room(last: nat, n: nat, a: nat)
      requires a > 0
    {
      Align(last, a) + n <= size
    }

    lemma RoomStep(i: nat, n: nat, a: nat)
      requires a > 0 && i < |blocks| && blocks[i].size == size
      ensures RoomFrom(i, n, a) == if Align(blocks[i].last, a) + n <= size then i else RoomFrom(i + 1, n, a)
    {}

    lemma BlocksFacts()
      requires Blocks()
      ensures blocks != [] && blocks[0] == first && first.size == size && max <= size - POOL_SIZE
      ensures k0 < |blocks| && current == blocks[CurrentAt(|blocks| - 1, k0)]
    {}

    lemma BlockAt(i: nat, a: nat)
      requires Blocks() && i < |blocks| && a in {1, ALIGNMENT}
      ensures blocks[i].size == size && Start(blocks[i], first) <= blocks[i].last <= Align(blocks[i].last, a) <= size
      ensures blocks[i].next == if i + 1 < |blocks| then blocks[i + 1] else null
    {
      AlignWithin(blocks[i].last, a, size);
    }

    /** The loop of rp_palloc (a is ALIGNMENT) and rp_pnalloc (a is 1): from the current block
        on, the first with room for n bytes. It looks at a bounded number of blocks. */
    method FindRoom(n: nat, a: nat) returns (p: Block?, m: nat, ghost looks: nat)
      requires Blocks() && a in {1, ALIGNMENT}
      ensures looks <= Max(7, k0 + 6)
      ensures p == if FirstRoom(n, a) < |blocks| then blocks[FirstRoom(n, a)] else null
      ensures p != null ==> m == Align(p.last, a) && m + n <= size
      ensures p != null ==> Start(p, first) <= p.last <= m
    {
      hide Align, CurrentAt, Blocks, RoomFrom, Room;
      BlocksFacts();
      SearchBound(|blocks| - 1, k0);
      ghost var c := CurrentAt(|blocks| - 1, k0);
      p, m, looks := current, 0, 0;
      while p != null
        invariant c + looks <= |blocks| && RoomFrom(c + looks, n, a) == FirstRoom(n, a)
        invariant p == if c + looks < |blocks| then blocks[c + looks] else null
        decreases |blocks| - looks
      {
        BlockAt(c + looks, a);
        RoomStep(c + looks, n, a);
        m, looks := Align(p.last, a), looks + 1;
        if p.size - m >= n {
          break;
        }
        p := p.next;
      }
    }

    /** Take n bytes where there is room. */
    method Search(n: nat, a: nat) returns (p: Block?, m: nat)
      requires Blocks() && a in {1, ALIGNMENT}
      modifies blocks`last
      ensures Blocks()
      ensures p == if old(FirstRoom(n, a)) < |blocks| then blocks[old(FirstRoom(n, a))] else null
      ensures p == null ==> Lasts(blocks) == old(Lasts(blocks)) && FirstRoom(n, a) == |blocks|
      ensures p != null ==> m == Align(old(p.last), a) && p.last == m + n
      ensures p != null ==> Lasts(blocks) == old(Lasts(blocks))[p := m + n]
      ensures p != null ==> Start(p, first) <= old(p.last) <= m
      ensures forall b :: b in blocks && b != p ==> b.last == old(b.last)
    {
      hide Align, Chained, Used, Counted, Lasts;
      ghost var looks;
      p, m, looks := FindRoom(n, a);
      if p != null {
        TakeFrom(p, FirstRoom(n, a), m, n);
      }
    }

    /** Move a block's `last` past the n bytes at m. */
    method TakeFrom(p: Block, ghost i: nat, m: nat, n: nat)
      requires Blocks() && i < |blocks| && p == blocks[i] && p.last <= m && m + n <= size
      modifies p`last
      ensures Blocks() && p.last == m + n && Lasts(blocks) == old(Lasts(blocks))[p := m + n]
    {
      assert p in blocks;
      hide FailedAt, CurrentAt;
      assert blocks[i].last >= Start(p, first);
      p.last := m + n;
    }

    /** The loop of rp_palloc_block: from the current block to the one before the last, count a
        failure, and start further searches past a block that has had enough of them. */
    method PassOver() returns (p: Block, start: Block)
      requires Blocks()
      modifies blocks`failed
      ensures p == blocks[|blocks| - 1] && start == blocks[CurrentAt(|blocks|, k0)]
      ensures forall j {:trigger blocks[j].failed} :: 0 <= j < |blocks| ==>
        blocks[j].failed == FailedAt(|blocks|, k0, j)
    {
      hide FailedAt, CurrentAt, Used;
      ghost var k, c := |blocks| - 1, CurrentAt(|blocks| - 1, k0);
      ghost var i := c;
      SearchStart(k, k0);
      p, start := current, current;
      Passed(k, k0);
      while p.next != null
        invariant c <= i <= k && p == blocks[i] && start == blocks[Min(i, CurrentAt(k + 1, k0))]
        invariant forall j {:trigger blocks[j].failed} :: 0 <= j < |blocks| ==>
          blocks[j].failed == FailedAt(if j < i then k + 1 else k, k0, j)
        decreases k - i
      {
        FailedStep(k, k0, i);
        assert p.failed == blocks[i].failed;
        var failed := p.failed;
        p.failed := p.failed + 1;
        if failed > 4 {
          start := p.next;
        }
        p, i := p.next, i + 1;
      }
      FailedStep(k, k0, k);
    }

    /** Link a new block behind the others. */
    method Attach(p: Block)
      requires Blocks() && p !in blocks && p.size == size && p.next == null && p.failed == 0
      requires DATA_SIZE <= p.last <= size
      modifies this`current, this`blocks, blocks`next, blocks`failed
      ensures Blocks() && blocks == old(blocks) + [p]
    {
      hide FailedAt, CurrentAt, Used;
      ghost var q := blocks;
      var tail, start := PassOver();
      SearchStart(|q| - 1, k0);
      tail.next := p;
      assert start == (q + [p])[CurrentAt(|q|, k0)];
      FailedStep(|q|, k0, |q|);
      LinkLast(q, p, size, k0);
      UsedLast(q, p);
      hide Chained, Counted;
      current := start;
      blocks := q + [p];
    }

    /** rp_palloc_block: a new block, its first n bytes taken. */
    method AppendBlock(n: nat) returns (p: Block?)
      requires Blocks() && n <= max && Objects(blocks) <= sys.live
      modifies this`current, this`blocks, blocks`next, blocks`failed, sys
      ensures Blocks() && Objects(blocks) <= sys.live
      ensures p == null ==> blocks == old(blocks) && sys.live == old(sys.live) && sys.refusals > old(sys.refusals)
      ensures p != null ==> fresh(p) && blocks == old(blocks) + [p] && p.last == DATA_SIZE + n
      ensures Lasts(blocks) == if p == null then old(Lasts(blocks)) else old(Lasts(blocks))[p := DATA_SIZE + n]
      ensures p != null ==> sys.live == old(sys.live) + {p} && sys.refusals == old(sys.refusals)
    {
      hide Blocks, Lasts, Objects;
      BlocksFacts();
      assert Align(DATA_SIZE, ALIGNMENT) == DATA_SIZE;
      hide Align;
      p := sys.Memalign(first.size);
      if p != null {
        p.next, p.failed := null, 0;
        p.last := Align(DATA_SIZE, ALIGNMENT) + n;
        ghost var q := blocks;
        Attach(p);
        ObjectsAppend(q, p);
      }
    }

    /** Carve from the first block that has room, if any has. */
    method CarveFound(n: nat, a: nat) returns (r: Ptr)
      requires Blocks() && Carved(regions, blocks) && a in {1, ALIGNMENT}
      modifies this`regions, blocks`last
      ensures Blocks() && Carved(regions, blocks)
      ensures r == Null <==> old(FirstRoom(n, a)) == |blocks|
      ensures r == Null ==> FirstRoom(n, a) == |blocks| && Unmoved()
      ensures r != Null ==> Carves(r, n, a) && r.off % a == 0
    {
      hide FailedAt, CurrentAt, Chained, Counted, Used, Align, Room, FirstRoom;
      hide Lasts;
      var p, m := Search(n, a);
      if p == null {
        r := Null;
      } else {
        r := In(p, m);
        AlignUp(old(p.last), a);
        CarvedMore(regions, blocks, Region(p, m, m + n), old(p.last));
        regions := regions + {Region(p, m, m + n)};
        hide Blocks, Carved;
      }
    }

    /** Carve from a new block, when there is no room. */
    method CarveNew(n: nat, ghost a: nat) returns (r: Ptr)
      requires Blocks() && Carved(regions, blocks) && n <= max && Objects(blocks) <= sys.live
      requires a > 0 && FirstRoom(n, a) == |blocks|
      modifies this`regions, this`current, this`blocks, blocks`next, blocks`failed, sys
      ensures Blocks() && Carved(regions, blocks) && Objects(blocks) <= sys.live
      ensures r == Null ==> Refused()
      ensures r != Null ==> CarvesOnly(r, n, a) && r.off == DATA_SIZE
    {
      hide FailedAt, CurrentAt, Chained, Counted, FirstRoom;
      hide Lasts;
      var p := AppendBlock(n);
      if p == null {
        r := Null;
      } else {
        r := In(p, DATA_SIZE);
        CarvedMore(regions, blocks, Region(p, DATA_SIZE, DATA_SIZE + n), DATA_SIZE);
        regions := regions + {Region(p, DATA_SIZE, DATA_SIZE + n)};
        hide Blocks;
      }
    }

    /** Carve n bytes, aligned to a, from the first block from the current one on that has room,
        or from a new one. */
    method CarveAny(n: nat, a: nat) returns (r: Ptr)
      requires Blocks() && Carved(regions, blocks) && Objects(blocks) <= sys.live && n <= max && a in {1, ALIGNMENT}
      modifies this`current, this`blocks, this`regions, blocks`last, blocks`next, blocks`failed, sys
      ensures Blocks() && Carved(regions, blocks) && Objects(blocks) <= sys.live && old(sys.live) <= sys.live
      ensures r == Null ==> old(FirstRoom(n, a)) == |blocks| && Refused()
      ensures r != Null ==> CarvesOnly(r, n, a) && r.off % a == 0
    {
      hide CurrentAt, Blocks, Carved, Took, Room, Align, Objects;
      r := CarveFound(n, a);
      if r == Null {
        r := CarveNew(n, a);
      }
    }

    /** The same, in a pool with its large allocations. */
    method FromBlocks(n: nat, a: nat) returns (r: Ptr)
      requires Valid() && n <= max && a in {1, ALIGNMENT}
      modifies this`current, this`blocks, this`regions, blocks`last, blocks`next, blocks`failed, sys
      ensures Valid()
      ensures r == Null ==> old(FirstRoom(n, a)) == |blocks| && Refused()
      ensures r != Null ==> CarvesOnly(r, n, a) && r.off % a == 0
    {
      hide Blocks, Carved, Align;
      r := CarveAny(n, a);
    }

    // ----- large allocations

    /** The first header from the i-th on that has nothing, or the number of headers. */
    ghost function EmptyFrom(i: nat): (k: nat)
      requires i <= |headers|
      ensures i <= k <= |headers| && (k < |headers| ==> headers[k].alloc == null)
      ensures forall j {:trigger headers[j].alloc} :: i <= j < k ==> headers[j].alloc != null
      decreases |headers| - i
      reads this`headers, headers`alloc
    {
      if i == |headers| || headers[i].alloc == null then i else EmptyFrom(i + 1)
    }

    /** One of the first five headers has nothing. */
    ghost predicate SomeSlot()
      reads this`headers, headers`alloc
    {
      EmptyFrom(0) < Min(5, |headers|)
    }

    /** Among the first five headers, the first whose allocation was freed. */
    method FindSlot() returns (l: Large?, ghost looks: nat)
      requires Headed(headers, large, regions)
      ensures l == if SomeSlot() then headers[EmptyFrom(0)] else null
      ensures looks <= 5
    {
      l, looks := large, 0;
      var n := 0;
      while l != null
        invariant looks == n <= 4 && looks <= |headers| && l == if looks < |headers| then headers[looks] else null
        invariant EmptyFrom(looks) == EmptyFrom(0)
        decreases |headers| - looks
      {
        looks := looks + 1;
        if l.alloc == null {
          return;
        }
        n := n + 1;
        if n - 1 > 3 {
          l := null;
          return;
        }
        l := l.next;
      }
    }

    /** The first header that had nothing has p, and nothing was carved. */
    twostate predicate Reused(new p: Big)
      requires old(SomeSlot())
      reads this, headers`alloc, blocks`last
    {
      headers == old(headers) && Held(headers) == old(Held(headers))[old(headers[EmptyFrom(0)]) := p] && Unmoved()
    }

    /** A header for p, carved from the blocks, is in front of those there were. */
    twostate predicate NewHeader(new p: Big)
      requires old(blocks) != [] && old(k0) < old(|blocks|)
      reads this, headers`alloc, blocks`last
    {
      && headers != [] && headers[1..] == old(headers) && Held(headers) == old(Held(headers))[headers[0] := p]
      && Carves(In(headers[0].block, headers[0].off), LARGE_SIZE, ALIGNMENT)
    }

    /** p has a header: one of the first five that had nothing, or a new one if none had. */
    twostate predicate Recorded(new p: Big)
      requires old(blocks) != [] && old(k0) < old(|blocks|)
      reads this, headers`alloc, blocks`last
    {
      if old(SomeSlot()) then Reused(p) else NewHeader(p)
    }

    lemma ValidFacts()
      requires Valid()
      ensures Headed(headers, large, regions) && blocks != [] && k0 < |blocks|
    {}

    /** Put a header for p, carved from the blocks, in front of the list. */
    method PushHeader(p: Big) returns (ok: bool)
      requires Valid() && p !in Outstanding(headers) && p in sys.live
      modifies this`current, this`blocks, this`regions, this`large, this`headers, blocks`last, blocks`next,
        blocks`failed, headers`alloc, sys
      ensures Valid()
      ensures !ok ==> Refused()
      ensures ok ==> Granted() && Added(p) && NewHeader(p)
      decreases 1
    {
      hide Valid, Took, FirstRoom, Lasts, Held;
      HeaderFits();
      var r := Palloc(LARGE_SIZE);
      ok := r != Null;
      if ok {
        TookIn(r, LARGE_SIZE, old(regions), regions);
        AddHeader(p, r);
      }
    }

    method AddHeader(p: Big, r: Ptr)
      requires Valid() && p !in Outstanding(headers) && p in sys.live && r.In?
      requires Region(r.block, r.off, r.off + LARGE_SIZE) in regions
      modifies this`large, this`headers
      ensures Valid() && Added(p) && headers != [] && headers[1..] == old(headers)
      ensures Held(headers) == old(Held(headers))[headers[0] := p] && In(headers[0].block, headers[0].off) == r
    {
      hide FailedAt, CurrentAt;
      ghost var q := headers;
      var l := new Large(r.block, r.off, p, large);
      HeaderPushed(q, l, large, p, regions);
      hide Headed, Owned, Outstanding, Held;
      large, headers := l, [l] + q;
    }

    /** Give p a header: one that is free among the first five, or a new one. */
    method Record(p: Big) returns (ok: bool)
      requires Valid() && p !in Outstanding(headers) && p in sys.live
      modifies this`current, this`blocks, this`regions, this`large, this`headers, blocks`last, blocks`next,
        blocks`failed, headers`alloc, sys
      ensures Valid()
      ensures !ok ==> Refused()
      ensures ok ==> Granted() && Added(p) && Recorded(p)
      decreases 2
    {
      hide Valid, Took, FirstRoom, Align, Outstanding, Mine, Lasts, Held;
      ValidFacts();
      ghost var looks;
      var l;
      l, looks := FindSlot();
      if l != null {
        Reuse(l, p);
        ok := true;
      } else {
        ok := PushHeader(p);
      }
    }

    /** Get a large allocation from the system. */
    method AskLarge(n: nat) returns (p: Big?)
      requires Valid()
      modifies sys
      ensures Valid()
      ensures p == null ==> sys.live == old(sys.live) && sys.refusals > old(sys.refusals)
      ensures p != null ==> fresh(p) && p.size == n && p !in Outstanding(headers) && p !in Mine()
      ensures p != null ==> sys.live == old(sys.live) + {p} && sys.refusals == old(sys.refusals)
    {
      hide Blocks, Carved, Headed, Owned;
      p := sys.Malloc(n);
    }

    /** Give back one that has no header. */
    method GiveBack(p: Big)
      requires Valid() && p in sys.live && p !in Mine()
      modifies sys
      ensures Valid() && sys.live == old(sys.live) - {p} && sys.refusals == old(sys.refusals)
    {
      hide Blocks, Carved, Headed, Owned;
      sys.Free(p);
    }

    /** Give p a header, or give it back to the system. */
    method RecordOrGiveBack(p: Big) returns (ok: bool)
      requires Valid() && p in sys.live && p !in Mine()
      modifies this`current, this`blocks, this`regions, this`large, this`headers, blocks`last, blocks`next,
        blocks`failed, headers`alloc, sys
      ensures Valid()
      ensures !ok ==> Unmoved() && SameHeaders()
      ensures !ok ==> sys.live == old(sys.live) - {p} && sys.refusals > old(sys.refusals)
      ensures ok ==> Granted() && Added(p) && Recorded(p)
      decreases 3
    {
      hide Valid, Recorded, Granted, Outstanding, Objects;
      ValidFacts();
      ok := Record(p);
      if !ok {
        GiveBack(p);
      }
    }

    /** rp_palloc_large */
    method PallocLarge(n: nat) returns (r: Ptr)
      requires Valid()
      modifies this`current, this`blocks, this`regions, this`large, this`headers, blocks`last, blocks`next,
        blocks`failed, headers`alloc, sys
      ensures Valid()
      ensures r == Null ==> Refused()
      ensures r != Null ==> Granted() && NewLarge(r, n) && Recorded(r.big)
      decreases 4
    {
      hide Valid, Took, FirstRoom, Align, Outstanding, Objects, SomeSlot, Lasts, Held;
      ValidFacts();
      var p := AskLarge(n);
      if p == null {
        return Null;
      }
      ghost var slot := SomeSlot();
      var ok := RecordOrGiveBack(p);
      if !ok {
        hide Reused, NewHeader, Recorded;
        return Null;
      }
      if slot {
        assert Reused(p) by {
          hide NewHeader, Granted, Added, Refused, Mine;
        }
      } else {
        assert NewHeader(p) by {
          hide Reused, Granted, Added, Refused, Mine;
        }
      }
      r := At(p);
      hide Reused, NewHeader;
    }

    /** Use the first header that has nothing again. */
    method Reuse(l: Large, p: Big)
      requires Valid() && SomeSlot() && l == headers[EmptyFrom(0)] && p !in Outstanding(headers) && p in sys.live
      modifies l`alloc
      ensures Valid() && Granted() && Added(p) && Reused(p)
    {
      hide Blocks, Carved, Owned, Objects;
      assert Headed(headers, large, regions);
      hide Headed;
      Refill(l, EmptyFrom(0), p);
    }

    /** Use a header again. */
    method Refill(l: Large, ghost i: nat, p: Big)
      requires Valid() && i < |headers| && l == headers[i] && l.alloc == null && p !in Outstanding(headers)
      requires p in sys.live
      modifies l`alloc
      ensures Valid() && Added(p) && l.alloc == p
    {
      hide Blocks, Carved;
      assert forall j {:trigger headers[j].alloc} :: 0 <= j < |headers| ==> headers[j] in headers;
      l.alloc := p;
    }

    /** rp_palloc */
    method Palloc(n: nat) returns (r: Ptr)
      requires Valid()
      modifies this`current, this`blocks, this`regions, this`large, this`headers, blocks`last, blocks`next,
        blocks`failed, headers`alloc, sys
      ensures Valid()
      ensures r == Null || n <= max ==> SameHeaders()
      ensures if r == Null then Refused() else Granted()
      ensures r == Null && n <= max ==> old(FirstRoom(n, ALIGNMENT)) == |blocks|
      ensures r != Null && n <= max ==> CarvesOnly(r, n, ALIGNMENT) && r.off % ALIGNMENT == 0
      ensures r != Null && n > max ==> NewLarge(r, n) && Recorded(r.big)
      decreases if n <= max then 0 else 5
    {
      hide Blocks, Carved, Recorded;
      if n <= max {
        r := FromBlocks(n, ALIGNMENT);
        assert r != Null ==> r.block in blocks;
      } else {
        r := PallocLarge(n);
      }
    }

    /** rp_pnalloc: as rp_palloc, unaligned. */
    method Pnalloc(n: nat) returns (r: Ptr)
      requires Valid()
      modifies this`current, this`blocks, this`regions, this`large, this`headers, blocks`last, blocks`next,
        blocks`failed, headers`alloc, sys
      ensures Valid()
      ensures r == Null || n <= max ==> SameHeaders()
      ensures if r == Null then Refused() else Granted()
      ensures r == Null && n <= max ==> old(FirstRoom(n, 1)) == |blocks|
      ensures r != Null && n <= max ==> CarvesOnly(r, n, 1)
      ensures r != Null && n <= max && blocks == old(blocks) ==> r.off == old(Lasts(blocks))[r.block]
      ensures r != Null && n > max ==> NewLarge(r, n) && Recorded(r.big)
    {
      hide Blocks, Carved, Recorded;
      if n <= max {
        r := FromBlocks(n, 1);
        assert r != Null ==> r.block in blocks;
      } else {
        r := PallocLarge(n);
      }
    }

    /** rp_pmemalign: the system's own alignment, never a header used before. */
    method Pmemalign(n: nat) returns (r: Ptr)
      requires Valid()
      modifies this`current, this`blocks, this`regions, this`large, this`headers, blocks`last, blocks`next,
        blocks`failed, headers`alloc, sys
      ensures Valid()
      ensures r == Null ==> Refused()
      ensures r != Null ==> Granted() && NewLarge(r, n) && NewHeader(r.big)
    {
      hide Valid, Took, FirstRoom, Align, Outstanding, Objects, Lasts, Held;
      ValidFacts();
      var p := AskLarge(n);
      if p == null {
        return Null;
      }
      var ok := PushHeader(p);
      if !ok {
        GiveBack(p);
        return Null;
      }
      r := At(p);
    }

    // ----- giving back

    /** rp_pfree. Freeing NULL frees nothing, but finds a header whose allocation was freed. */
    method Pfree(p: Big?) returns (code: int)
      requires Valid()
      modifies headers`alloc, sys
      ensures Valid() && sys.refusals == old(sys.refusals)
      ensures Held(headers) == map h | h in headers :: if old(h.alloc) == p then null else old(h.alloc)
      ensures code == if exists h :: h in headers && old(h.alloc) == p then 0 else -1
      ensures code == -1 ==> sys.live == old(sys.live) && Held(headers) == old(Held(headers))
      ensures code == 0 ==>
        Outstanding(headers) == old(Outstanding(headers)) - Given(p) && sys.live == old(sys.live) - Given(p)
    {
      hide Blocks, Carved, Objects, Outstanding;
      var l := large;
      ghost var i := 0;
      while l != null
        invariant 0 <= i <= |headers| && l == if i < |headers| then headers[i] else null
        invariant forall j {:trigger headers[j].alloc} :: 0 <= j < i ==> headers[j].alloc != p
        decreases |headers| - i
        modifies {}
      {
        if p == l.alloc {
          break;
        }
        l, i := l.next, i + 1;
      }
      if l == null {
        code := -1;
      } else {
        Release(l, i);
        code := 0;
      }
    }

    /** Free the allocation of header i. */
    method Release(l: Large, ghost i: nat)
      requires Valid() && i < |headers| && l == headers[i]
      modifies l`alloc, sys
      ensures Valid() && sys.refusals == old(sys.refusals) && Held(headers) == old(Held(headers))[l := null]
      ensures Outstanding(headers) == old(Outstanding(headers)) - Given(old(l.alloc))
      ensures sys.live == old(sys.live) - Given(old(l.alloc))
    {
      hide Blocks, Carved;
      if l.alloc != null {
        sys.Free(l.alloc);
      }
      l.alloc := null;
    }

    /** A header is read where it is: in a block that must still be there. */
    method ReadHeader(l: Large) returns (alloc: Big?, next: Large?)
      requires l.block in sys.live
      ensures alloc == l.alloc && next == l.next
    {
      alloc, next := l.alloc, l.next;
    }

    method ReadNext(b: Block) returns (next: Block?)
      requires b in sys.live
      ensures next == b.next
    {
      next := b.next;
    }

    /** Free what the headers hold. */
    method FreeLarges()
      requires Valid()
      modifies sys
      ensures sys.live == old(sys.live) - Outstanding(headers) && sys.refusals == old(sys.refusals)
      ensures Objects(blocks) <= sys.live
    {
      hide Blocks, Chained, Used, Counted;
      var l := large;
      ghost var i := 0;
      ApartFromBlocks(blocks, headers);
      while l != null
        invariant 0 <= i <= |headers| && l == if i < |headers| then headers[i] else null
        invariant sys.live == old(sys.live) - Outstanding(headers[..i]) && sys.refusals == old(sys.refusals)
        decreases |headers| - i
        modifies sys
      {
        StillLive(headers, i);
        assert l.block in blocks && l.block in Objects(blocks);
        var alloc, next := ReadHeader(l);
        if alloc != null {
          sys.Free(alloc);
        }
        l, i := next, i + 1;
      }
      assert headers[..i] == headers;
    }

    /** rp_reset_pool: free the large allocations, and start again with the blocks there are. */
    method Reset()
      requires Valid()
      modifies this`current, this`large, this`headers, this`regions, this`k0, blocks`last, blocks`failed, sys
      ensures Valid() && headers == [] && regions == {} && k0 == |blocks| - 1 && current == first
      ensures sys.live == old(sys.live) - old(Outstanding(headers)) && sys.refusals == old(sys.refusals)
      ensures forall i {:trigger blocks[i]} :: 0 <= i < |blocks| ==> blocks[i].last == POOL_SIZE
    {
      hide Blocks, Chained, Used, Counted;
      FreeLarges();
      StartAgain();
    }

    method StartAgain()
      requires Blocks()
      modifies this`current, this`large, this`headers, this`regions, this`k0, blocks`last, blocks`failed
      ensures Blocks() && headers == [] && regions == {} && large == null && k0 == |blocks| - 1 && current == first
      ensures forall i {:trigger blocks[i]} :: 0 <= i < |blocks| ==> blocks[i].last == POOL_SIZE
    {
      hide Used, Counted;
      RewindBlocks();
      current, large := first, null;
      headers, regions, k0 := [], {}, |blocks| - 1;
      Rewound(blocks);
    }

    method RewindBlocks()
      requires POOL_SIZE <= size && Chained(blocks, size) && blocks != [] && first == blocks[0]
      modifies blocks`last, blocks`failed
      ensures Chained(blocks, size)
      ensures forall i {:trigger blocks[i]} :: 0 <= i < |blocks| ==>
        blocks[i].last == POOL_SIZE <= blocks[i].size && blocks[i].failed == 0
    {
      var p: Block? := first;
      ghost var i := 0;
      while p != null
        invariant 0 <= i <= |blocks| && p == if i < |blocks| then blocks[i] else null
        invariant forall j {:trigger blocks[j]} :: 0 <= j < i ==> blocks[j].last == POOL_SIZE && blocks[j].failed == 0
        decreases |blocks| - i
      {
        p.last, p.failed := POOL_SIZE, 0;
        p, i := p.next, i + 1;
      }
    }

    /** rp_destroy_pool: the large allocations, then the blocks, each read before it is freed. */
    method Destroy()
      requires Valid()
      modifies sys
      ensures sys.live == old(sys.live) - Mine() && sys.refusals == old(sys.refusals)
    {
      FreeLarges();
      FreeBlocks();
    }

    method FreeBlocks()
      requires Chained(blocks, size) && blocks != [] && first == blocks[0] && Objects(blocks) <= sys.live
      modifies sys
      ensures sys.live == old(sys.live) - Objects(blocks) && sys.refusals == old(sys.refusals)
    {
      var p := first;
      NotYetFreed(blocks, 0);
      var n := ReadNext(first);
      ghost var i := 0;
      while true
        invariant 0 <= i < |blocks| && p == blocks[i] && n == p.next
        invariant sys.live == old(sys.live) - Objects(blocks[..i]) && sys.refusals == old(sys.refusals)
        decreases |blocks| - i
      {
        NotYetFreed(blocks, i);
        sys.Free(p);
        if n == null {
          assert blocks[..i + 1] == blocks;
          break;
        }
        p, i := n, i + 1;
        NotYetFreed(blocks, i);
        n := ReadNext(p);
      }
    }
  }
}
