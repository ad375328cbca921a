/** The state of a slab pool as values: descriptors with packed links, bitmaps, and the
    abstract picture (page kinds and list contents) they have to agree with. */
module SlabModel {
  import opened Sequences
  import opened Words

  const PAGE_SIZE: nat := 4096
  const PAGE_SHIFT: nat := 12
  const PAGE_WORDS: nat := 512
  const MAX_SIZE: nat := 2048
  const EXACT_SHIFT: nat := 6
  const MAP_SHIFT: nat := 32
  const SHIFT_MASK: Word := 0xf
  const MAP_MASK: Word := 0xffff_ffff_0000_0000
  const PAGE_START: Word := 0x8000_0000_0000_0000
  const MAX_PAGES: nat := 0x10_0000_0000_0000

  const TAG_PAGE: nat := 0
  const TAG_BIG: nat := 1
  const TAG_EXACT: nat := 2
  const TAG_SMALL: nat := 3

  // ----- descriptors and their links

  const NULL: nat := 0

  /** A page descriptor. `next` holds a reference; `prev` a reference plus a type tag. */
  datatype Page = Page(slab: Word, next: nat, prev: nat)

  /** The reference to descriptor x; its two low bits are clear. */
  function Ref(x: nat): nat { 4 * (x + 1) }

  function Untag(r: nat): nat { r / 4 * 4 }

  function TagOf(r: nat): nat { r % 4 }

  function Deref(r: nat): nat
    requires r >= 4
  {
    r / 4 - 1
  }

  predicate ValidRef(pages: seq<Page>, r: nat) {
    r % 4 == 0 && 4 <= r <= 4 * |pages|
  }

  /** r->next = v */
  function SetNext(pages: seq<Page>, r: nat, v: nat): (out: seq<Page>)
    requires ValidRef(pages, r)
    ensures |out| == |pages|
  {
    pages[Deref(r) := pages[Deref(r)].(next := v)]
  }

  /** r->prev = v */
  function SetPrev(pages: seq<Page>, r: nat, v: nat): (out: seq<Page>)
    requires ValidRef(pages, r)
    ensures |out| == |pages|
  {
    pages[Deref(r) := pages[Deref(r)].(prev := v)]
  }

  /** The member at position i of the ring made of sentinel s and the list q. */
  function At(s: nat, q: seq<nat>, i: int): nat {
    if 0 <= i < |q| then q[i] else s
  }

  /** The links of the list q between its sentinel s, every `prev` tagged. The sentinel's
      own `prev` is not constrained: it is never read. */
  ghost predicate Ring(pages: seq<Page>, s: nat, q: seq<nat>, tag: nat) {
    && s < |pages|
    && pages[s].next == Ref(At(s, q, 0))
    && (forall i :: 0 <= i < |q| ==> q[i] < |pages|)
    && forall i {:trigger pages[q[i]]} :: 0 <= i < |q| ==>
        && pages[q[i]].next == Ref(At(s, q, i + 1))
        && pages[q[i]].prev == Ref(At(s, q, i - 1)) + tag
  }

  ghost predicate Apart(s: nat, q: seq<nat>) {
    NoDup(q) && s !in q
  }

  /** Pages off the ring, and all `slab` words, are as before. */
  ghost predicate OnlyLinks(before: seq<Page>, after: seq<Page>, s: nat, q: seq<nat>) {
    && |after| == |before|
    && (forall y :: 0 <= y < |before| ==> after[y].slab == before[y].slab)
    && forall y :: 0 <= y < |before| && y != s && y !in q ==> after[y] == before[y]
  }

  lemma RingFrame(before: seq<Page>, after: seq<Page>, s: nat, q: seq<nat>, tag: nat)
    requires Ring(before, s, q, tag)
    requires |after| == |before| && after[s].next == before[s].next
    requires forall i {:trigger after[q[i]]} :: 0 <= i < |q| ==>
      after[q[i]].next == before[q[i]].next && after[q[i]].prev == before[q[i]].prev
    ensures Ring(after, s, q, tag)
  {}

  lemma WithoutMembers(q: seq<nat>, i: nat, y: nat)
    requires i < |q| && NoDup(q)
    ensures NoDup(Without(q, i))
    ensures y in Without(q, i) <==> y in q && y != q[i]
  {
    var r := Without(q, i);
    if y in q && y != q[i] {
      var j :| 0 <= j < |q| && q[j] == y;
      assert r[if j < i then j else j - 1] == y;
    }
    if y in r {
      var j :| 0 <= j < |r| && r[j] == y;
      assert q[if j < i then j else j + 1] == y;
    }
  }

  /** prev->next = page->next; page->next->prev = page->prev */
  function Unlinked(pages: seq<Page>, x: nat): (out: seq<Page>)
    requires x < |pages|
    requires ValidRef(pages, Untag(pages[x].prev)) && ValidRef(pages, pages[x].next)
    ensures |out| == |pages|
  {
    SetPrev(SetNext(pages, Untag(pages[x].prev), pages[x].next), pages[x].next, pages[x].prev)
  }

  lemma UnlinkedLinks(pages: seq<Page>, x: nat, before: nat, after: nat, tag: nat)
    requires x < |pages| && before < |pages| && after < |pages| && tag < 4
    requires pages[x].prev == Ref(before) + tag && pages[x].next == Ref(after)
    ensures ValidRef(pages, Untag(pages[x].prev)) && ValidRef(pages, pages[x].next)
    ensures forall y :: 0 <= y < |pages| ==>
      Unlinked(pages, x)[y] == Page(pages[y].slab,
                                    if y == before then Ref(after) else pages[y].next,
                                    if y == after then Ref(before) + tag else pages[y].prev)
  {
    assert Untag(pages[x].prev) == Ref(before);
    assert Deref(Ref(before)) == before && Deref(Ref(after)) == after;
  }

  lemma RingNeighbours(s: nat, q: seq<nat>, i: nat, j: nat)
    requires Apart(s, q) && i < |q| && j < |q| && j != i
    ensures q[j] == At(s, q, i - 1) <==> j == i - 1
    ensures q[j] == At(s, q, i + 1) <==> j == i + 1
    ensures s == At(s, q, i - 1) <==> i == 0
    ensures s == At(s, q, i + 1) <==> i == |q| - 1
    ensures q[i] != At(s, q, i - 1) && q[i] != At(s, q, i + 1)
  {}

  lemma UnlinkRing(pages: seq<Page>, s: nat, q: seq<nat>, tag: nat, i: nat)
    requires Ring(pages, s, q, tag) && Apart(s, q) && tag < 4 && i < |q|
    ensures ValidRef(pages, Untag(pages[q[i]].prev)) && ValidRef(pages, pages[q[i]].next)
    ensures Ring(Unlinked(pages, q[i]), s, Without(q, i), tag)
    ensures OnlyLinks(pages, Unlinked(pages, q[i]), s, q)
    ensures Unlinked(pages, q[i])[q[i]] == pages[q[i]]
  {
    var before, after := At(s, q, i - 1), At(s, q, i + 1);
    UnlinkedLinks(pages, q[i], before, after, tag);
    var out, r := Unlinked(pages, q[i]), Without(q, i);
    assert out[s].next == Ref(At(s, r, 0));
    forall j {:trigger out[r[j]]} | 0 <= j < |r|
      ensures out[r[j]].next == Ref(At(s, r, j + 1)) && out[r[j]].prev == Ref(At(s, r, j - 1)) + tag
    {
      RingNeighbours(s, q, i, if j < i then j else j + 1);
    }
  }

  /** page->next = head->next; head->next = page; page->prev = head | tag;
      page->next->prev = page | tag */
  function Pushed(pages: seq<Page>, s: nat, x: nat, tag: nat): (out: seq<Page>)
    requires x < |pages| && s < |pages| && ValidRef(pages, pages[s].next)
    ensures |out| == |pages|
  {
    var p1 := SetNext(pages, Ref(x), pages[s].next);
    var p2 := SetNext(p1, Ref(s), Ref(x));
    var p3 := SetPrev(p2, Ref(x), Ref(s) + tag);
    SetPrev(p3, p3[x].next, Ref(x) + tag)
  }

  lemma PushedLinks(pages: seq<Page>, s: nat, x: nat, tag: nat, first: nat)
    requires x < |pages| && s < |pages| && first < |pages| && x != s && x != first
    requires pages[s].next == Ref(first)
    ensures ValidRef(pages, pages[s].next)
    ensures forall y :: 0 <= y < |pages| ==>
      Pushed(pages, s, x, tag)[y] == Page(pages[y].slab,
                                          if y == x then Ref(first) else if y == s then Ref(x) else pages[y].next,
                                          if y == x then Ref(s) + tag else if y == first then Ref(x) + tag
                                          else pages[y].prev)
  {
    assert Deref(Ref(x)) == x && Deref(Ref(s)) == s && Deref(Ref(first)) == first;
  }

  lemma PushRing(pages: seq<Page>, s: nat, q: seq<nat>, tag: nat, x: nat)
    requires Ring(pages, s, q, tag) && Apart(s, q) && x < |pages| && x != s && x !in q
    ensures ValidRef(pages, pages[s].next)
    ensures Ring(Pushed(pages, s, x, tag), s, [x] + q, tag) && Apart(s, [x] + q)
    ensures OnlyLinks(pages, Pushed(pages, s, x, tag), s, [x] + q)
  {
    var first := At(s, q, 0);
    PushedLinks(pages, s, x, tag, first);
    var out, r := Pushed(pages, s, x, tag), [x] + q;
    forall j {:trigger out[r[j]]} | 0 <= j < |r|
      ensures out[r[j]].next == Ref(At(s, r, j + 1)) && out[r[j]].prev == Ref(At(s, r, j - 1)) + tag
    {
      if j > 0 {
        assert r[j] == q[j - 1] && At(s, r, j + 1) == At(s, q, j);
        assert out[q[j - 1]].next == pages[q[j - 1]].next;
      }
    }
  }

  /** Put page y in the place of x, copying x's links into it. */
  function Replaced(pages: seq<Page>, x: nat, y: nat): (out: seq<Page>)
    requires x < |pages| && y < |pages|
    requires ValidRef(pages, pages[x].prev) && ValidRef(pages, pages[x].next)
    ensures |out| == |pages|
  {
    var p1 := SetPrev(SetNext(pages, Ref(y), pages[x].next), Ref(y), pages[x].prev);
    SetPrev(SetNext(p1, pages[x].prev, Ref(y)), pages[x].next, Ref(y))
  }

  lemma ReplacedLinks(pages: seq<Page>, x: nat, y: nat, before: nat, after: nat)
    requires x < |pages| && y < |pages| && before < |pages| && after < |pages|
    requires pages[x].prev == Ref(before) && pages[x].next == Ref(after) && y != before && y != after
    ensures ValidRef(pages, pages[x].prev) && ValidRef(pages, pages[x].next)
    ensures forall z :: 0 <= z < |pages| ==>
      Replaced(pages, x, y)[z] == Page(pages[z].slab,
                                       if z == before then Ref(y) else if z == y then Ref(after) else pages[z].next,
                                       if z == after then Ref(y) else if z == y then Ref(before) else pages[z].prev)
  {
    assert Deref(Ref(y)) == y && Deref(Ref(before)) == before && Deref(Ref(after)) == after;
  }

  lemma ReplaceRing(pages: seq<Page>, s: nat, q: seq<nat>, i: nat, y: nat)
    requires Ring(pages, s, q, TAG_PAGE) && Apart(s, q) && i < |q|
    requires y < |pages| && y != s && y !in q
    ensures ValidRef(pages, pages[q[i]].prev) && ValidRef(pages, pages[q[i]].next)
    ensures Ring(Replaced(pages, q[i], y), s, q[i := y], TAG_PAGE) && Apart(s, q[i := y])
    ensures forall z :: 0 <= z < |pages| ==> Replaced(pages, q[i], y)[z].slab == pages[z].slab
    ensures forall z :: 0 <= z < |pages| && z != s && z != y && z !in q ==> Replaced(pages, q[i], y)[z] == pages[z]
    ensures Replaced(pages, q[i], y)[q[i]] == pages[q[i]]
  {
    var before, after := At(s, q, i - 1), At(s, q, i + 1);
    ReplacedLinks(pages, q[i], y, before, after);
    var out, r := Replaced(pages, q[i], y), q[i := y];
    assert At(s, r, 0) == if i == 0 then y else At(s, q, 0);
    forall j {:trigger out[r[j]]} | 0 <= j < |r|
      ensures out[r[j]].next == Ref(At(s, r, j + 1)) && out[r[j]].prev == Ref(At(s, r, j - 1)) + TAG_PAGE
    {
      ReplacedAt(s, q, i, y, j);
      if j != i {
        RingNeighbours(s, q, i, j);
        assert pages[q[j]].next == Ref(At(s, q, j + 1));
      }
    }
  }

  lemma ReplacedAt(s: nat, q: seq<nat>, i: nat, y: nat, j: nat)
    requires i < |q| && j < |q|
    ensures At(s, q[i := y], j + 1) == if j + 1 == i then y else At(s, q, j + 1)
    ensures At(s, q[i := y], j - 1) == if j - 1 == i then y else At(s, q, j - 1)
  {}
}
