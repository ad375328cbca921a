/** The arithmetic of rp_slab_init: where the slots, the descriptors and the page area go. */
module SlabLayout {
  import opened Arith
  import opened Words
  import opened SlabModel

  const POOL_BYTES: nat := 64
  const DESC_BYTES: nat := 24
  const TWO_64: nat := 0x1_0000_0000_0000_0000

  /** rp_align_ptr(p, rp_pagesize) */
  function AlignPage(p: nat): nat { (p + (PAGE_SIZE - 1)) / PAGE_SIZE * PAGE_SIZE }

  function SlotsAt(base: nat): nat { base + POOL_BYTES }

  function DescsAt(base: nat, minShift: nat): nat
    requires minShift <= 12
  {
    SlotsAt(base) + (PAGE_SHIFT - minShift) * DESC_BYTES
  }

  /** Pages estimated from the bytes after the pool header, a descriptor each. */
  function Estimate(base: nat, end: nat): nat
    requires SlotsAt(base) <= end
  {
    (end - SlotsAt(base)) / (PAGE_SIZE + DESC_BYTES)
  }

  function StartAt(base: nat, end: nat, minShift: nat): nat
    requires SlotsAt(base) <= end && minShift <= 12
  {
    AlignPage(DescsAt(base, minShift) + Estimate(base, end) * DESC_BYTES)
  }

  /** A 64-bit difference, as an unsigned word and read as a signed one. */
  function Minus(a: nat, b: nat): nat { (a - b) % TWO_64 }

  function Signed(w: nat): int {
    if w < TWO_64 / 2 then w else w - TWO_64
  }

  /** m = pages - (end - start) / rp_pagesize, with the pointer difference divided as an
      unsigned word; the estimate is lowered only if m is positive. */
  function PageCount(base: nat, end: nat, minShift: nat): int
    requires SlotsAt(base) <= end && minShift <= 12
  {
    var pages := Estimate(base, end);
    var m := Signed(Minus(pages, Minus(end, StartAt(base, end, minShift)) / PAGE_SIZE));
    if m > 0 then pages - m else pages
  }

  ghost predicate PoolRegion(base: nat, end: nat, minShift: nat) {
    SlotsAt(base) <= end && end + PAGE_SIZE <= ALL_ONES && 3 <= minShift <= 11
  }

  /** Room between the aligned start and the end, against the estimate. */
  lemma RoomBounds(base: nat, end: nat, minShift: nat)
    requires PoolRegion(base, end, minShift)
    ensures var pages, start := Estimate(base, end), StartAt(base, end, minShift);
      && DescsAt(base, minShift) + pages * DESC_BYTES <= start
      && start < DescsAt(base, minShift) + pages * DESC_BYTES + PAGE_SIZE
      && start % PAGE_SIZE == 0
      && pages * PAGE_SIZE - 4311 <= end - start < (pages + 1) * PAGE_SIZE
  {
    var pages, p := Estimate(base, end), DescsAt(base, minShift) + Estimate(base, end) * DESC_BYTES;
    var size := end - SlotsAt(base);
    assert size == pages * (PAGE_SIZE + DESC_BYTES) + size % (PAGE_SIZE + DESC_BYTES);
    var k := (p + (PAGE_SIZE - 1)) / PAGE_SIZE;
    assert p + (PAGE_SIZE - 1) == k * PAGE_SIZE + (p + (PAGE_SIZE - 1)) % PAGE_SIZE;
    DivUnique(k * PAGE_SIZE, PAGE_SIZE, k, 0);
  }

  /** The layout of a pool: slots, descriptors and page area follow one another without
      overlap, the page area is page-aligned, the correction trims at most two pages from the
      estimate, and it leaves no whole page unused. The area ends by pool->end exactly unless
      the estimate is a single page and the aligned start has passed the end: then the
      negative difference is divided as a huge unsigned number and nothing is trimmed. */
  lemma LayoutExact(base: nat, end: nat, minShift: nat)
    requires PoolRegion(base, end, minShift)
    ensures var estimate, start, pages := Estimate(base, end), StartAt(base, end, minShift),
      PageCount(base, end, minShift);
      && SlotsAt(base) < DescsAt(base, minShift)
      && DescsAt(base, minShift) + estimate * DESC_BYTES <= start && start % PAGE_SIZE == 0
      && 0 <= pages && estimate - 2 <= pages <= estimate
      && (pages == 0 || start + pages * PAGE_SIZE <= end <==> !(estimate == 1 && start > end))
      && (start <= end ==> end < start + (pages + 1) * PAGE_SIZE)
      && (estimate >= 3 ==> pages >= 1 && start <= end)
  {
    RoomBounds(base, end, minShift);
    var estimate, start := Estimate(base, end), StartAt(base, end, minShift);
    if start <= end {
      var room := (end - start) / PAGE_SIZE;
      assert end - start == room * PAGE_SIZE + (end - start) % PAGE_SIZE;
      assert estimate - 2 <= room <= estimate;
      assert Minus(end, start) == end - start;
      assert Minus(estimate, room) == estimate - room;
    } else {
      assert estimate <= 1;
      assert Minus(end, start) == TWO_64 + end - start;
      var q := Minus(end, start) / PAGE_SIZE;
      assert TWO_64 / PAGE_SIZE - 4 <= q < TWO_64 / PAGE_SIZE;
      assert Minus(estimate, q) == TWO_64 + estimate - q;
    }
  }

  /** A region for which the check is wrong: one page is estimated, and the page area is laid
      out past the end of the region. */
  lemma LayoutOverrun()
    ensures var base, end, minShift := 7896, 7896 + 64 + 4120, 3;
      && PoolRegion(base, end, minShift)
      && PageCount(base, end, minShift) == 1
      && StartAt(base, end, minShift) + PAGE_SIZE > end
  {
    LayoutExact(7896, 7896 + 64 + 4120, 3);
  }
}
