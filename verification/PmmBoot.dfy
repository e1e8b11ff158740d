/** mm/pmm.c, `pmm_init`: three passes over the boot loader's memory map, then the reservation. */
module PmmBoot {
  import opened Common
  import opened Pmm

  const BITMAP_MAX_PAGES: nat := 16 * 1024 * 1024

  function AlignUp(a: nat): nat {
    (a + PAGE_SIZE - 1) / PAGE_SIZE * PAGE_SIZE
  }

  lemma AlignUpAligned(a: nat)
    ensures AlignUp(a) % PAGE_SIZE == 0 && a <= AlignUp(a) < a + PAGE_SIZE
  {}

  /** One memory map entry; kind 1 is usable RAM. */
  datatype Region = Region(base: nat, len: nat, kind: nat) {
    predicate Usable() {
      kind == 1
    }

    /** The page lies wholly inside this usable region. */
    predicate Holds(page: nat) {
      kind == 1 && base <= page * PAGE_SIZE && page * PAGE_SIZE + PAGE_SIZE <= base + len
    }

    function Pages(total: nat): set<int> {
      if Usable() then Span((base + PAGE_SIZE - 1) / PAGE_SIZE, (base + len) / PAGE_SIZE, total) else {}
    }

    /** Where the bitmap would go in this region: above the kernel image, page aligned. */
    function Place(kernelEnd: nat): nat {
      AlignUp(if base < kernelEnd then kernelEnd else base)
    }

    predicate Fits(kernelEnd: nat, size: nat) {
      Usable() && Place(kernelEnd) + size <= base + len
    }
  }

  /** A page-aligned address in the region or above it, and not below the end of the kernel image. */
  predicate IsPlace(e: Region, imageEnd: nat, a: nat) {
    a % PAGE_SIZE == 0 && imageEnd <= a && e.base <= a
  }

  /** A usable region with room for `size` bytes at such an address. */
  ghost predicate HasRoom(e: Region, imageEnd: nat, size: nat) {
    e.kind == 1 && exists a: nat | IsPlace(e, imageEnd, a) :: a + size <= e.base + e.len
  }

  /** The address tried is the lowest there is, so it fits if any does. */
  lemma FitsIff(e: Region, imageEnd: nat, size: nat)
    ensures IsPlace(e, imageEnd, e.Place(AlignUp(imageEnd)))
    ensures forall a: nat | IsPlace(e, imageEnd, a) :: e.Place(AlignUp(imageEnd)) <= a
    ensures e.Fits(AlignUp(imageEnd), size) <==> HasRoom(e, imageEnd, size)
  {
    hide AlignUp;
    var end := AlignUp(imageEnd);
    AlignUpLeast(imageEnd);
    AlignUpLeast(if e.base < end then end else e.base);
  }

  lemma AlignUpLeast(a: nat)
    ensures AlignUp(a) % PAGE_SIZE == 0 && a <= AlignUp(a)
    ensures forall b: nat | b % PAGE_SIZE == 0 && a <= b :: AlignUp(a) <= b
  {
    AlignUpAligned(a);
    forall b: nat | b % PAGE_SIZE == 0 && a <= b
      ensures AlignUp(a) <= b
    {
      assert b == b / PAGE_SIZE * PAGE_SIZE && (a + PAGE_SIZE - 1) / PAGE_SIZE <= b / PAGE_SIZE;
    }
  }

  lemma PagesAreHeld(e: Region, total: nat, i: nat)
    ensures i in e.Pages(total) <==> i < total && e.Holds(i)
  {
    SpanWidth((e.base + PAGE_SIZE - 1) / PAGE_SIZE, (e.base + e.len) / PAGE_SIZE, total);
  }

  // ---- What the counting pass covers, and how often it counts ----

  function Covered(regions: seq<Region>, total: nat): set<int> {
    if regions == [] then {} else
    Covered(regions[..|regions| - 1], total) + regions[|regions| - 1].Pages(total)
  }

  function CountOf(regions: seq<Region>, total: nat): nat {
    if regions == [] then 0 else
    CountOf(regions[..|regions| - 1], total) + |regions[|regions| - 1].Pages(total)|
  }

  ghost predicate Disjoint(regions: seq<Region>, total: nat) {
    forall i, j | 0 <= i < j < |regions| :: regions[i].Pages(total) * regions[j].Pages(total) == {}
  }

  lemma {:induction false} CoveredIff(regions: seq<Region>, total: nat, p: int)
    ensures p in Covered(regions, total) <==> exists i | 0 <= i < |regions| :: p in regions[i].Pages(total)
  {
    if regions != [] {
      var n := |regions| - 1;
      CoveredIff(regions[..n], total, p);
      if i :| 0 <= i < |regions| && p in regions[i].Pages(total) {
        assert i < n ==> regions[..n][i] == regions[i];
      }
    }
  }

  /** The page lies wholly inside some usable region. */
  ghost predicate Ram(regions: seq<Region>, page: nat) {
    exists n | 0 <= n < |regions| :: regions[n].Holds(page)
  }

  lemma CoveredHolds(regions: seq<Region>, total: nat)
    ensures forall i: nat :: i in Covered(regions, total) <==> i < total && Ram(regions, i)
  {
    forall i: nat
      ensures i in Covered(regions, total) <==> i < total && Ram(regions, i)
    {
      CoveredIff(regions, total, i);
      forall n | 0 <= n < |regions|
        ensures i in regions[n].Pages(total) <==> i < total && regions[n].Holds(i)
      {
        PagesAreHeld(regions[n], total, i);
      }
    }
  }

  lemma Meet(a: set<int>, b: set<int>, p: int)
    requires p in a && p in b
    ensures a * b != {}
  {
    assert p in a * b;
  }

  lemma DisjointStep(regions: seq<Region>, total: nat)
    requires regions != []
    ensures var n := |regions| - 1;
            Disjoint(regions, total) <==>
            Disjoint(regions[..n], total) && Covered(regions[..n], total) * regions[n].Pages(total) == {}
  {
    var n := |regions| - 1;
    var init := regions[..n];
    if Disjoint(regions, total) {
      forall i, j | 0 <= i < j < n
        ensures init[i].Pages(total) * init[j].Pages(total) == {}
      {
        assert init[i] == regions[i] && init[j] == regions[j];
      }
      var both := Covered(init, total) * regions[n].Pages(total);
      if both != {} {
        var p := Pick(both);
        CoveredIff(init, total, p);
        var i :| 0 <= i < n && p in init[i].Pages(total);
        Meet(init[i].Pages(total), regions[n].Pages(total), p);
      }
    } else {
      var i, j :| 0 <= i < j <= n && regions[i].Pages(total) * regions[j].Pages(total) != {};
      assert init[i] == regions[i];
      if j < n {
        assert init[j] == regions[j];
      } else {
        var common := regions[i].Pages(total) * regions[n].Pages(total);
        assert j == n && common != {};
        var p := Pick(common);
        CoveredIff(init, total, p);
        assert p in Covered(init, total) * regions[n].Pages(total);
      }
    }
  }

  /** The count is exact precisely on maps whose usable regions share no page; otherwise it is too high. */
  lemma {:induction false} CountExactIff(regions: seq<Region>, total: nat)
    ensures |Covered(regions, total)| <= CountOf(regions, total)
    ensures CountOf(regions, total) == |Covered(regions, total)| <==> Disjoint(regions, total)
  {
    if regions != [] {
      var n := |regions| - 1;
      CountExactIff(regions[..n], total);
      DisjointStep(regions, total);
      UnionCount(Covered(regions[..n], total), regions[n].Pages(total));
    }
  }

  /** `top` is the end of the highest usable region, 0 without one. */
  ghost predicate IsTop(regions: seq<Region>, top: nat) {
    && (forall i | 0 <= i < |regions| && regions[i].kind == 1 :: regions[i].base + regions[i].len <= top)
    && (top == 0 || exists i | 0 <= i < |regions| :: regions[i].kind == 1 && top == regions[i].base + regions[i].len)
  }

  /** First pass. */
  method HighestUsable(regions: seq<Region>) returns (top: nat)
    ensures IsTop(regions, top)
  {
    top := 0;
    for n := 0 to |regions|
      invariant forall i | 0 <= i < n && regions[i].Usable() :: regions[i].base + regions[i].len <= top
      invariant top == 0 || exists i | 0 <= i < n :: regions[i].Usable() && top == regions[i].base + regions[i].len
    {
      var e := regions[n];
      if e.Usable() && e.base + e.len > top {
        top := e.base + e.len;
      }
    }
  }

  /** Region `n` is the first one with room for the bitmap above the kernel image. */
  ghost predicate FirstFit(regions: seq<Region>, kernelEnd: nat, size: nat, n: int) {
    && 0 <= n < |regions|
    && regions[n].Fits(kernelEnd, size)
    && forall m | 0 <= m < n :: !regions[m].Fits(kernelEnd, size)
  }

  /** Second pass. */
  method PlaceBitmap(regions: seq<Region>, kernelEnd: nat, size: nat) returns (n: int)
    ensures -1 <= n < |regions|
    ensures n >= 0 ==> FirstFit(regions, kernelEnd, size, n)
    ensures n < 0 ==> forall m | 0 <= m < |regions| :: !regions[m].Fits(kernelEnd, size)
  {
    for i := 0 to |regions|
      invariant forall m | 0 <= m < i :: !regions[m].Fits(kernelEnd, size)
    {
      if regions[i].Fits(kernelEnd, size) {
        return i;
      }
    }
    return -1;
  }

  method MarkRegion(pmm: PageAllocator, e: Region)
    requires pmm.Valid()
    modifies pmm, pmm.bitmap
    ensures pmm.Valid()
    ensures pmm.free == old(pmm.free) + e.Pages(pmm.totalPages)
    ensures pmm.freePages == old(pmm.freePages) + |e.Pages(pmm.totalPages)|
  {
    if e.Usable() {
      pmm.MarkRange((e.base + PAGE_SIZE - 1) / PAGE_SIZE, (e.base + e.len) / PAGE_SIZE);
    }
  }

  /** Third pass: every page of every usable region is made free and counted. */
  method MarkUsable(pmm: PageAllocator, regions: seq<Region>)
    requires pmm.Valid() && pmm.free == {} && pmm.freePages == 0
    modifies pmm, pmm.bitmap
    ensures pmm.Valid()
    ensures pmm.free == Covered(regions, pmm.totalPages)
    ensures pmm.freePages == CountOf(regions, pmm.totalPages)
  {
    for n := 0 to |regions|
      invariant pmm.Valid()
      invariant pmm.free == Covered(regions[..n], pmm.totalPages)
      invariant pmm.freePages == CountOf(regions[..n], pmm.totalPages)
    {
      assert regions[..n + 1][..n] == regions[..n];
      MarkRegion(pmm, regions[n]);
    }
    assert regions[..|regions|] == regions;
  }

  function Max(a: nat, b: nat): nat {
    if b > a then b else a
  }

  /**
   * Free are exactly the pages wholly inside a usable region, at or above the reserved end and below
   * the largest page number a bitmap may have.
   */
  ghost predicate FreeExactly(free: set<int>, regions: seq<Region>, reserved: nat) {
    forall i: nat :: i in free <==> i < BITMAP_MAX_PAGES && reserved <= i * PAGE_SIZE && Ram(regions, i)
  }

  /** The addresses `pmm_init` computes before it touches the bitmap. */
  datatype Layout = Layout(top: nat, place: nat, reserved: nat) {
    function Total(): nat {
      if top / PAGE_SIZE > BITMAP_MAX_PAGES then BITMAP_MAX_PAGES else top / PAGE_SIZE
    }

    function BitmapSize(): nat {
      (Total() + 7) / 8
    }

    /** The kernel image ends below the bitmap, and the reserved range covers both. */
    ghost predicate Covers(imageEnd: nat) {
      && imageEnd <= place
      && place + BitmapSize() <= reserved
      && place % PAGE_SIZE == 0 && reserved % PAGE_SIZE == 0
      && reserved < place + BitmapSize() + PAGE_SIZE
    }

    /** The bitmap starts at the lowest such address of the first region with room for it. */
    ghost predicate Placed(regions: seq<Region>, imageEnd: nat) {
      exists n | 0 <= n < |regions| ::
        && HasRoom(regions[n], imageEnd, BitmapSize()) && IsPlace(regions[n], imageEnd, place)
        && (forall m | 0 <= m < n :: !HasRoom(regions[m], imageEnd, BitmapSize()))
        && (forall a: nat | IsPlace(regions[n], imageEnd, a) :: place <= a)
        && place + BitmapSize() <= regions[n].base + regions[n].len
    }
  }

  /** A page inside a usable region is counted, unless it lies beyond the largest bitmap. */
  lemma HeldIsCounted(regions: seq<Region>, l: Layout, i: nat)
    requires IsTop(regions, l.top) && Ram(regions, i)
    ensures i < l.Total() <==> i < BITMAP_MAX_PAGES
  {
    assert i * PAGE_SIZE + PAGE_SIZE <= l.top;
  }

  lemma FreeAfterBoot(regions: seq<Region>, l: Layout)
    requires IsTop(regions, l.top) && l.reserved % PAGE_SIZE == 0
    ensures FreeExactly(AtLeast(Covered(regions, l.Total()), l.reserved / PAGE_SIZE), regions, l.reserved)
  {
    CoveredHolds(regions, l.Total());
    forall i: nat | Ram(regions, i)
      ensures i < l.Total() <==> i < BITMAP_MAX_PAGES
    {
      HeldIsCounted(regions, l, i);
    }
    assert forall i: nat :: l.reserved / PAGE_SIZE <= i <==> l.reserved <= i * PAGE_SIZE;
  }

  /** The first two passes. No layout means no region had room for the bitmap above the image. */
  method PlanLayout(regions: seq<Region>, imageEnd: nat) returns (placed: bool, l: Layout)
    requires 0 < imageEnd
    ensures IsTop(regions, l.top)
    ensures placed <==> exists n | 0 <= n < |regions| :: HasRoom(regions[n], imageEnd, l.BitmapSize())
    ensures placed ==> l.Placed(regions, imageEnd) && l.Covers(imageEnd)
  {
    hide IsTop, HasRoom, IsPlace;
    var top := HighestUsable(regions);
    l := Layout(top, 0, 0);
    var size := l.BitmapSize();
    var kernelEnd := AlignUp(imageEnd);
    var n := PlaceBitmap(regions, kernelEnd, size);
    forall m | 0 <= m < |regions|
      ensures regions[m].Fits(kernelEnd, size) <==> HasRoom(regions[m], imageEnd, size)
    {
      FitsIff(regions[m], imageEnd, size);
    }
    if n < 0 {
      return false, l;
    }
    placed := true;
    var place := regions[n].Place(kernelEnd);
    FitsIff(regions[n], imageEnd, size);
    AlignUpAligned(if regions[n].base < kernelEnd then kernelEnd else regions[n].base);
    AlignUpAligned(imageEnd);
    AlignUpAligned(place + size);
    l := Layout(top, place, Max(kernelEnd, AlignUp(place + size)));
  }

  /**
   * The whole of `pmm_init`. A page ends up free exactly when it lies wholly inside a usable region,
   * at or above the reserved end and below the cap on the page count; the bitmap goes into the first
   * usable region with room for it; the counter is exact precisely on maps that cover no page twice.
   * When no region has room nothing is set up.
   */
  method Boot(regions: seq<Region>, imageEnd: nat) returns (pmm: PageAllocator?, l: Layout)
    requires 0 < imageEnd
    ensures IsTop(regions, l.top)
    ensures pmm == null <==> forall n | 0 <= n < |regions| :: !HasRoom(regions[n], imageEnd, l.BitmapSize())
    ensures pmm != null ==>
              && fresh(pmm) && fresh(pmm.bitmap)
              && pmm.Valid() && pmm.totalPages == l.Total() && pmm.bitmap.Length == l.BitmapSize()
              && FreeExactly(pmm.free, regions, l.reserved)
              && (pmm.Drift() == 0 <==> Disjoint(regions, l.Total()))
              && l.Placed(regions, imageEnd) && l.Covers(imageEnd)
  {
    var placed;
    placed, l := PlanLayout(regions, imageEnd);
    if !placed {
      return null, l;
    }
    pmm := new PageAllocator(l.Total());
    MarkUsable(pmm, regions);
    pmm.ReserveBelow(l.reserved / PAGE_SIZE);
    CountExactIff(regions, l.Total());
    FreeAfterBoot(regions, l);
  }

  /** After boot no page of the kernel image, and none the bitmap occupies, is free. */
  lemma ReservedNeverFree(free: set<int>, regions: seq<Region>, l: Layout, imageEnd: nat, i: nat)
    requires FreeExactly(free, regions, l.reserved) && l.Covers(imageEnd)
    requires i * PAGE_SIZE < imageEnd ||
             (i * PAGE_SIZE < l.place + l.BitmapSize() && l.place < i * PAGE_SIZE + PAGE_SIZE)
    ensures i !in free
  {}
}
