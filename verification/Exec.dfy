/**
 * From kernel/syscall/syscall.c, `execve`, to kernel/proc/process.c, `proc_exit`: a program's address space and its
 * pages.
 */
module Exec {
  import opened Common
  import Pmm
  import opened PageTables
  import opened Vmm
  import opened ForkSpec
  import Fork
  import opened ElfSpec
  import opened Elf
  import opened MissingTables

  // ---- A loaded address space owns its pages ----

  /** The page behind which frame f is. */
  ghost function PageBehind(frames: map<nat, nat>, f: nat): (v: nat)
    requires f in frames.Values
    ensures v in frames && frames[v] == f
  {
    var v :| v in frames && frames[v] == f;
    v
  }

  /** All pages of the address space: its tables, and the frames of the image at their places. */
  ghost function AllPages(g: Loading): Owners {
    map f | f in g.own.Keys + g.frames.Values ::
      if f in g.own then g.own[f] else PathOf(PageBehind(g.frames, f) * PAGE_SIZE)
  }

  lemma FrameAt(b: Begun, m: Memory, s: Space, free: set<int>, g: Loading, v: nat)
    requires ImageHeld(b, m, s, g.own, free, g.img, g.frames) && v in g.frames
    ensures var f := g.frames[v];
            && f !in g.own && f !in free && f in AllPages(g) && AllPages(g)[f] == PathOf(v * PAGE_SIZE)
            && Node(m, s, PathOf(v * PAGE_SIZE)) == Some(f) && IsRaw(m, f)
  {
    hide PathOf, Leaf, Node, MakeLeaf;
    assert v in g.frames.Keys && v in g.img;
    assert PageIs(m, s, g.own, free, v, g.frames[v], g.img[v]);
    assert g.frames[v] in g.frames.Values;
    var w := PageBehind(g.frames, g.frames[v]);
    assert w in g.frames.Keys;
  }

  /** Every data page is a page of the image. */
  lemma DataAt(b: Begun, m: Memory, s: Space, free: set<int>, g: Loading, p: Path) returns (v: nat)
    requires ImageHeld(b, m, s, g.own, free, g.img, g.frames) && Elsewhere(b, m, s, g.img) && Blank(b.m, s, [])
    requires |p| == 4 && Node(m, s, p).Some?
    ensures v in g.frames && p == PathOf(v * PAGE_SIZE) && Node(m, s, p) == Some(g.frames[v])
  {
    hide PathOf;
    DataNode(m, s, p);
    PageInRange(m, s, p);
    assert exists w :: w in g.img && p == PathOf(w * PAGE_SIZE);
    v :| v in g.img && p == PathOf(v * PAGE_SIZE);
    assert v in g.frames.Keys;
    hide Leaf;
    FrameAt(b, m, s, free, g, v);
  }

  lemma OwnedData(b: Begun, m: Memory, s: Space, free: set<int>, g: Loading)
    requires ImageHeld(b, m, s, g.own, free, g.img, g.frames) && Elsewhere(b, m, s, g.img) && Blank(b.m, s, [])
    ensures DataPages(m, s, AllPages(g))
    ensures forall f | f in AllPages(g) && f !in g.own ::
              f !in free && |AllPages(g)[f]| == 4 && Node(m, s, AllPages(g)[f]) == Some(f)
  {
    hide PathOf, Leaf, ImageHeld, Elsewhere, Blank, AllPages;
    forall p | |p| == 4 && Node(m, s, p).Some?
      ensures var f := Node(m, s, p).value; IsRaw(m, f) && f in AllPages(g) && AllPages(g)[f] == p
    {
      var v := DataAt(b, m, s, free, g, p);
      FrameAt(b, m, s, free, g, v);
    }
    forall f | f in AllPages(g) && f !in g.own
      ensures f !in free && |AllPages(g)[f]| == 4 && Node(m, s, AllPages(g)[f]) == Some(f)
    {
      PagesAre(g, f);
      FrameAt(b, m, s, free, g, PageBehind(g.frames, f));
    }
  }

  lemma PagesAre(g: Loading, f: nat)
    ensures f in AllPages(g) <==> f in g.own || f in g.frames.Values
    ensures f in g.own ==> AllPages(g)[f] == g.own[f]
  {
    hide PathOf;
  }

  /**
   * What was loaded into an empty address space, the address space owns, each page at its one place, and nothing else.
   */
  lemma LoadedOwned(b: Begun, m: Memory, s: Space, free: set<int>, g: Loading)
    requires Holds(b, m, s, free, g) && Blank(b.m, s, []) && (forall f | f in b.own :: |b.own[f]| <= 3)
    ensures Owned(m, s, AllPages(g), free)
  {
    hide PathOf, Leaf, ImageHeld, Elsewhere, Blank, AllPages, OthersKept, Accounted, IsTable, IsRaw, Tally;
    OwnedData(b, m, s, free, g);
    TablesShort(b, m, s, free, g);
    forall f
      ensures f in g.own ==> f in AllPages(g) && AllPages(g)[f] == g.own[f]
    {
      PagesAre(g, f);
    }
    forall f | f in AllPages(g)
      ensures |AllPages(g)[f]| <= 4 && Node(m, s, AllPages(g)[f]) == Some(f) && f !in free
    {
      if f in g.own {
        NodeOf(m, s, g.own, free, f);
      }
    }
  }

  lemma TablesShort(b: Begun, m: Memory, s: Space, free: set<int>, g: Loading)
    requires Accounted(b, m, s, free, g) && (forall f | f in b.own :: |b.own[f]| <= 3)
    ensures forall f | f in g.own :: |g.own[f]| <= 3
  {
    hide Grown;
  }

  // ---- Page conservation ----

  /** The pages of the address space, the free ones and the lost ones are those that were free before it was made. */
  lemma Conserved(b: Begun, m: Memory, s: Space, free: set<int>, g: Loading, root: nat, free0: set<int>)
    requires Holds(b, m, s, free, g) && root in free0 && b.free == free0 - {root} && b.own == map[root := []]
    ensures free + AllPages(g).Keys + g.lost == free0 && g.lost !! free && g.lost !! AllPages(g).Keys
    ensures forall f | f in AllPages(g) :: f in free0 && f !in free
  {
    hide PathOf, Leaf, Elsewhere, AllPages, OthersKept, IsTable, IsRaw, Grown, ImageHeld, Tally, AllShort, PathsTo;
    HeldFrames(b, m, s, free, g);
    ValuesOwn(b, g.own, free, g.frames);
    forall f: int
      ensures f in free0 <==> f in free || f in AllPages(g).Keys || f in g.lost
      ensures f in AllPages(g).Keys ==> f !in free && f !in g.lost
    {
      if f >= 0 {
        PagesAre(g, f);
        assert f in AllPages(g) <==> f in AllPages(g).Keys;
      }
      assert f in b.own <==> f == root;
    }
  }

  /** A page is lost with every load of a page that had been loaded before. */
  lemma LostCount(b: Begun, m: Memory, s: Space, free: set<int>, g: Loading)
    requires Holds(b, m, s, free, g)
    ensures |g.lost| == Repeats(g.loads)
  {
    hide Sound, ImageHeld, Elsewhere, OthersKept, Accounted, Elems;
    HeldFrames(b, m, s, free, g);
    assert |g.frames| == |g.frames.Keys|;
  }

  /** An address space just made. */
  ghost predicate JustMade(b: Begun, s: Space, root: nat, free0: set<int>) {
    && s == Space(root, Fork.USER_ENTRIES) && root in free0 && b.free == free0 - {root} && b.own == map[root := []]
    && Sound(b.m, s, b.own, b.free) && Blank(b.m, s, []) && OpenTables(b.m, s)
    && forall p | p != [] :: Node(b.m, s, p).None?
  }

  lemma Made(m: Memory, root: nat, free: set<int>, free0: set<int>)
    requires IsTable(m, root) && root in free0 && free == free0 - {root}
    requires forall i | 0 <= i < Fork.USER_ENTRIES :: m[root].entries[i] == 0
    ensures JustMade(Begun(m, map[root := []], free), Space(root, Fork.USER_ENTRIES), root, free0)
  {
    Fork.NewIsOwned(m, root, free);
  }

  /** What `execve` has after loading: an address space that owns its pages, and every page accounted for. */
  ghost predicate Running(vm: AddressSpaces, root: nat, g: Loading, free0: set<int>)
    reads vm, vm.pmm
  {
    && root != 0
    && Owned(vm.mem, Space(root, Fork.USER_ENTRIES), AllPages(g), vm.pmm.free)
    && vm.pmm.free + AllPages(g).Keys + g.lost == free0
    && g.lost !! vm.pmm.free && g.lost !! AllPages(g).Keys
    && forall f | f in AllPages(g) :: vm.pmm.InUse(f)
  }

  lemma Runs(vm: AddressSpaces, root: nat, b: Begun, g: Loading, free0: set<int>)
    requires root != 0 && JustMade(b, Space(root, Fork.USER_ENTRIES), root, free0)
    requires Holds(b, vm.mem, Space(root, Fork.USER_ENTRIES), vm.pmm.free, g)
    requires forall f | f in free0 :: 0 <= f < vm.pmm.totalPages
    ensures Running(vm, root, g, free0)
  {
    hide Holds, Owned, AllPages, Sound, Blank, OpenTables;
    var s := Space(root, Fork.USER_ENTRIES);
    LoadedOwned(b, vm.mem, s, vm.pmm.free, g);
    Conserved(b, vm.mem, s, vm.pmm.free, g, root, free0);
  }

  /** The tables on the way to these pages. */
  ghost function Tables(pages: set<nat>): set<Path> {
    set v, k | v in pages && 1 <= k <= 3 :: PathOf(v * PAGE_SIZE)[..k]
  }

  /** What an address space with these pages loaded takes: the root, the tables, and a page for each. */
  ghost function Price(loads: seq<nat>): nat {
    1 + |Tables(Elems(loads))| + |loads|
  }

  /** As many of these pages, in order, as can be loaded. */
  ghost function Within(loads: seq<nat>, pages: nat): seq<nat> {
    if loads == [] || Price(loads) <= pages then loads else Within(loads[..|loads| - 1], pages)
  }

  /** The pages to be loaded: those of the segments before the first low one. */
  ghost function Wanted(file: seq<nat>): seq<nat>
    requires Validate(file) ==> WellFormed(file)
  {
    if Validate(file) then Loads(Segments(file, Stop(Segments(file, ReadHeader(file).phnum)))) else []
  }

  /** How loading ends, by the file and the number of free pages. */
  ghost predicate Fate(outcome: Result, file: seq<nat>, pages: nat)
    requires Validate(file) ==> WellFormed(file)
  {
    if pages == 0 then outcome.NoMemory?
    else if !Validate(file) then outcome.Refused?
    else
      var n := ReadHeader(file).phnum;
      var k := Stop(Segments(file, n));
      var all, loads := Wanted(file), Within(Wanted(file), pages);
      && (outcome.NoMemory? <==> loads != all && Price(loads) == pages)
      && (outcome.NoTable? <==> loads != all && Price(loads) != pages)
      && (outcome.BelowBase? <==> loads == all && k < n)
      && (outcome.Loaded? <==> loads == all && k == n)
  }

  lemma AllMissing(b: Begun, s: Space, root: nat, free0: set<int>, pages: set<nat>)
    requires JustMade(b, s, root, free0)
    ensures Missing(b.m, s, PathsTo(pages)) == Tables(pages)
  {
    hide PathOf, Node, Sound, Blank, OpenTables;
    forall q
      ensures q in Missing(b.m, s, PathsTo(pages)) <==> q in Tables(pages)
    {
      if q in Tables(pages) {
        var v, k :| v in pages && 1 <= k <= 3 && q == PathOf(v * PAGE_SIZE)[..k];
        assert PathOf(v * PAGE_SIZE) in PathsTo(pages);
      }
    }
  }

  lemma PriceIs(b: Begun, s: Space, root: nat, free0: set<int>, loads: seq<nat>)
    requires JustMade(b, s, root, free0)
    ensures Price(loads) == Cost(b, s, loads) + 1
  {
    hide JustMade, Missing, Tables, PathsTo, Elems;
    AllMissing(b, s, root, free0, Elems(loads));
  }

  lemma {:induction false} WithinIs(b: Begun, s: Space, root: nat, free0: set<int>, loads: seq<nat>)
    requires JustMade(b, s, root, free0)
    ensures Within(loads, |free0|) == Affords(b, s, loads)
  {
    hide JustMade, Cost, Price;
    OneLess(b, s, root, free0);
    PriceIs(b, s, root, free0, loads);
    if loads != [] {
      WithinIs(b, s, root, free0, loads[..|loads| - 1]);
    }
  }

  lemma Fated(outcome: Result, file: seq<nat>, b: Begun, s: Space, root: nat, free0: set<int>, loads: seq<nat>)
    requires JustMade(b, s, root, free0) && Validate(file) && WellFormed(file) && Decided(outcome, file, b, s, loads)
    ensures Fate(outcome, file, |free0|) && loads == Within(Wanted(file), |free0|)
  {
    hide JustMade, WellFormed, Segments, Loads, Cost, Price, Within, Affords;
    WithinIs(b, s, root, free0, Wanted(file));
    PriceIs(b, s, root, free0, loads);
    OneLess(b, s, root, free0);
  }

  /** All pages are free again, but one with every load of a page that had been loaded before. */
  ghost predicate GivenBack(file: seq<nat>, free0: set<int>, free: set<int>)
    requires Validate(file) ==> WellFormed(file)
  {
    free <= free0 && |free0| - |free| == Repeats(Within(Wanted(file), |free0|))
  }

  lemma ButTheLost(file: seq<nat>, free0: set<int>, free: set<int>, lost: set<nat>, loads: seq<nat>)
    requires Validate(file) ==> WellFormed(file)
    requires free + lost == free0 && lost !! free && |lost| == Repeats(loads)
    requires loads == Within(Wanted(file), |free0|)
    ensures GivenBack(file, free0, free)
  {
    hide WellFormed, Within, Wanted, Repeats;
    Apart(free0, free, lost);
  }

  lemma Apart<T>(all: set<T>, a: set<T>, b: set<T>)
    requires all == a + b && a !! b
    ensures |all| == |a| + |b|
  {}

  /** Without a page there is no address space to load anything into. */
  lemma {:induction false} NothingWithin(loads: seq<nat>)
    ensures Within(loads, 0) == [] && Repeats([]) == 0
  {
    NothingOverlaps();
    if loads != [] {
      NothingWithin(loads[..|loads| - 1]);
    }
  }

  lemma NothingWanted(file: seq<nat>, pages: nat)
    requires !Validate(file)
    ensures Within(Wanted(file), pages) == []
  {}

  lemma {:induction false} WithinPrefix(loads: seq<nat>, pages: nat)
    ensures Within(loads, pages) <= loads
  {
    hide Price;
    if loads != [] {
      WithinPrefix(loads[..|loads| - 1], pages);
    }
  }

  /** All pages of them if no two of the segments before the first low one share a page. */
  lemma AllGivenBack(file: seq<nat>, free0: set<int>, free: set<int>)
    requires Validate(file) && WellFormed(file) && GivenBack(file, free0, free)
    requires NoOverlap(Segments(file, Stop(Segments(file, ReadHeader(file).phnum))))
    ensures free == free0
  {
    hide WellFormed, Segments, NoOverlap, Within, Loads, Repeats;
    var all := Wanted(file);
    OverlapIff(Segments(file, Stop(Segments(file, ReadHeader(file).phnum))));
    WithinPrefix(all, |free0|);
    var loads := Within(all, |free0|);
    FewerRepeats(all, |loads|);
    assert all[..|loads|] == loads;
    SameCount(free, free0);
  }

  lemma SameCount<T>(a: set<T>, b: set<T>)
    requires a <= b && |a| == |b|
    ensures a == b
  {
    Apart(b, a, b - a);
  }

  lemma OneLess(b: Begun, s: Space, root: nat, free0: set<int>)
    requires JustMade(b, s, root, free0)
    ensures |b.free| == |free0| - 1 && free0 != {}
  {}

  /**
   * `execve`, from the new address space to the loaded program. How it ends is decided by the file and the number of
   * free pages. A program that cannot be loaded leaves the allocator as it was, but for one page with every load of a
   * page that had been loaded before.
   */
  method Load(vm: AddressSpaces, file: seq<nat>) returns (outcome: Result, root: nat, ghost b: Begun, ghost g: Loading)
    requires vm.Valid() && (Validate(file) ==> WellFormed(file))
    modifies vm`mem, vm.pmm, vm.pmm.bitmap
    ensures vm.pmm.Valid() && vm.pmm.Drift() == old(vm.pmm.Drift())
    ensures Fate(outcome, file, |old(vm.pmm.free)|)
    ensures outcome.Loaded? ==>
              && vm.Valid() && Running(vm, root, g, old(vm.pmm.free))
                 && OpenTables(vm.mem, Space(root, Fork.USER_ENTRIES))
              && Validate(file)
              && var n := ReadHeader(file).phnum;
                 && Inside(file, Segments(file, n))
                 && Complete(file, b, vm.mem, Space(root, Fork.USER_ENTRIES), vm.pmm.free, g, n)
                 && |g.lost| == Repeats(Wanted(file))
    ensures !outcome.Loaded? && !outcome.NoTable? ==> GivenBack(file, old(vm.pmm.free), vm.pmm.free)
  {
    hide Holds, Owned, AllPages, Sound, Blank, OpenTables, WellFormed, Segments, Decided, Loads, Within, Elems;
    hide Pmm.PageAllocator.Valid, Fork.SharesKernel, Cost, Price;
    ghost var free0 := vm.pmm.free;
    Fork.PagesBelow(vm.pmm);
    ghost var own;
    root, own := Fork.NewPml4(vm);
    b := Begun(vm.mem, own, vm.pmm.free);
    g := Fresh(own);
    if root == 0 {
      NothingWithin(Wanted(file));
      return NoMemory, root, b, g;
    }
    Made(vm.mem, root, vm.pmm.free, free0);
    ghost var s := Space(root, Fork.USER_ENTRIES);
    outcome, g := Elf.Load(vm, root, file, s, own);
    if !outcome.Refused? {
      Fated(outcome, file, b, s, root, free0, g.loads);
    }
    if outcome.NoTable? {
      return;
    }
    if outcome.Refused? {
      NothingWanted(file, |free0|);
    }
    Runs(vm, root, b, g, free0);
    LostCount(b, vm.mem, s, vm.pmm.free, g);
    if !outcome.Loaded? {
      Fork.Destroy(vm, root, AllPages(g));
      ButTheLost(file, free0, vm.pmm.free, g.lost, g.loads);
      root := 0;
    }
  }

  /** A program loaded and exited, or not loaded: every page comes back but one for each repeated load. */
  method LoadThenExit(vm: AddressSpaces, file: seq<nat>) returns (outcome: Result)
    requires vm.Valid() && (Validate(file) ==> WellFormed(file))
    modifies vm`mem, vm.pmm, vm.pmm.bitmap
    ensures vm.pmm.Valid() && vm.pmm.Drift() == old(vm.pmm.Drift())
    ensures Fate(outcome, file, |old(vm.pmm.free)|)
    ensures !outcome.NoTable? ==> GivenBack(file, old(vm.pmm.free), vm.pmm.free)
    ensures outcome.Loaded? ==>
              Validate(file) && (vm.pmm.free == old(vm.pmm.free) <==> NoOverlap(Segments(file, ReadHeader(file).phnum)))
  {
    hide Complete, Owned, AllPages, OpenTables, WellFormed, Segments, NoOverlap, Loads, Within, Repeats, Price;
    ghost var free0 := vm.pmm.free;
    var root;
    ghost var b, g;
    outcome, root, b, g := Load(vm, file);
    if outcome.Loaded? {
      Fork.Destroy(vm, root, AllPages(g));
      ButTheLost(file, free0, vm.pmm.free, g.lost, Wanted(file));
      OverlapIff(Segments(file, ReadHeader(file).phnum));
      if NoOverlap(Segments(file, ReadHeader(file).phnum)) {
        AllGivenBack(file, free0, vm.pmm.free);
      }
    }
  }
}
