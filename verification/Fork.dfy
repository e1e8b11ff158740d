/** mm/vmm.c: creating, destroying and cloning user address spaces. */
module Fork {
  import opened Common
  import Pmm
  import opened PageTables
  import opened Vmm
  import opened ForkSpec

  const USER_ENTRIES: nat := 256

  /** How many entries of a table at this depth are visited. */
  function Visited(depth: nat): nat {
    if depth == 0 then USER_ENTRIES else ENTRIES
  }

  /**
   * The nested loops of `vmm_destroy_pml4`, which are the same loop at four depths: free what hangs
   * under the table's present entries, then the table. Exactly the subtree's pages become free.
   */
  method FreeTable(vm: AddressSpaces, f: nat, depth: nat, ghost p: Path, ghost s: Space, ghost own: Owners,
                   ghost m: Memory, ghost free0: set<int>)
    requires vm.pmm.Valid() && vm.mem == m && depth == |p| <= 3 && s.top == USER_ENTRIES
    requires Owned(m, s, own, free0) && Node(m, s, p) == Some(f)
    requires forall g | g in Below(own, p) :: vm.pmm.InUse(g)
    modifies vm.pmm, vm.pmm.bitmap
    ensures vm.pmm.Valid() && vm.pmm.Drift() == old(vm.pmm.Drift())
    ensures vm.pmm.free == old(vm.pmm.free) + Below(own, p)
    decreases 4 - depth, 2
  {
    hide Pmm.PageAllocator.Valid, Owned, Below, BelowFirst;
    BelowTable(m, s, own, free0, p, Visited(depth));
    FreeEntries(vm, f, depth, p, s, own, m, free0);
    vm.pmm.ReleaseFrame(f);
  }

  /** The loop over one table's entries. */
  method FreeEntries(vm: AddressSpaces, f: nat, depth: nat, ghost p: Path, ghost s: Space, ghost own: Owners,
                     ghost m: Memory, ghost free0: set<int>)
    requires vm.pmm.Valid() && vm.mem == m && depth == |p| <= 3 && s.top == USER_ENTRIES
    requires Owned(m, s, own, free0) && Node(m, s, p) == Some(f)
    requires forall g | g in Below(own, p) :: vm.pmm.InUse(g)
    modifies vm.pmm, vm.pmm.bitmap
    ensures vm.pmm.Valid() && vm.pmm.Drift() == old(vm.pmm.Drift())
    ensures vm.pmm.free == old(vm.pmm.free) + BelowFirst(own, p, Visited(depth))
    decreases 4 - depth, 1
  {
    hide Pmm.PageAllocator.Valid, Owned, Node, Below, BelowFirst, Pmm.PageAllocator.Drift;
    NoneBelow(own, p);
    for i := 0 to Visited(depth)
      invariant vm.pmm.Valid() && vm.pmm.Drift() == old(vm.pmm.Drift())
      invariant vm.pmm.free == old(vm.pmm.free) + BelowFirst(own, p, i)
    {
      BelowNext(own, p, i);
      NotYetFreed(own, p, i);
      FreeEntry(vm, f, i, depth, p, s, own, m, free0);
    }
  }

  /** The body of those loops: an absent entry is skipped, a data page freed, a table descended into. */
  method FreeEntry(vm: AddressSpaces, f: nat, i: nat, depth: nat, ghost p: Path, ghost s: Space, ghost own: Owners,
                   ghost m: Memory, ghost free0: set<int>)
    requires vm.pmm.Valid() && vm.mem == m && depth == |p| <= 3 && s.top == USER_ENTRIES && i < Visited(depth)
    requires Owned(m, s, own, free0) && Node(m, s, p) == Some(f)
    requires forall g | g in Below(own, p + [i]) :: vm.pmm.InUse(g)
    modifies vm.pmm, vm.pmm.bitmap
    ensures vm.pmm.Valid() && vm.pmm.Drift() == old(vm.pmm.Drift())
    ensures vm.pmm.free == old(vm.pmm.free) + Below(own, p + [i])
    decreases 4 - depth, 0
  {
    assert Parent(p + [i]) == p;
    var e := vm.mem[f].entries[i];
    if !Present(e) {
      AbsentBelow(m, s, own, free0, p + [i]);
    } else if depth == 3 {
      BelowData(m, s, own, free0, p + [i]);
      vm.pmm.ReleaseFrame(FrameOf(e));
    } else {
      FreeTable(vm, FrameOf(e), depth + 1, p + [i], s, own, m, free0);
    }
  }

  lemma NoneBelow(own: Owners, p: Path)
    ensures BelowFirst(own, p, 0) == {}
  {}

  lemma NotYetFreed(own: Owners, p: Path, i: nat)
    ensures Below(own, p + [i]) !! BelowFirst(own, p, i)
    ensures Below(own, p + [i]) <= Below(own, p)
  {
    forall f | f in own
      ensures f in Below(own, p + [i]) ==> f !in BelowFirst(own, p, i) && f in Below(own, p)
    {
      PrefixStep(p, own[f], i);
    }
  }

  /** `vmm_destroy_pml4`: the pages of the user half become free, and no others; NULL is ignored. */
  method Destroy(vm: AddressSpaces, root: nat, ghost own: Owners)
    requires vm.Valid()
    requires root != 0 ==>
               && Owned(vm.mem, Space(root, USER_ENTRIES), own, vm.pmm.free)
               && forall f | f in own :: vm.pmm.InUse(f)
    modifies vm.pmm, vm.pmm.bitmap
    ensures vm.pmm.Valid() && vm.pmm.Drift() == old(vm.pmm.Drift())
    ensures vm.pmm.free == if root == 0 then old(vm.pmm.free) else old(vm.pmm.free) + own.Keys
  {
    if root == 0 {
      return;
    }
    assert Below(own, []) == own.Keys;
    FreeTable(vm, root, 0, [], Space(root, USER_ENTRIES), own, vm.mem, vm.pmm.free);
  }

  /** How a clone ends: finished, out of pages for data, or out of pages for a table (a NULL table in the source). */
  datatype Status = Done | NoPage | NullTable

  ghost function Now(vm: AddressSpaces, own: Owners): World
    reads vm, vm.pmm
  {
    World(vm.mem, own, vm.pmm.free)
  }

  lemma CopiedFlags(g: nat, a: nat)
    requires Present(a)
    ensures var e := MakeLeaf(g * PAGE_SIZE, Flags(a));
            Present(e) && FrameOf(e) == g && Flags(e) == Flags(a)
  {
    EntryParts(g, Flags(a));
    assert g * PAGE_SIZE / PAGE_SIZE == g;
  }

  /** The state after copying page q into fresh frame g and mapping it at the same place in the copy. */
  ghost predicate LeafStep(w: World, m1: Memory, w2: World, own2: Owners, src: Space, dst: Space, q: Path, g: nat,
                           e: nat)
    requires IsPage(q)
  {
    var a := Leaf(w.mem, src, q);
    && Present(a) && g in w.free && FrameOf(a) in w.mem
    && m1 == w.mem[g := w.mem[FrameOf(a)]]
    && Extends(m1, w.own, w.free - {g}, w2.mem, own2, w2.free, dst)
    && LeafSet(m1, w2.mem, dst, q, e)
    && w2.own == own2[g := q]
    && Present(e) && FrameOf(e) == g && Flags(e) == Flags(a)
  }

  lemma LeafStepKept(w: World, m1: Memory, w2: World, own2: Owners, src: Space, dst: Space, q: Path, g: nat, e: nat)
    requires IsPage(q) && Owned(w.mem, dst, w.own, w.free) && LeafStep(w, m1, w2, own2, src, dst, q, g, e)
    ensures Kept(w, w2, dst)
  {
    assert Node(w.mem, dst, []) == Some(dst.root);
    assert dst.root in w.own && m1[dst.root] == w.mem[dst.root];
  }

  lemma LeafStepOwned(w: World, m1: Memory, w2: World, own2: Owners, src: Space, ownS: Owners, dst: Space, q: Path,
                      g: nat, e: nat)
    requires IsPage(q) && Apart(w, src, ownS, dst) && Blank(w.mem, dst, q)
    requires LeafStep(w, m1, w2, own2, src, dst, q, g, e)
    ensures Owned(w2.mem, dst, w2.own, w2.free) && g in w2.mem && w2.mem[g] == m1[g]
    ensures SameLeaves(w.mem, m1, dst)
  {
    hide Extends, LeafSet, SameLeaves, Sound, Node, Present, FrameOf, Flags;
    DataNode(w.mem, src, q);
    OwnedAt(w.mem, src, ownS, w.free, q);
    RawAt(w.mem, src, ownS, w.free, q);
    OwnedFree(w.mem, dst, w.own, w.free);
    OwnedFrame(w.mem, m1, dst, w.own, w.free, w.free - {g});
    SameLeafAt(w.mem, m1, dst, q);
    NotPresent();
    MappedOwned(m1, w.own, w.free - {g}, w2.mem, own2, w2.free, dst, q, e);
  }

  lemma RawAt(m: Memory, s: Space, own: Owners, free: set<int>, q: Path)
    requires Owned(m, s, own, free) && |q| == 4 && Node(m, s, q).Some?
    ensures IsRaw(m, Node(m, s, q).value)
  {}

  lemma OwnedFree(m: Memory, s: Space, own: Owners, free: set<int>)
    requires Owned(m, s, own, free)
    ensures forall f | f in own :: f !in free
  {}

  lemma SameLeafAt(m: Memory, m': Memory, s: Space, q: Path)
    requires SameLeaves(m, m', s) && |q| == 4
    ensures Leaf(m', s, q) == Leaf(m, s, q)
  {}

  lemma LeafStepApart(w: World, m1: Memory, w2: World, own2: Owners, src: Space, ownS: Owners, dst: Space, q: Path,
                      g: nat, e: nat)
    requires IsPage(q) && Apart(w, src, ownS, dst) && Blank(w.mem, dst, q)
    requires LeafStep(w, m1, w2, own2, src, dst, q, g, e)
    ensures Apart(w2, src, ownS, dst) && Copied(w2.mem, src, dst, q)
    ensures SameLeaves(w.mem, m1, dst)
  {
    LeafStepOwned(w, m1, w2, own2, src, ownS, dst, q, g, e);
    DataNode(w.mem, src, q);
    OwnedFrame(w.mem, w2.mem, src, ownS, w.free, w2.free);
  }

  lemma LeafCloned(w: World, m1: Memory, w2: World, own2: Owners, src: Space, ownS: Owners, dst: Space, q: Path,
                   g: nat, e: nat)
    requires IsPage(q) && Apart(w, src, ownS, dst) && Blank(w.mem, dst, q)
    requires LeafStep(w, m1, w2, own2, src, dst, q, g, e)
    ensures Apart(w2, src, ownS, dst) && Kept(w, w2, dst) && CopiedBelow(w, w2, src, dst, q)
  {
    LeafStepKept(w, m1, w2, own2, src, dst, q, g, e);
    LeafStepApart(w, m1, w2, own2, src, ownS, dst, q, g, e);
  }

  /** Every page mapped in src is for the user. */
  ghost predicate UserLeaves(m: Memory, src: Space) {
    forall q | IsPage(q) && Present(Leaf(m, src, q)) :: UserBit(Leaf(m, src, q))
  }

  /** If the source maps only user pages, the tables of the copy stay open to the user. */
  ghost predicate StaysOpen(m: Memory, m': Memory, src: Space, dst: Space) {
    UserLeaves(m, src) && OpenTables(m, dst) ==> UserLeaves(m', src) && OpenTables(m', dst)
  }

  lemma StaysOpenTrans(m: Memory, m1: Memory, m2: Memory, src: Space, dst: Space)
    requires StaysOpen(m, m1, src, dst) && StaysOpen(m1, m2, src, dst)
    ensures StaysOpen(m, m2, src, dst)
  {
    hide UserLeaves, OpenTables;
  }

  lemma SameUserLeaves(w: World, w2: World, src: Space, ownS: Owners, dst: Space)
    requires Apart(w, src, ownS, dst) && Kept(w, w2, dst)
    ensures UserLeaves(w.mem, src) ==> UserLeaves(w2.mem, src)
  {
    hide UserBit;
    forall q | IsPage(q)
      ensures Leaf(w2.mem, src, q) == Leaf(w.mem, src, q)
    {
      SourceLeafKept(w, w2, src, ownS, dst, q);
    }
  }

  /** The flags `vmm_map` gets are those of the source's entry. */
  lemma UserFlags(m: Memory, src: Space, q: Path)
    requires IsPage(q) && UserLeaves(m, src) && Present(Leaf(m, src, q))
    ensures UserBit(Flags(Leaf(m, src, q)))
  {
    var e := Leaf(m, src, q);
    assert e == FrameOf(e) * PAGE_SIZE + Flags(e);
    LowBits(FrameOf(e), Flags(e));
  }

  /** A page outside the copy makes no difference to its tables. */
  lemma OpenFrame(m: Memory, m1: Memory, dst: Space, own: Owners)
    requires Tree(m, dst, own) && forall f | f in own && f in m :: f in m1 && m1[f] == m[f]
    requires OpenTables(m, dst)
    ensures OpenTables(m1, dst)
  {
    hide UserBit, WriteBit;
    forall p | |p| <= 3
      ensures Node(m1, dst, p) == Node(m, dst, p)
    {
      SameNode(m, m1, dst, own, p);
    }
  }

  lemma MapOpens(w: World, m1: Memory, w2: World, src: Space, ownS: Owners, dst: Space, q: Path, g: nat)
    requires IsPage(q) && Apart(w, src, ownS, dst) && Kept(w, w2, dst) && Present(Leaf(w.mem, src, q)) && g in w.free
    requires FrameOf(Leaf(w.mem, src, q)) in w.mem && m1 == w.mem[g := w.mem[FrameOf(Leaf(w.mem, src, q))]]
    requires OpenTables(m1, dst) && UserBit(Flags(Leaf(w.mem, src, q))) ==> OpenTables(w2.mem, dst)
    ensures StaysOpen(w.mem, w2.mem, src, dst)
  {
    if UserLeaves(w.mem, src) && OpenTables(w.mem, dst) {
      hide OpenTables, UserLeaves;
      SameUserLeaves(w, w2, src, ownS, dst);
      UserFlags(w.mem, src, q);
      OpenFrame(w.mem, m1, dst, w.own);
    }
  }

  /** Maps a data page already copied to frame g; w is the state before g was allocated. */
  method MapCopy(vm: AddressSpaces, q: Path, e: nat, g: nat, dst: Space, ghost src: Space, ghost ownS: Owners,
                 ghost w: World)
    returns (ok: bool, ghost own': Owners)
    requires vm.Valid() && IsPage(q) && q[0] < dst.top
    requires Apart(w, src, ownS, dst) && Blank(w.mem, dst, q) && g in w.free
    requires Leaf(w.mem, src, q) == e && Present(e) && FrameOf(e) in w.mem
    requires vm.mem == w.mem[g := w.mem[FrameOf(e)]] && vm.pmm.free == w.free - {g}
    requires q in PagesOf(ownS) && Fills(w, dst, NeedsBefore(ownS, q))
    modifies vm`mem, vm.pmm, vm.pmm.bitmap
    ensures vm.Valid() && vm.pmm.Drift() == old(vm.pmm.Drift())
    ensures ok ==>
              && Apart(Now(vm, own'), src, ownS, dst) && Kept(w, Now(vm, own'), dst)
              && CopiedBelow(w, Now(vm, own'), src, dst, q)
              && Fills(Now(vm, own'), dst, PlacesOf(PagesBefore(ownS, q) + {q}))
              && StaysOpen(w.mem, vm.mem, src, dst)
    ensures !ok ==> BreaksAt(ownS, Total(w), q) && Spared(w, Now(vm, own'))
  {
    hide OpenTables, UserBit, StaysOpen, Apart, Blank, Fills, Sound, Extends, LeafSet, SameLeaves, Kept, CopiedBelow;
    hide PagesOf, NeedsBefore, PlacesOf, PagesBefore, BreaksAt;
    hide Spared, GainedOn, MakeLeaf, PathOf, Pmm.PageAllocator.Valid;
    ghost var m1 := vm.mem;
    MapReady(w, m1, src, ownS, dst, q, g);
    var virt := VirtOf(q);
    RebuildSplits(q);
    ok, own' := vm.Map(dst.root, virt, g * PAGE_SIZE, Flags(e), dst, w.own);
    if ok {
      MapDone(w, m1, vm.mem, own', vm.pmm.free, src, ownS, dst, q, g);
      own' := own'[g := q];
    } else {
      MapFailed(w, m1, vm.mem, own', vm.pmm.free, src, ownS, dst, q, g);
    }
  }

  /** The copied page in frame g changes nothing about the copy's tables. */
  lemma MapReady(w: World, m1: Memory, src: Space, ownS: Owners, dst: Space, q: Path, g: nat)
    requires Apart(w, src, ownS, dst) && |q| == 4 && g in w.free
    requires var e := Leaf(w.mem, src, q); Present(e) && FrameOf(e) in w.mem && m1 == w.mem[g := w.mem[FrameOf(e)]]
    ensures Sound(m1, dst, w.own, w.free - {g})
  {
    OwnedFrame(w.mem, m1, dst, w.own, w.free, w.free - {g});
  }

  lemma MapDone(w: World, m1: Memory, m2: Memory, own2: Owners, free2: set<int>, src: Space, ownS: Owners, dst: Space,
                q: Path, g: nat)
    requires IsPage(q) && Apart(w, src, ownS, dst) && Blank(w.mem, dst, q) && g in w.free
    requires q in PagesOf(ownS) && Fills(w, dst, NeedsBefore(ownS, q))
    requires var e := Leaf(w.mem, src, q); Present(e) && FrameOf(e) in w.mem && m1 == w.mem[g := w.mem[FrameOf(e)]]
    requires Extends(m1, w.own, w.free - {g}, m2, own2, free2, dst) && GainedOn(w.own, own2, q)
    requires LeafSet(m1, m2, dst, q, MakeLeaf(g * PAGE_SIZE, Flags(Leaf(w.mem, src, q))))
    requires OpenTables(m1, dst) && UserBit(Flags(Leaf(w.mem, src, q))) ==> OpenTables(m2, dst)
    ensures var w2 := World(m2, own2[g := q], free2);
            && Apart(w2, src, ownS, dst) && Kept(w, w2, dst) && CopiedBelow(w, w2, src, dst, q)
            && Fills(w2, dst, PlacesOf(PagesBefore(ownS, q) + {q}))
            && StaysOpen(w.mem, m2, src, dst)
  {
    hide OpenTables, UserBit, StaysOpen, Fills, Blank, LeafSet, MakeLeaf, Kept, CopiedBelow, LeafStep;
    hide PagesOf, NeedsBefore, PlacesOf, PagesBefore;
    var e := Leaf(w.mem, src, q);
    var w2 := World(m2, own2[g := q], free2);
    DataNode(w.mem, src, q);
    CopiedFlags(g, e);
    LeafStepIs(w, m1, w2, own2, src, dst, q, g);
    LeafCloned(w, m1, w2, own2, src, ownS, dst, q, g, MakeLeaf(g * PAGE_SIZE, Flags(e)));
    FillsAfter(w, w2, own2, src, ownS, dst, q, g);
    MapOpens(w, m1, w2, src, ownS, dst, q, g);
  }

  lemma LeafStepIs(w: World, m1: Memory, w2: World, own2: Owners, src: Space, dst: Space, q: Path, g: nat)
    requires IsPage(q) && g in w.free && w2.own == own2[g := q]
    requires var e := Leaf(w.mem, src, q); Present(e) && FrameOf(e) in w.mem && m1 == w.mem[g := w.mem[FrameOf(e)]]
    requires Extends(m1, w.own, w.free - {g}, w2.mem, own2, w2.free, dst)
    requires LeafSet(m1, w2.mem, dst, q, MakeLeaf(g * PAGE_SIZE, Flags(Leaf(w.mem, src, q))))
    ensures LeafStep(w, m1, w2, own2, src, dst, q, g, MakeLeaf(g * PAGE_SIZE, Flags(Leaf(w.mem, src, q))))
  {
    hide Extends, LeafSet, MakeLeaf;
    CopiedFlags(g, Leaf(w.mem, src, q));
  }

  /** Out of pages for a table: then the source needs more than there were, and only free pages and the copy changed. */
  lemma MapFailed(w: World, m1: Memory, m2: Memory, own2: Owners, free2: set<int>, src: Space, ownS: Owners, dst: Space,
                  q: Path, g: nat)
    requires IsPage(q) && Apart(w, src, ownS, dst) && Blank(w.mem, dst, q) && g in w.free
    requires q in PagesOf(ownS) && Fills(w, dst, NeedsBefore(ownS, q))
    requires var e := Leaf(w.mem, src, q); Present(e) && FrameOf(e) in w.mem && m1 == w.mem[g := w.mem[FrameOf(e)]]
    requires Extends(m1, w.own, w.free - {g}, m2, own2, free2, dst) && GainedOn(w.own, own2, q)
    requires free2 == {} && Node(m2, dst, q[..3]).None?
    ensures BreaksAt(ownS, Total(w), q) && Spared(w, World(m2, own2, free2))
  {
    SparedByMap(w, m1, m2, own2, free2, dst, g);
    hide Extends, Fills, Spared, GainedOn, Owned, BreaksAt, PagesOf, NeedsBefore;
    DataNode(w.mem, dst, q);
    NotPresent();
    ShortOfTable(w, m1, g, m2, own2, ownS, dst, q);
  }

  lemma SparedByMap(w: World, m1: Memory, m2: Memory, own2: Owners, free2: set<int>, dst: Space, g: nat)
    requires g in w.free && (forall f | f in w.mem && f != g :: f in m1 && m1[f] == w.mem[f])
    requires Extends(m1, w.own, w.free - {g}, m2, own2, free2, dst)
    ensures Spared(w, World(m2, own2, free2))
  {}

  lemma FillsAfter(w: World, w2: World, own2: Owners, src: Space, ownS: Owners, dst: Space, q: Path, g: nat)
    requires Apart(w, src, ownS, dst) && Apart(w2, src, ownS, dst) && Kept(w, w2, dst) && GainedOn(w.own, own2, q)
    requires IsPage(q) && q in PagesOf(ownS) && Fills(w, dst, NeedsBefore(ownS, q)) && w2.own == own2[g := q]
    ensures Fills(w2, dst, PlacesOf(PagesBefore(ownS, q) + {q}))
  {
    hide Fills, PagesOf, NeedsBefore, PlacesOf, PagesBefore;
    assert Node(w2.mem, dst, w2.own[g]) == Some(g);
    FillsMore(w, w2, ownS, dst, q);
  }

  /**
   * What a clone step leaves behind: finished, everything below p copied; out of data pages, a tree
   * that can still be torn down; not finished, the page at which the pages there are ran out.
   */
  ghost predicate StepResult(st: Status, w: World, w': World, src: Space, ownS: Owners, dst: Space, p: Path) {
    && (!st.NullTable? ==> Apart(w', src, ownS, dst) && Kept(w, w', dst))
    && (st.Done? ==> CopiedBelow(w, w', src, dst, p) && StaysOpen(w.mem, w'.mem, src, dst))
    && (st.Done? ==> Fills(w', dst, PlacesOf(PagesBefore(ownS, p) + PagesUnder(ownS, p))))
    && (st.NoPage? ==> exists q :: StopsAt(ownS, Total(w), q))
    && (st.NullTable? ==> Spared(w, w') && exists q :: BreaksAt(ownS, Total(w), q))
  }

  /** Nothing but free pages and the copy has changed. */
  ghost predicate Spared(w: World, w': World) {
    && w'.free <= w.free
    && forall f | f in w.mem && f !in w.free && f !in w.own :: f in w'.mem && w'.mem[f] == w.mem[f]
  }

  lemma SparedAfter(w: World, w1: World, w2: World, dst: Space)
    requires Kept(w, w1, dst) && Spared(w1, w2)
    ensures Spared(w, w2)
  {}

  /** The innermost body of `vmm_clone_pml4`: copy one present page and map the copy at the rebuilt address. */
  method CloneLeaf(vm: AddressSpaces, q: Path, e: nat, dst: Space, ghost src: Space, ghost ownS: Owners,
                   ghost own: Owners)
    returns (st: Status, ghost own': Owners)
    requires vm.Valid() && IsPage(q) && q[0] < dst.top
    requires Apart(Now(vm, own), src, ownS, dst) && Blank(vm.mem, dst, q)
    requires Leaf(vm.mem, src, q) == e && Present(e) && Fills(Now(vm, own), dst, NeedsBefore(ownS, q))
    modifies vm`mem, vm.pmm, vm.pmm.bitmap
    ensures vm.Valid() && vm.pmm.Drift() == old(vm.pmm.Drift())
    ensures StepResult(st, old(Now(vm, own)), Now(vm, own'), src, ownS, dst, q)
  {
    ghost var w := Now(vm, own);
    SourcePage(vm.mem, src, ownS, vm.pmm.free, q);
    hide Fills, PagesOf, NeedsBefore, PlacesOf, PagesBefore, PagesUnder, BreaksAt, StopsAt, Total, StepResult;
    hide Owned, CopiedBelow, Kept, StaysOpen, Spared, Blank, Node, Leaf, Present, FrameOf, Pmm.PageAllocator.Valid;
    var g := vm.pmm.AllocFrame();
    if g == 0 {
      ShortOfData(w, ownS, dst, q);
      LeafStops(w, src, ownS, dst, q);
      return NoPage, own;
    }
    KernelThere(vm, g, FrameOf(e));
    vm.mem := vm.mem[g := vm.mem[FrameOf(e)]];
    var ok;
    ok, own' := MapCopy(vm, q, e, g, dst, src, ownS, w);
    st := if ok then Done else NullTable;
    LeafEnds(st, w, Now(vm, own'), src, ownS, dst, q);
  }

  lemma KernelThere(vm: AddressSpaces, g: nat, f: nat)
    requires IsTable(vm.mem, vm.kernelRoot) && g != vm.kernelRoot && f in vm.mem
    ensures IsTable(vm.mem[g := vm.mem[f]], vm.kernelRoot)
  {}

  lemma LeafStops(w: World, src: Space, ownS: Owners, dst: Space, q: Path)
    requires Apart(w, src, ownS, dst) && StopsAt(ownS, Total(w), q)
    ensures StepResult(NoPage, w, w, src, ownS, dst, q)
  {
    hide Owned, StopsAt, Total;
  }

  lemma LeafEnds(st: Status, w: World, w': World, src: Space, ownS: Owners, dst: Space, q: Path)
    requires st.Done? ==>
               && Apart(w', src, ownS, dst) && Kept(w, w', dst) && CopiedBelow(w, w', src, dst, q)
               && StaysOpen(w.mem, w'.mem, src, dst) && Fills(w', dst, PlacesOf(PagesBefore(ownS, q) + {q}))
    requires !st.Done? ==> st.NullTable? && BreaksAt(ownS, Total(w), q) && Spared(w, w')
    requires PagesUnder(ownS, q) == {q}
    ensures StepResult(st, w, w', src, ownS, dst, q)
  {
    hide Apart, Kept, CopiedBelow, StaysOpen, Fills, PlacesOf, PagesBefore, BreaksAt, Total, Spared, PagesUnder;
  }

  lemma SourcePage(m: Memory, s: Space, ownS: Owners, free: set<int>, q: Path)
    requires Owned(m, s, ownS, free) && |q| == 4 && Present(Leaf(m, s, q))
    ensures q in PagesOf(ownS) && PagesUnder(ownS, q) == {q} && FrameOf(Leaf(m, s, q)) in m
  {
    DataNode(m, s, q);
    OwnedAt(m, s, ownS, free, q);
    RawAt(m, s, ownS, free, q);
    hide Owned;
    assert ownS[Node(m, s, q).value] == q;
    forall r | r in PagesUnder(ownS, q)
      ensures r == q
    {
    }
  }

  lemma NothingUnder(m: Memory, s: Space, ownS: Owners, free: set<int>, p: Path)
    requires Owned(m, s, ownS, free) && Node(m, s, p).None?
    ensures PagesUnder(ownS, p) == {}
  {
    hide Owned;
    if PagesUnder(ownS, p) != {} {
      var r :| r in PagesUnder(ownS, p);
      var f :| f in ownS && ownS[f] == r;
      assert f in Below(ownS, p);
      AbsentBelow(m, s, ownS, free, p);
    }
  }

  /** The loops of `vmm_clone_pml4`, which are the same loop at four depths: copy everything below path p. */
  method CloneTable(vm: AddressSpaces, f: nat, p: Path, dst: Space, ghost src: Space, ghost ownS: Owners,
                    ghost own: Owners)
    returns (st: Status, ghost own': Owners)
    requires vm.Valid() && |p| <= 3 && src.top == dst.top == USER_ENTRIES
    requires forall j | 0 <= j < |p| :: p[j] < Visited(j)
    requires Apart(Now(vm, own), src, ownS, dst) && Blank(vm.mem, dst, p)
    requires Node(vm.mem, src, p) == Some(f) && Fills(Now(vm, own), dst, NeedsBefore(ownS, p))
    modifies vm`mem, vm.pmm, vm.pmm.bitmap
    ensures vm.Valid() && vm.pmm.Drift() == old(vm.pmm.Drift())
    ensures StepResult(st, old(Now(vm, own)), Now(vm, own'), src, ownS, dst, p)
    decreases 4 - |p|, 1
  {
    hide Fills, PagesOf, NeedsBefore, PlacesOf, PagesBefore, PagesUnder, BreaksAt, StopsAt;
    ghost var w := Now(vm, own);
    own', st := own, Done;
    FillsStart(w, ownS, dst, p);
    for i := 0 to Visited(|p|)
      invariant vm.Valid() && vm.pmm.Drift() == old(vm.pmm.Drift())
      invariant st.Done? && Progress(w, Now(vm, own'), src, ownS, dst, p, i)
    {
      ghost var w1 := Now(vm, own');
      ProgressReady(w, w1, src, ownS, dst, p, i);
      st, own' := CloneEntry(vm, f, i, p, dst, src, ownS, w1.own);
      ProgressStep(w, w1, Now(vm, own'), st, src, ownS, dst, p, i);
      if !st.Done? {
        return;
      }
    }
    AdvanceEnd(w, Now(vm, own'), src, dst, p, Visited(|p|));
    FillsEnd(Now(vm, own'), src, ownS, dst, p, Visited(|p|));
  }

  lemma FillsStart(w: World, ownS: Owners, dst: Space, p: Path)
    requires Fills(w, dst, NeedsBefore(ownS, p)) && |p| <= 3
    ensures Fills(w, dst, NeedsBefore(ownS, p + [0]))
  {
    hide Fills, PagesBefore, PlacesOf;
    PagesStep(ownS, p, 0);
  }

  lemma FillsEnd(w: World, src: Space, ownS: Owners, dst: Space, p: Path, bound: nat)
    requires Owned(w.mem, src, ownS, w.free) && |p| <= 3 && Fills(w, dst, NeedsBefore(ownS, p + [bound]))
    requires bound == if p == [] && src.top < ENTRIES then src.top else ENTRIES
    ensures Fills(w, dst, PlacesOf(PagesBefore(ownS, p) + PagesUnder(ownS, p)))
  {
    hide Fills, PagesBefore, PlacesOf, PagesUnder, Owned;
    PagesEnd(w.mem, src, ownS, w.free, p, bound);
  }

  /** The first i entries of the table at p are done, starting from w. */
  ghost predicate Progress(w: World, w1: World, src: Space, ownS: Owners, dst: Space, p: Path, i: nat) {
    && StaysOpen(w.mem, w1.mem, src, dst)
    && Apart(w1, src, ownS, dst)
    && Kept(w, w1, dst)
    && Advanced(w, w1, src, dst, p, i)
    && Fills(w1, dst, NeedsBefore(ownS, p + [i]))
  }

  lemma ProgressReady(w: World, w1: World, src: Space, ownS: Owners, dst: Space, p: Path, i: nat)
    requires Apart(w, src, ownS, dst) && Blank(w.mem, dst, p) && |p| <= 3
    requires Progress(w, w1, src, ownS, dst, p, i)
    ensures Blank(w1.mem, dst, p + [i]) && Node(w1.mem, src, p) == Node(w.mem, src, p)
  {
    BlankChild(w, w1, src, dst, p, i);
    SameNode(w.mem, w1.mem, src, ownS, p);
  }

  lemma ProgressStep(w: World, w1: World, w2: World, st: Status, src: Space, ownS: Owners, dst: Space, p: Path, i: nat)
    requires Apart(w, src, ownS, dst) && Progress(w, w1, src, ownS, dst, p, i) && |p| <= 3
    requires StepResult(st, w1, w2, src, ownS, dst, p + [i])
    ensures if st.Done? then Progress(w, w2, src, ownS, dst, p, i + 1) else StepResult(st, w, w2, src, ownS, dst, p)
  {
    hide Fills, PagesBefore, PlacesOf, PagesUnder, StopsAt, BreaksAt, Owned, Kept, Advanced, CopiedBelow, StaysOpen;
    hide Spared;
    NotInFree(w, dst);
    SameTotal(w, w1, dst);
    PagesStep(ownS, p, i);
    if st.NullTable? {
      SparedAfter(w, w1, w2, dst);
    } else {
      KeptTrans(w, w1, w2, dst);
    }
    if st.Done? {
      AdvanceStep(w, w1, w2, src, ownS, dst, p, i);
      StaysOpenTrans(w.mem, w1.mem, w2.mem, src, dst);
    } else if st.NoPage? {
      var q :| StopsAt(ownS, Total(w1), q);
      assert StopsAt(ownS, Total(w), q);
    } else {
      var q :| BreaksAt(ownS, Total(w1), q);
      assert BreaksAt(ownS, Total(w), q);
    }
  }

  lemma SameTotal(w: World, w1: World, dst: Space)
    requires Kept(w, w1, dst) && forall f | f in w.own :: f !in w.free
    ensures Total(w1) == Total(w)
  {
    KeptCount(w, w1, dst);
  }

  /** The body of those loops: skip an absent entry, copy a data page, descend into a table. */
  method CloneEntry(vm: AddressSpaces, f: nat, i: nat, p: Path, dst: Space, ghost src: Space, ghost ownS: Owners,
                    ghost own: Owners)
    returns (st: Status, ghost own': Owners)
    requires vm.Valid() && |p| <= 3 && src.top == dst.top == USER_ENTRIES && i < Visited(|p|)
    requires forall j | 0 <= j < |p| :: p[j] < Visited(j)
    requires Apart(Now(vm, own), src, ownS, dst) && Blank(vm.mem, dst, p + [i])
    requires Node(vm.mem, src, p) == Some(f) && Fills(Now(vm, own), dst, NeedsBefore(ownS, p + [i]))
    modifies vm`mem, vm.pmm, vm.pmm.bitmap
    ensures vm.Valid() && vm.pmm.Drift() == old(vm.pmm.Drift())
    ensures StepResult(st, old(Now(vm, own)), Now(vm, own'), src, ownS, dst, p + [i])
    decreases 4 - |p|, 0
  {
    hide Fills, PagesOf, PlacesOf, PagesBefore, PagesUnder, BreaksAt, StopsAt;
    assert Parent(p + [i]) == p;
    var e := vm.mem[f].entries[i];
    st, own' := Done, own;
    if !Present(e) {
      AbsentCopied(Now(vm, own), src, dst, p + [i]);
      NothingUnder(vm.mem, src, ownS, vm.pmm.free, p + [i]);
      assert PagesBefore(ownS, p + [i]) + {} == PagesBefore(ownS, p + [i]);
    } else if |p| == 3 {
      st, own' := CloneLeaf(vm, p + [i], e, dst, src, ownS, own);
    } else {
      st, own' := CloneTable(vm, FrameOf(e), p + [i], dst, src, ownS, own);
    }
  }

  /** The upper halves of two PML4 tables hold the same entries. */
  ghost predicate SharesKernel(m: Memory, root: nat, kernelRoot: nat) {
    && IsTable(m, root) && IsTable(m, kernelRoot)
    && m[root].entries[USER_ENTRIES..] == m[kernelRoot].entries[USER_ENTRIES..]
  }

  /** `vmm_new_pml4`: an empty user half, and the kernel's entries in the upper half; 0 when no page is left. */
  method NewPml4(vm: AddressSpaces) returns (root: nat, ghost own: Owners)
    requires vm.Valid()
    modifies vm`mem, vm.pmm, vm.pmm.bitmap
    ensures vm.Valid() && vm.pmm.Drift() == old(vm.pmm.Drift())
    ensures root == 0 ==> old(vm.pmm.free) == {} && vm.pmm.free == {} && vm.mem == old(vm.mem)
    ensures root != 0 ==>
              && root in old(vm.pmm.free) && vm.pmm.free == old(vm.pmm.free) - {root}
              && (forall f | f in old(vm.mem) && f != root :: f in vm.mem && vm.mem[f] == old(vm.mem[f]))
              && IsTable(vm.mem, root)
              && (forall i | 0 <= i < USER_ENTRIES :: vm.mem[root].entries[i] == 0)
              && SharesKernel(vm.mem, root, vm.kernelRoot)
              && own == map[root := []]
  {
    own := map[];
    root := vm.pmm.AllocFrame();
    if root == 0 {
      return;
    }
    own := map[root := []];
    vm.mem := vm.mem[root := ZeroTable()];
    var t := vm.mem[root].entries;
    var kernel := vm.mem[vm.kernelRoot].entries;
    for i := USER_ENTRIES to ENTRIES
      invariant |t| == ENTRIES && forall j | USER_ENTRIES <= j < i :: t[j] == kernel[j]
      invariant forall j | 0 <= j < USER_ENTRIES :: t[j] == 0
    {
      t := t[i := kernel[i]];
    }
    vm.mem := vm.mem[root := Table(t)];
  }

  /** A new address space maps nothing and owns its PML4 page only. */
  lemma NewIsOwned(m: Memory, root: nat, free: set<int>)
    requires IsTable(m, root) && root !in free
    requires forall i | 0 <= i < USER_ENTRIES :: m[root].entries[i] == 0
    ensures Owned(m, Space(root, USER_ENTRIES), map[root := []], free)
    ensures Blank(m, Space(root, USER_ENTRIES), []) && OpenTables(m, Space(root, USER_ENTRIES))
    ensures forall p | p != [] :: Node(m, Space(root, USER_ENTRIES), p).None?
  {
    var s := Space(root, USER_ENTRIES);
    forall p | p != []
      ensures Node(m, s, p).None?
    {
      assert Last(p[..1]) == p[0] && Parent(p[..1]) == [];
      NoNode(m, s, p, 1, |p|);
      assert p[..|p|] == p;
    }
    forall q | IsPage(q)
      ensures Leaf(m, s, q) == 0
    {
      assert Node(m, s, Parent(q)).None?;
    }
  }

  /** What it means for dst to be a deep copy of src, made from fresh pages, with nothing else changed. */
  ghost predicate DeepCopy(w0: World, w: World, src: Space, ownS: Owners, dst: Space) {
    && Apart(w, src, ownS, dst)
    && (forall q | IsPage(q) :: Copied(w.mem, src, dst, q))
    && (forall q | IsPage(q) :: Leaf(w.mem, src, q) == Leaf(w0.mem, src, q))
    && w.free <= w0.free && w.own.Keys == w0.free - w.free
    && SourceSpared(w0, w)
  }

  /** Every page in use has kept its contents. */
  ghost predicate SourceSpared(w0: World, w: World) {
    forall f | f in w0.mem && f !in w0.free :: f in w.mem && w.mem[f] == w0.mem[f]
  }

  /** An empty address space at dst has just been created, starting from w0. */
  ghost predicate JustCreated(w0: World, w1: World, dst: Space) {
    && dst.root in w0.free && w1.free == w0.free - {dst.root} && w1.own == map[dst.root := []]
    && (forall f | f in w0.mem && f != dst.root :: f in w1.mem && w1.mem[f] == w0.mem[f])
  }

  lemma CopyFinished(w0: World, w1: World, w: World, src: Space, ownS: Owners, dst: Space)
    requires Owned(w0.mem, src, ownS, w0.free) && JustCreated(w0, w1, dst)
    requires Apart(w, src, ownS, dst) && Kept(w1, w, dst) && CopiedBelow(w1, w, src, dst, [])
    ensures DeepCopy(w0, w, src, ownS, dst) && SourceSpared(w0, w)
  {
    OwnedFrame(w0.mem, w.mem, src, ownS, w0.free, w.free);
    OwnedPagesTaken(w0, w1, w, dst);
  }

  lemma OwnedPagesTaken(w0: World, w1: World, w: World, dst: Space)
    requires JustCreated(w0, w1, dst) && Kept(w1, w, dst)
    ensures w.own.Keys == w0.free - w.free && w.free + w.own.Keys == w0.free
  {
    forall x: int
      ensures x in w.own.Keys <==> x in w0.free && x !in w.free
    {
      assert x in w.own <==> x in w.own.Keys;
      assert x in w1.own <==> x == dst.root;
    }
  }

  lemma CreatedCount(w0: World, w1: World, dst: Space)
    requires JustCreated(w0, w1, dst)
    ensures Total(w1) == |w0.free| > 0
  {
    assert w1.own.Keys == {dst.root};
  }

  /** The loops of the clone, from the empty copy to the outcome. */
  method FillCopy(vm: AddressSpaces, root: nat, dst: Space, ghost ownS: Owners, ghost w0: World, ghost own1: Owners)
    returns (st: Status, ghost own: Owners)
    requires vm.Valid() && dst.top == USER_ENTRIES && JustCreated(w0, Now(vm, own1), dst)
    requires Owned(w0.mem, Space(root, USER_ENTRIES), ownS, w0.free)
    requires Owned(vm.mem, dst, own1, vm.pmm.free) && Blank(vm.mem, dst, [])
    requires SharesKernel(vm.mem, dst.root, vm.kernelRoot)
    modifies vm`mem, vm.pmm, vm.pmm.bitmap
    ensures vm.Valid() && vm.pmm.Drift() == old(vm.pmm.Drift())
    ensures st.Done? <==> |Needs(ownS)| <= |w0.free|
    ensures st.NoPage? <==> Stops(ownS, |w0.free|)
    ensures st.Done? ==> DeepCopy(w0, Now(vm, own), Space(root, USER_ENTRIES), ownS, dst)
    ensures st.Done? ==>
              && SharesKernel(vm.mem, dst.root, vm.kernelRoot)
              && StaysOpen(old(vm.mem), vm.mem, Space(root, USER_ENTRIES), dst)
    ensures st.NoPage? ==> Owned(vm.mem, dst, own, vm.pmm.free) && Kept(old(Now(vm, own1)), Now(vm, own), dst)
    ensures !st.NoPage? ==> SourceSpared(w0, Now(vm, own))
  {
    hide StaysOpen, DeepCopy, Needs, Apart, Fills, Owned, Blank, SharesKernel, StepResult, JustCreated, SourceSpared;
    hide Stops, NeedsBefore;
    hide Pmm.PageAllocator.Valid;
    ghost var src, w1 := Space(root, USER_ENTRIES), Now(vm, own1);
    FillReady(w0, w1, src, ownS, dst);
    st, own := CloneTable(vm, root, [], dst, src, ownS, own1);
    FillResult(st, w0, w1, Now(vm, own), src, ownS, dst, vm.kernelRoot);
  }

  lemma FillReady(w0: World, w1: World, src: Space, ownS: Owners, dst: Space)
    requires JustCreated(w0, w1, dst) && Owned(w0.mem, src, ownS, w0.free) && Owned(w1.mem, dst, w1.own, w1.free)
    ensures Apart(w1, src, ownS, dst) && Fills(w1, dst, NeedsBefore(ownS, []))
            && Node(w1.mem, src, []) == Some(src.root)
  {
    assert PagesBefore(ownS, []) == {};
    assert Node(w1.mem, dst, []) == Some(dst.root);
    OwnedFrame(w0.mem, w1.mem, src, ownS, w0.free, w1.free);
  }

  lemma FillResult(st: Status, w0: World, w1: World, w: World, src: Space, ownS: Owners, dst: Space, kernelRoot: nat)
    requires JustCreated(w0, w1, dst) && Owned(w0.mem, src, ownS, w0.free) && Owned(w1.mem, dst, w1.own, w1.free)
    requires SharesKernel(w1.mem, dst.root, kernelRoot) && dst.top == USER_ENTRIES && kernelRoot !in w1.free
    requires StepResult(st, w1, w, src, ownS, dst, [])
    ensures st.Done? <==> |Needs(ownS)| <= |w0.free|
    ensures st.NoPage? <==> Stops(ownS, |w0.free|)
    ensures st.Done? ==>
              && DeepCopy(w0, w, src, ownS, dst) && SharesKernel(w.mem, dst.root, kernelRoot)
              && StaysOpen(w1.mem, w.mem, src, dst)
    ensures st.NoPage? ==> Owned(w.mem, dst, w.own, w.free) && Kept(w1, w, dst)
    ensures !st.NoPage? ==> SourceSpared(w0, w)
  {
    hide StaysOpen, DeepCopy, Needs, SharesKernel, Owned, Apart, Stops, Kept, JustCreated, CopiedBelow, StepResult;
    hide Spared, SourceSpared;
    CreatedCount(w0, w1, dst);
    StepParts(st, w1, w, src, ownS, dst);
    Outcome(st, w1, w, src, ownS, dst);
    if st.Done? {
      CopyFinished(w0, w1, w, src, ownS, dst);
      KernelStays(w0, w1, w, dst, kernelRoot);
    } else if st.NullTable? {
      SparedFromStart(w0, w1, w, dst);
    }
  }

  lemma StepParts(st: Status, w1: World, w: World, src: Space, ownS: Owners, dst: Space)
    requires StepResult(st, w1, w, src, ownS, dst, [])
    ensures !st.NullTable? ==> Apart(w, src, ownS, dst) && Kept(w1, w, dst) && Owned(w.mem, dst, w.own, w.free)
    ensures st.Done? ==> CopiedBelow(w1, w, src, dst, []) && StaysOpen(w1.mem, w.mem, src, dst)
    ensures st.NullTable? ==> Spared(w1, w)
  {
    hide StaysOpen, Owned, Fills, Kept, CopiedBelow, Spared, StopsAt, BreaksAt, PlacesOf, PagesBefore;
  }

  lemma SparedFromStart(w0: World, w1: World, w: World, dst: Space)
    requires JustCreated(w0, w1, dst) && Spared(w1, w)
    ensures SourceSpared(w0, w)
  {}

  /** How the copy ends is decided by the number of pages there are. */
  lemma Outcome(st: Status, w1: World, w: World, src: Space, ownS: Owners, dst: Space)
    requires StepResult(st, w1, w, src, ownS, dst, []) && Owned(w1.mem, dst, w1.own, w1.free) && Total(w1) > 0
    ensures st.Done? <==> |Needs(ownS)| <= Total(w1)
    ensures st.NoPage? <==> Stops(ownS, Total(w1))
  {
    hide Owned, Fills, PlacesOf, PagesBefore, StaysOpen, CopiedBelow, Spared, Before;
    if st.Done? {
      AllPlaces(ownS);
      PlacesShort(ownS, PagesOf(ownS));
      FillsCount(w, dst, Needs(ownS));
      NotInFree(w1, dst);
      KeptCount(w1, w, dst);
      forall q
        ensures !StopsAt(ownS, Total(w1), q)
      {
        if q in PagesOf(ownS) {
          LessBefore(ownS, q);
        }
      }
    } else if st.NoPage? {
      var q :| StopsAt(ownS, Total(w1), q);
      LessBefore(ownS, q);
    } else {
      var q :| BreaksAt(ownS, Total(w1), q);
      LessBefore(ownS, q);
      forall r
        ensures !StopsAt(ownS, Total(w1), r)
      {
        BreaksNotStops(ownS, Total(w1), q, r);
      }
    }
  }

  lemma NotInFree(w: World, s: Space)
    requires Owned(w.mem, s, w.own, w.free)
    ensures forall f | f in w.own :: f !in w.free
  {}

  lemma AllPlaces(ownS: Owners)
    ensures PagesBefore(ownS, []) + PagesUnder(ownS, []) == PagesOf(ownS)
  {}

  lemma KernelStays(w0: World, w1: World, w: World, dst: Space, kernelRoot: nat)
    requires Kept(w1, w, dst) && SharesKernel(w1.mem, dst.root, kernelRoot) && dst.top == USER_ENTRIES
             && kernelRoot !in w1.free
    requires JustCreated(w0, w1, dst)
    ensures SharesKernel(w.mem, dst.root, kernelRoot)
  {}

  /**
   * `vmm_clone_pml4`. It succeeds exactly when there are as many free pages as the copy has places to
   * fill, and then yields a deep copy in fresh pages. Stopped for want of a data page, it gives back
   * every page it took; that is so exactly when there is no free page, or just as many as the pages
   * before some data page need. In no case is the source, or any other page in use, touched.
   */
  method Clone(vm: AddressSpaces, root: nat, ghost ownS: Owners) returns (st: Status, copy: nat, ghost own: Owners)
    requires vm.Valid() && Owned(vm.mem, Space(root, USER_ENTRIES), ownS, vm.pmm.free)
    modifies vm`mem, vm.pmm, vm.pmm.bitmap
    ensures vm.pmm.Valid() && vm.pmm.Drift() == old(vm.pmm.Drift())
    ensures st.Done? <==> |Needs(ownS)| <= |old(vm.pmm.free)|
    ensures st.NoPage? <==> Stops(ownS, |old(vm.pmm.free)|)
    ensures st.Done? ==>
              && vm.Valid() && copy != 0
              && DeepCopy(old(Now(vm, map[])), Now(vm, own), Space(root, USER_ENTRIES), ownS, Space(copy, USER_ENTRIES))
              && SharesKernel(vm.mem, copy, vm.kernelRoot)
              && (UserLeaves(old(vm.mem), Space(root, USER_ENTRIES)) ==> OpenTables(vm.mem, Space(copy, USER_ENTRIES)))
    ensures st.NoPage? ==> copy == 0 && vm.pmm.free == old(vm.pmm.free)
    ensures SourceSpared(old(Now(vm, map[])), Now(vm, own))
  {
    hide DeepCopy, SharesKernel, UserLeaves, OpenTables, SameLeaves, Blank, Owned, Needs, Kept, JustCreated, StaysOpen;
    ghost var w0 := Now(vm, map[]);
    ghost var src := Space(root, USER_ENTRIES);
    PagesBelow(vm.pmm);
    copy, own := NewPml4(vm);
    if copy == 0 {
      NeedsRoot(ownS, w0.free);
      return NoPage, 0, own;
    }
    var dst := Space(copy, USER_ENTRIES);
    ghost var w1 := Now(vm, own);
    NewIsOwned(vm.mem, copy, vm.pmm.free);
    CreatedApart(w0, w1, src, ownS, dst);
    st, own := FillCopy(vm, root, dst, ownS, w0, own);
    OpenFromStart(w0.mem, w1.mem, vm.mem, src, dst);
    if st.NoPage? {
      GiveUp(w0, w1, Now(vm, own), dst);
      Destroy(vm, copy, own);
      copy := 0;
    }
  }

  lemma PagesBelow(pmm: Pmm.PageAllocator)
    requires pmm.Valid()
    ensures forall f | f in pmm.free :: 0 <= f < pmm.totalPages
  {}

  lemma NeedsRoot(ownS: Owners, free: set<int>)
    requires free == {}
    ensures |Needs(ownS)| > |free|
  {
    PlaceIs(PagesOf(ownS), []);
  }

  lemma CreatedApart(w0: World, w1: World, src: Space, ownS: Owners, dst: Space)
    requires Owned(w0.mem, src, ownS, w0.free) && dst.root in w0.free && w1.free == w0.free - {dst.root}
             && w1.own == map[dst.root := []]
    requires forall f | f in w0.mem && f != dst.root :: f in w1.mem && w1.mem[f] == w0.mem[f]
    ensures JustCreated(w0, w1, dst) && (UserLeaves(w0.mem, src) ==> UserLeaves(w1.mem, src))
  {
    hide UserLeaves;
    OwnedFrame(w0.mem, w1.mem, src, ownS, w0.free, w1.free);
    SameLeavesUser(w0.mem, w1.mem, src);
  }

  lemma OpenFromStart(m0: Memory, m1: Memory, m: Memory, src: Space, dst: Space)
    requires UserLeaves(m0, src) ==> UserLeaves(m1, src)
    requires OpenTables(m1, dst)
    ensures StaysOpen(m1, m, src, dst) && UserLeaves(m0, src) ==> OpenTables(m, dst)
  {
    hide UserLeaves, OpenTables;
  }

  /** The unfinished copy holds exactly the pages taken, and giving them back touches nothing else. */
  lemma GiveUp(w0: World, w1: World, w: World, dst: Space)
    requires JustCreated(w0, w1, dst) && Kept(w1, w, dst) && Owned(w.mem, dst, w.own, w.free)
    ensures w.free + w.own.Keys == w0.free && (forall f | f in w.own :: f in w0.free && f !in w.free)
    ensures SourceSpared(w0, w)
  {
    OwnedPagesTaken(w0, w1, w, dst);
    forall f | f in w.own
      ensures f in w0.free && f !in w.free
    {
      assert f in w.own.Keys;
    }
  }

  lemma SameLeavesUser(m: Memory, m': Memory, src: Space)
    requires SameLeaves(m, m', src)
    ensures UserLeaves(m, src) ==> UserLeaves(m', src)
  {
    hide UserBit, Leaf;
  }

  /** In a copy the user may do at every page exactly what the user may do in the source. */
  lemma CopyAccess(w0: World, w: World, src: Space, ownS: Owners, dst: Space, q: Path, write: bool)
    requires DeepCopy(w0, w, src, ownS, dst) && OpenTables(w.mem, src) && OpenTables(w.mem, dst) && IsPage(q)
    ensures UserMay(w.mem, dst, q, write) <==> UserMay(w.mem, src, q, write)
  {
    hide OpenTables, UserMay, Leaf, Apart;
    LeafDecides(w.mem, src, q, write);
    LeafDecides(w.mem, dst, q, write);
    assert Copied(w.mem, src, dst, q);
    SameFlags(Leaf(w.mem, src, q), Leaf(w.mem, dst, q), write);
  }

  lemma SameFlags(a: nat, b: nat, write: bool)
    requires if Present(a) then Present(b) && Flags(b) == Flags(a) else b == 0
    ensures EntryLets(b, write) <==> EntryLets(a, write)
  {
    assert a == FrameOf(a) * PAGE_SIZE + Flags(a) && b == FrameOf(b) * PAGE_SIZE + Flags(b);
    LowBits(FrameOf(a), Flags(a));
    LowBits(FrameOf(b), Flags(b));
  }

  /** Clone followed by destroy leaves the allocator's free pages and counter exactly as they were. */
  method CloneThenDestroy(vm: AddressSpaces, root: nat, ghost ownS: Owners) returns (st: Status)
    requires vm.Valid() && Owned(vm.mem, Space(root, USER_ENTRIES), ownS, vm.pmm.free)
    modifies vm`mem, vm.pmm, vm.pmm.bitmap
    ensures vm.pmm.Valid() && vm.pmm.Drift() == old(vm.pmm.Drift())
    ensures st.Done? <==> |Needs(ownS)| <= |old(vm.pmm.free)|
    ensures st.NoPage? <==> Stops(ownS, |old(vm.pmm.free)|)
    ensures !st.NullTable? ==> vm.pmm.free == old(vm.pmm.free) && vm.pmm.freePages == old(vm.pmm.freePages)
  {
    var copy;
    ghost var own, w0 := map[], Now(vm, map[]);
    st, copy, own := Clone(vm, root, ownS);
    if st.Done? {
      CopyInUse(vm.pmm, w0, Now(vm, own), Space(root, USER_ENTRIES), ownS, Space(copy, USER_ENTRIES));
      Destroy(vm, copy, own);
    }
  }

  lemma CopyInUse(pmm: Pmm.PageAllocator, w0: World, w: World, src: Space, ownS: Owners, dst: Space)
    requires DeepCopy(w0, w, src, ownS, dst) && w.free == pmm.free
    requires forall f | f in w0.free :: 0 <= f < pmm.totalPages
    ensures Owned(w.mem, dst, w.own, w.free) && w.free + w.own.Keys == w0.free
    ensures forall f | f in w.own :: pmm.InUse(f)
  {
    forall f | f in w.own
      ensures pmm.InUse(f)
    {
      assert f in w.own.Keys;
    }
  }
}
