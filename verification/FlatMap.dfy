/** The page table tree refines a flat map from virtual pages to leaf entries, over any run of operations. */
module FlatMap {
  import opened Common
  import Pmm
  import opened PageTables
  import opened Vmm
  import ForkSpec
  import opened MissingTables

  datatype Op =
    | MapOp(virt: nat, phys: nat, flags: nat)
    | RangeOp(virt: nat, phys: nat, size: nat, flags: nat)
    | UnmapOp(virt: nat)

  function PageCount(size: nat): nat {
    (size + PAGE_SIZE - 1) / PAGE_SIZE
  }

  /** The offsets `vmm_map_range` goes through. */
  predicate IsOffset(off: nat, size: nat) {
    off < size && off % PAGE_SIZE == 0
  }

  lemma OffsetIff(off: nat, size: nat)
    ensures IsOffset(off, size) <==> off % PAGE_SIZE == 0 && off / PAGE_SIZE < PageCount(size)
    ensures IsOffset(off, size) ==> off == off / PAGE_SIZE * PAGE_SIZE
  {}

  lemma PageOffset(n: nat, size: nat)
    requires n < PageCount(size)
    ensures IsOffset(n * PAGE_SIZE, size)
  {}

  /** The entry of page p after mapping n pages in a row from (virt, phys), when it was `base` before. */
  function AfterRange(virt: nat, phys: nat, n: nat, flags: nat, p: Path, base: nat): nat {
    if n == 0 then base
    else if p == PathOf(virt + (n - 1) * PAGE_SIZE) then MakeLeaf(phys + (n - 1) * PAGE_SIZE, flags)
    else AfterRange(virt, phys, n - 1, flags, p, base)
  }

  /** The flat map: what the entry of page p is after the operations, when it was `base` before. */
  function After(ops: seq<Op>, p: Path, base: nat): nat {
    if ops == [] then base else
    var before := After(ops[..|ops| - 1], p, base);
    match ops[|ops| - 1]
    case MapOp(virt, phys, flags) => if p == PathOf(virt) then MakeLeaf(phys, flags) else before
    case UnmapOp(virt) => if p == PathOf(virt) then 0 else before
    case RangeOp(virt, phys, size, flags) => AfterRange(virt, phys, PageCount(size), flags, p, before)
  }

  // ---- The pages mapped, and their tables ----

  function RangePaths(virt: nat, n: nat): set<Path> {
    if n == 0 then {} else RangePaths(virt, n - 1) + {PathOf(virt + (n - 1) * PAGE_SIZE)}
  }

  /** The pages of a range of `size` bytes. */
  function SizePaths(virt: nat, size: nat): set<Path> {
    set off: nat | 0 <= off < size && IsOffset(off, size) :: PathOf(virt + off)
  }

  lemma {:induction false} RangeMember(virt: nat, n: nat, p: Path)
    ensures p in RangePaths(virt, n) <==>
              exists k: nat {:trigger k * PAGE_SIZE} :: k < n && p == PathOf(virt + k * PAGE_SIZE)
  {
    hide PathOf;
    if n > 0 {
      RangeMember(virt, n - 1, p);
      if p == PathOf(virt + (n - 1) * PAGE_SIZE) {
        assert n - 1 < n;
      }
    }
  }

  lemma SizeRange(virt: nat, size: nat)
    ensures SizePaths(virt, size) == RangePaths(virt, PageCount(size))
  {
    hide PathOf, PageCount, IsOffset, RangePaths;
    forall p
      ensures p in SizePaths(virt, size) <==> p in RangePaths(virt, PageCount(size))
    {
      RangeMember(virt, PageCount(size), p);
      if p in RangePaths(virt, PageCount(size)) {
        var k: nat :| k < PageCount(size) && p == PathOf(virt + k * PAGE_SIZE);
        PageOffset(k, size);
        OffsetIff(k * PAGE_SIZE, size);
      }
      if p in SizePaths(virt, size) {
        var off: nat :| off < size && IsOffset(off, size) && p == PathOf(virt + off);
        OffsetIff(off, size);
        assert off / PAGE_SIZE * PAGE_SIZE == off;
      }
    }
  }

  /** The pages an operation maps. */
  function OpPaths(op: Op): set<Path> {
    match op
    case MapOp(virt, _, _) => {PathOf(virt)}
    case RangeOp(virt, _, size, _) => SizePaths(virt, size)
    case UnmapOp(_) => {}
  }

  function Targets(ops: seq<Op>): set<Path> {
    if ops == [] then {} else Targets(ops[..|ops| - 1]) + OpPaths(ops[|ops| - 1])
  }

  lemma {:induction false} RangeMono(virt: nat, n: nat, k: nat)
    requires n <= k
    ensures RangePaths(virt, n) <= RangePaths(virt, k)
  {
    hide PathOf;
    if n < k {
      RangeMono(virt, n, k - 1);
    }
  }

  lemma {:induction false} TargetsMono(ops: seq<Op>, n: nat)
    requires n <= |ops|
    ensures Targets(ops[..n]) <= Targets(ops)
    decreases |ops|
  {
    hide OpPaths;
    if n < |ops| {
      TargetsMono(ops[..|ops| - 1], n);
      assert ops[..|ops| - 1][..n] == ops[..n];
    } else {
      assert ops[..n] == ops;
    }
  }

  /** Whatever the flags, a mapped page is present. */
  lemma LeafPresent(phys: nat, flags: nat)
    ensures Present(MakeLeaf(phys, flags))
  {
    hide Entry;
    var low := flags % PAGE_SIZE;
    var f := if Present(low) then low else low + 1;
    OddUp(low);
    EntryParts(phys / PAGE_SIZE, f);
    Parity(0x8_0000_0000_0000, Entry(phys / PAGE_SIZE, f));
  }

  lemma OddUp(low: nat)
    ensures Present(if Present(low) then low else low + 1)
  {}

  /** What a call of `vmm_map` did to the tables. */
  lemma MapTables(ok: bool, m: Memory, own: Owners, free: set<int>, m': Memory, own': Owners, free': set<int>, s: Space,
                  p: Path, phys: nat, flags: nat)
    requires Sound(m, s, own, free) && Extends(m, own, free, m', own', free', s) && GainedOn(own, own', p) && |p| == 4
    requires ok ==> LeafSet(m, m', s, p, MakeLeaf(phys, flags))
    requires !ok ==> Node(m', s, p[..3]).None?
    ensures ok ==> Grown(m, m', s, {p})
    ensures !ok ==> Stuck(m, m', s, {p})
  {
    hide Extends, Sound, GainedOn, MakeLeaf, Grown, Stuck, Node;
    if ok {
      LeafPresent(phys, flags);
      ForkSpec.DataNode(m', s, p);
      MapGrows(m, own, free, m', own', free', s, p);
    } else {
      MapStuck(m, own, free, m', own', free', s, p);
    }
  }

  /** Every page the operation names lies under the PML4 entries of the space. */
  ghost predicate Within(op: Op, top: nat) {
    match op
    case RangeOp(virt, _, size, _) => forall off: nat | IsOffset(off, size) :: PathOf(virt + off)[0] < top
    case _ => PathOf(op.virt)[0] < top
  }

  /** Two addresses name the same entry exactly when they lie in the same page, up to bits above 47. */
  lemma SamePage(a: nat, b: nat)
    ensures PathOf(a) == PathOf(b) <==> a / PAGE_SIZE % 0x10_0000_0000 == b / PAGE_SIZE % 0x10_0000_0000
  {
    SplitRebuilds(a);
    SplitRebuilds(b);
    RebuildSplits(PathOf(a));
    RebuildSplits(PathOf(b));
  }

  lemma DistinctPages(virt: nat, j: nat, k: nat)
    requires j != k && j < 0x10_0000_0000 && k < 0x10_0000_0000
    ensures PathOf(virt + j * PAGE_SIZE) != PathOf(virt + k * PAGE_SIZE)
  {
    SamePage(virt + j * PAGE_SIZE, virt + k * PAGE_SIZE);
    PageOfSum(virt, j);
    PageOfSum(virt, k);
    ModDistinct(virt / PAGE_SIZE, j, k);
  }

  lemma ModDistinct(base: nat, j: nat, k: nat)
    requires j != k && j < 0x10_0000_0000 && k < 0x10_0000_0000
    ensures (base + j) % 0x10_0000_0000 != (base + k) % 0x10_0000_0000
  {}

  lemma PageOfSum(virt: nat, j: nat)
    ensures (virt + j * PAGE_SIZE) / PAGE_SIZE == virt / PAGE_SIZE + j
  {}

  /**
   * What `vmm_get_phys` makes of a mapping: the frame asked for, unless NX was set on a frame address without that bit.
   */
  lemma FrameBack(phys: nat, flags: nat)
    ensures FrameOf(MakeLeaf(phys, flags)) == phys / PAGE_SIZE <==> flags < VMM_NX || phys >= VMM_NX
  {
    var low := flags % PAGE_SIZE;
    var f := if Present(low) then low else low + 1;
    EntryParts(phys / PAGE_SIZE, f);
    var e := Entry(phys / PAGE_SIZE, f);
    assert (e + VMM_NX) / PAGE_SIZE == e / PAGE_SIZE + 0x8_0000_0000_0000;
    assert VMM_NX % PAGE_SIZE == 0;
    assert e < VMM_NX <==> phys < VMM_NX;
  }

  /** The tree and the flat map agree at every page: tree entry = flat entry, given the same start. */
  ghost predicate Agrees(m0: Memory, m: Memory, s: Space, ops: seq<Op>) {
    forall p | |p| == 4 :: Leaf(m, s, p) == After(ops, p, Leaf(m0, s, p))
  }

  ghost predicate AgreesRange(m0: Memory, m: Memory, s: Space, virt: nat, phys: nat, n: nat, flags: nat) {
    forall p | |p| == 4 :: Leaf(m, s, p) == AfterRange(virt, phys, n, flags, p, Leaf(m0, s, p))
  }

  /** One step of `vmm_map_range`, measured from where the range began. */
  method MapNext(vm: AddressSpaces, root: nat, virt: nat, phys: nat, flags: nat, off: nat, ghost n: nat,
                 ghost s: Space, ghost own: Owners,
                 ghost m0: Memory, ghost own0: Owners, ghost free0: set<int>)
    returns (ok: bool, ghost own': Owners)
    requires vm.Valid() && Sound(m0, s, own0, free0) && s.root == root
    requires off == n * PAGE_SIZE && PathOf(virt + off)[0] < s.top
    requires Extends(m0, own0, free0, vm.mem, own, vm.pmm.free, s)
    requires AgreesRange(m0, vm.mem, s, virt, phys, n, flags)
    modifies vm`mem, vm.pmm, vm.pmm.bitmap
    ensures vm.Valid()
    ensures Extends(m0, own0, free0, vm.mem, own', vm.pmm.free, s)
    ensures ok ==> AgreesRange(m0, vm.mem, s, virt, phys, n + 1, flags)
    ensures ok ==> Grown(old(vm.mem), vm.mem, s, {PathOf(virt + n * PAGE_SIZE)})
    ensures !ok ==> vm.pmm.free == {} && Stuck(old(vm.mem), vm.mem, s, {PathOf(virt + n * PAGE_SIZE)})
  {
    hide OpenTables, UserBit, PathOf, MakeLeaf, Extends, LeafSet, SameLeaves, AgreesRange, Sound;
    hide Pmm.PageAllocator.Valid;
    hide Grown, Stuck, GainedOn, Node;
    ExtendsSound(m0, own0, free0, vm.mem, own, vm.pmm.free, s);
    ok, own' := vm.Map(root, virt + off, phys + off, flags, s, own);
    MapTables(ok, old(vm.mem), own, old(vm.pmm.free), vm.mem, own', vm.pmm.free, s, PathOf(virt + off), phys + off,
        flags);
    ExtendsTrans(m0, own0, free0, old(vm.mem), own, old(vm.pmm.free), vm.mem, own', vm.pmm.free, s);
    if ok {
      RangeStep(m0, old(vm.mem), vm.mem, s, virt, phys, n, flags, virt + off, phys + off);
    }
  }

  lemma RangeStep(m0: Memory, m: Memory, m': Memory, s: Space, virt: nat, phys: nat, n: nat, flags: nat, v: nat, f: nat)
    requires AgreesRange(m0, m, s, virt, phys, n, flags)
    requires v == virt + n * PAGE_SIZE && f == phys + n * PAGE_SIZE
    requires LeafSet(m, m', s, PathOf(v), MakeLeaf(f, flags))
    ensures AgreesRange(m0, m', s, virt, phys, n + 1, flags)
  {}

  /**
   * Said of the offsets alone: the page at every offset maps the frame at that offset, the later one where the range
   * is so long that two of its pages share an entry, and every entry of no page of the range is as it was.
   */
  ghost predicate RangeMapped(m: Memory, m': Memory, s: Space, virt: nat, phys: nat, size: nat, flags: nat) {
    && (forall off: nat | IsOffset(off, size) && size <= off + 0x1_0000_0000_0000 ::
          Leaf(m', s, PathOf(virt + off)) == MakeLeaf(phys + off, flags))
    && (forall p | |p| == 4 && (forall off: nat | IsOffset(off, size) :: PathOf(virt + off) != p) ::
          Leaf(m', s, p) == Leaf(m, s, p))
  }

  /** The flat map of a range, said of the offsets alone. */
  lemma RangeExact(virt: nat, phys: nat, size: nat, flags: nat, p: Path, base: nat)
    ensures forall off: nat | IsOffset(off, size) && size <= off + 0x1_0000_0000_0000 && p == PathOf(virt + off) ::
              AfterRange(virt, phys, PageCount(size), flags, p, base) == MakeLeaf(phys + off, flags)
    ensures (forall off: nat | IsOffset(off, size) :: PathOf(virt + off) != p) ==>
              AfterRange(virt, phys, PageCount(size), flags, p, base) == base
  {
    hide PathOf, PageCount, IsOffset, MakeLeaf;
    var n := PageCount(size);
    forall off: nat | IsOffset(off, size) && size <= off + 0x1_0000_0000_0000 && p == PathOf(virt + off)
      ensures AfterRange(virt, phys, n, flags, p, base) == MakeLeaf(phys + off, flags)
    {
      OffsetIff(off, size);
      LastLap(off, size);
      LastWins(virt, phys, n, flags, off / PAGE_SIZE, base);
    }
    if forall off: nat | IsOffset(off, size) :: PathOf(virt + off) != p {
      forall k: nat | k < n
        ensures PathOf(virt + k * PAGE_SIZE) != p
      {
        PageOffset(k, size);
      }
      Untouched(virt, phys, n, flags, p, base);
    }
  }

  lemma LastLap(off: nat, size: nat)
    requires size <= off + 0x1_0000_0000_0000 && off % PAGE_SIZE == 0
    ensures PageCount(size) <= off / PAGE_SIZE + 0x10_0000_0000
  {}

  lemma {:induction false} LastWins(virt: nat, phys: nat, n: nat, flags: nat, k: nat, base: nat)
    requires k < n <= k + 0x10_0000_0000
    ensures AfterRange(virt, phys, n, flags, PathOf(virt + k * PAGE_SIZE), base) ==
            MakeLeaf(phys + k * PAGE_SIZE, flags)
  {
    hide PathOf, MakeLeaf;
    if k < n - 1 {
      DistinctPages(virt + k * PAGE_SIZE, 0, n - 1 - k);
      assert virt + k * PAGE_SIZE + (n - 1 - k) * PAGE_SIZE == virt + (n - 1) * PAGE_SIZE;
      LastWins(virt, phys, n - 1, flags, k, base);
    }
  }

  lemma {:induction false} Untouched(virt: nat, phys: nat, n: nat, flags: nat, p: Path, base: nat)
    requires forall k: nat | k < n :: PathOf(virt + k * PAGE_SIZE) != p
    ensures AfterRange(virt, phys, n, flags, p, base) == base
  {
    hide PathOf, MakeLeaf;
    if n > 0 {
      assert PathOf(virt + (n - 1) * PAGE_SIZE) != p;
      Untouched(virt, phys, n - 1, flags, p, base);
    }
  }

  /** The same for a range among other operations: what it does to an entry, whatever came before. */
  lemma AfterRangeOp(ops: seq<Op>, virt: nat, phys: nat, size: nat, flags: nat, p: Path, base: nat)
    ensures var after := After(ops + [RangeOp(virt, phys, size, flags)], p, base);
            && (forall off: nat | IsOffset(off, size) && size <= off + 0x1_0000_0000_0000 && p == PathOf(virt + off) ::
                  after == MakeLeaf(phys + off, flags))
            && ((forall off: nat | IsOffset(off, size) :: PathOf(virt + off) != p) ==> after == After(ops, p, base))
  {
    hide PathOf, PageCount, IsOffset, MakeLeaf, AfterRange;
    var ops' := ops + [RangeOp(virt, phys, size, flags)];
    assert ops'[..|ops'| - 1] == ops;
    RangeExact(virt, phys, size, flags, p, After(ops, p, base));
  }

  lemma RangeDone(m: Memory, m': Memory, s: Space, virt: nat, phys: nat, size: nat, flags: nat)
    requires AgreesRange(m, m', s, virt, phys, PageCount(size), flags)
    ensures RangeMapped(m, m', s, virt, phys, size, flags)
  {
    hide PathOf, PageCount, IsOffset, MakeLeaf, AfterRange, Leaf;
    forall p: Path | |p| == 4
      ensures (forall off: nat | IsOffset(off, size) :: PathOf(virt + off) != p) ==> Leaf(m', s, p) == Leaf(m, s, p)
    {
      RangeExact(virt, phys, size, flags, p, Leaf(m, s, p));
    }
    forall off: nat | IsOffset(off, size) && size <= off + 0x1_0000_0000_0000
      ensures Leaf(m', s, PathOf(virt + off)) == MakeLeaf(phys + off, flags)
    {
      RangeExact(virt, phys, size, flags, PathOf(virt + off), Leaf(m, s, PathOf(virt + off)));
    }
  }

  /** `vmm_map_range`. */
  method MapRange(vm: AddressSpaces, root: nat, virt: nat, phys: nat, size: nat, flags: nat, ghost s: Space,
                  ghost own: Owners)
    returns (ok: bool, ghost own': Owners)
    requires vm.Valid() && Sound(vm.mem, s, own, vm.pmm.free) && s.root == root
    requires Within(RangeOp(virt, phys, size, flags), s.top)
    modifies vm`mem, vm.pmm, vm.pmm.bitmap
    ensures vm.Valid()
    ensures Extends(old(vm.mem), own, old(vm.pmm.free), vm.mem, own', vm.pmm.free, s)
    ensures ok ==> RangeMapped(old(vm.mem), vm.mem, s, virt, phys, size, flags)
    ensures ok ==> AgreesRange(old(vm.mem), vm.mem, s, virt, phys, PageCount(size), flags)
    ensures ok ==> Grown(old(vm.mem), vm.mem, s, SizePaths(virt, size))
    ensures !ok ==> vm.pmm.free == {} && Stuck(old(vm.mem), vm.mem, s, SizePaths(virt, size))
  {
    hide Extends, Sound, Grown, Stuck, PathOf, AgreesRange, RangeMapped, SizePaths, PageCount, IsOffset;
    hide Pmm.PageAllocator.Valid;
    ok, own' := true, own;
    ExtendsRefl(vm.mem, own, vm.pmm.free, s);
    NoneGrown(vm.mem, own, vm.pmm.free, vm.mem, s);
    RangeNone(vm.mem, s, virt, phys, flags);
    SizeRange(virt, size);
    var off := 0;
    ghost var n := 0;
    while off < size
      invariant off == n * PAGE_SIZE && n <= PageCount(size)
      invariant vm.Valid()
      invariant Extends(old(vm.mem), own, old(vm.pmm.free), vm.mem, own', vm.pmm.free, s)
      invariant AgreesRange(old(vm.mem), vm.mem, s, virt, phys, n, flags)
      invariant Grown(old(vm.mem), vm.mem, s, RangePaths(virt, n))
    {
      NextOffset(n, size);
      ghost var m := vm.mem;
      ok, own' := MapNext(vm, root, virt, phys, flags, off, n, s, own', old(vm.mem), own, old(vm.pmm.free));
      ghost var next := {PathOf(virt + n * PAGE_SIZE)};
      if !ok {
        StuckThen(old(vm.mem), m, vm.mem, s, RangePaths(virt, n), next);
        RangeMono(virt, n + 1, PageCount(size));
        StuckIn(old(vm.mem), vm.mem, s, RangePaths(virt, n) + next, RangePaths(virt, PageCount(size)));
        return;
      }
      GrownThen(old(vm.mem), m, vm.mem, s, RangePaths(virt, n), next);
      off := off + PAGE_SIZE;
      n := n + 1;
    }
    LastOffset(n, size);
    RangeDone(old(vm.mem), vm.mem, s, virt, phys, size, flags);
  }

  lemma NextOffset(n: nat, size: nat)
    requires n * PAGE_SIZE < size
    ensures IsOffset(n * PAGE_SIZE, size) && n + 1 <= PageCount(size)
  {}

  lemma LastOffset(n: nat, size: nat)
    requires size <= n * PAGE_SIZE && n <= PageCount(size)
    ensures n == PageCount(size)
  {}

  lemma RangeNone(m: Memory, s: Space, virt: nat, phys: nat, flags: nat)
    ensures AgreesRange(m, m, s, virt, phys, 0, flags)
  {}

  lemma StuckIn(m: Memory, m': Memory, s: Space, a: set<Path>, b: set<Path>)
    requires Stuck(m, m', s, a) && a <= b
    ensures Stuck(m, m', s, b)
  {
    hide Stuck;
    StuckMore(m, m', s, a, b);
    assert a + b == b;
  }

  /** One operation, on the tree. */
  method Apply(vm: AddressSpaces, root: nat, op: Op, ghost s: Space, ghost own: Owners)
    returns (ok: bool, ghost own': Owners)
    requires vm.Valid() && Sound(vm.mem, s, own, vm.pmm.free) && s.root == root && Within(op, s.top)
    modifies vm`mem, vm.pmm, vm.pmm.bitmap
    ensures vm.Valid()
    ensures Extends(old(vm.mem), own, old(vm.pmm.free), vm.mem, own', vm.pmm.free, s)
    ensures ok ==> forall p | |p| == 4 :: Leaf(vm.mem, s, p) == After([op], p, Leaf(old(vm.mem), s, p))
    ensures ok ==> Grown(old(vm.mem), vm.mem, s, OpPaths(op))
    ensures !ok ==> vm.pmm.free == {} && Stuck(old(vm.mem), vm.mem, s, OpPaths(op))
  {
    hide Extends, Sound, Grown, Stuck, PathOf, RangePaths, GainedOn, MakeLeaf, RangeMapped, Pmm.PageAllocator.Valid;
    match op
    case MapOp(virt, phys, flags) =>
      ok, own' := vm.Map(root, virt, phys, flags, s, own);
      MapTables(ok, old(vm.mem), own, old(vm.pmm.free), vm.mem, own', vm.pmm.free, s, PathOf(virt), phys, flags);
    case UnmapOp(virt) =>
      vm.Unmap(root, virt, s, own);
      ok, own' := true, own;
      NoneGrown(old(vm.mem), own, vm.pmm.free, vm.mem, s);
    case RangeOp(virt, phys, size, flags) =>
      ok, own' := MapRange(vm, root, virt, phys, size, flags, s, own);
  }

  lemma AfterStep(ops: seq<Op>, op: Op, p: Path, base: nat)
    ensures After(ops + [op], p, base) == After([op], p, After(ops, p, base))
  {
    assert (ops + [op])[..|ops|] == ops;
  }

  /**
   * Any run. At every page, touched or not, the tree then holds what the flat map holds; the tables
   * taken on the way come from the allocator and alias nothing. The run succeeds exactly when there
   * are as many free pages as tables missing for the pages it maps, and takes just those; otherwise
   * it breaks off, where the source would go on with a NULL table.
   */
  method Run(vm: AddressSpaces, root: nat, ops: seq<Op>, ghost s: Space, ghost own: Owners)
    returns (ok: bool, ghost own': Owners)
    requires vm.Valid() && Sound(vm.mem, s, own, vm.pmm.free) && s.root == root
    requires forall i | 0 <= i < |ops| :: Within(ops[i], s.top)
    modifies vm`mem, vm.pmm, vm.pmm.bitmap
    ensures vm.Valid()
    ensures Extends(old(vm.mem), own, old(vm.pmm.free), vm.mem, own', vm.pmm.free, s)
    ensures ok ==> Agrees(old(vm.mem), vm.mem, s, ops)
    ensures ok <==> |Missing(old(vm.mem), s, Targets(ops))| <= |old(vm.pmm.free)|
    ensures ok ==> |vm.pmm.free| == |old(vm.pmm.free)| - |Missing(old(vm.mem), s, Targets(ops))|
  {
    hide Extends, Sound, Grown, Stuck, OpPaths, After, Missing, Within, Agrees, Pmm.PageAllocator.Valid;
    ok, own' := true, own;
    ExtendsRefl(vm.mem, own, vm.pmm.free, s);
    NoneGrown(vm.mem, own, vm.pmm.free, vm.mem, s);
    AgreesNone(vm.mem, s);
    for i := 0 to |ops|
      invariant vm.Valid()
      invariant Extends(old(vm.mem), own, old(vm.pmm.free), vm.mem, own', vm.pmm.free, s)
      invariant Agrees(old(vm.mem), vm.mem, s, ops[..i]) && Grown(old(vm.mem), vm.mem, s, Targets(ops[..i]))
    {
      ghost var m, free, before := vm.mem, vm.pmm.free, own';
      ExtendsSound(old(vm.mem), own, old(vm.pmm.free), m, before, free, s);
      ok, own' := Apply(vm, root, ops[i], s, before);
      ExtendsTrans(old(vm.mem), own, old(vm.pmm.free), m, before, free, vm.mem, own', vm.pmm.free, s);
      assert ops[..i + 1] == ops[..i] + [ops[i]] && ops[..i + 1][..i] == ops[..i];
      if !ok {
        StuckThen(old(vm.mem), m, vm.mem, s, Targets(ops[..i]), OpPaths(ops[i]));
        TargetsMono(ops, i + 1);
        StuckIn(old(vm.mem), vm.mem, s, Targets(ops[..i + 1]), Targets(ops));
        StuckCount(old(vm.mem), own, old(vm.pmm.free), vm.mem, own', s, Targets(ops));
        return;
      }
      GrownThen(old(vm.mem), m, vm.mem, s, Targets(ops[..i]), OpPaths(ops[i]));
      AgreesStep(old(vm.mem), m, vm.mem, s, ops[..i], ops[i]);
    }
    assert ops[..|ops|] == ops;
    GrownCount(old(vm.mem), own, old(vm.pmm.free), vm.mem, own', vm.pmm.free, s, Targets(ops));
  }

  lemma AgreesNone(m: Memory, s: Space)
    ensures Agrees(m, m, s, [])
  {}

  lemma AgreesStep(m0: Memory, m: Memory, m': Memory, s: Space, ops: seq<Op>, op: Op)
    requires Agrees(m0, m, s, ops)
    requires forall p | |p| == 4 :: Leaf(m', s, p) == After([op], p, Leaf(m, s, p))
    ensures Agrees(m0, m', s, ops + [op])
  {
    forall p | |p| == 4
      ensures Leaf(m', s, p) == After(ops + [op], p, Leaf(m0, s, p))
    {
      AfterStep(ops, op, p, Leaf(m0, s, p));
    }
  }

  /** After a run, `vmm_get_phys` at any address gives the frame address the flat map has there. */
  method RunThenGetPhys(vm: AddressSpaces, root: nat, ops: seq<Op>, virt: nat, ghost s: Space, ghost own: Owners)
    returns (ok: bool, phys: nat)
    requires vm.Valid() && Sound(vm.mem, s, own, vm.pmm.free) && s.root == root && PathOf(virt)[0] < s.top
    requires forall i | 0 <= i < |ops| :: Within(ops[i], s.top)
    modifies vm`mem, vm.pmm, vm.pmm.bitmap
    ensures ok <==> |Missing(old(vm.mem), s, Targets(ops))| <= |old(vm.pmm.free)|
    ensures ok ==> phys == FrameOf(After(ops, PathOf(virt), Leaf(old(vm.mem), s, PathOf(virt)))) * PAGE_SIZE
  {
    hide Missing, Targets, PathOf;
    ghost var own';
    ok, own' := Run(vm, root, ops, s, own);
    phys := vm.GetPhys(root, virt, s, own');
  }
}
