/** mm/vmm.c: page tables in physical memory, on top of the page allocator. */
module Vmm {
  import opened Common
  import Pmm
  import opened PageTables

  /** The leaf entry `vmm_map` writes: address bits, low flags with the present bit, NX when asked for. */
  function MakeLeaf(phys: nat, flags: nat): nat {
    var low := flags % PAGE_SIZE;
    var e := Entry(phys / PAGE_SIZE, if Present(low) then low else low + 1);
    if flags >= VMM_NX && e < VMM_NX then e + VMM_NX else e
  }

  function TableFlags(flags: nat): nat {
    if UserBit(flags) then 1 + VMM_WRITABLE + VMM_USER else 1 + VMM_WRITABLE
  }

  /** A new table is present and writable, and open to the user exactly when mapping for the user. */
  lemma TableFlagsOpen(flags: nat)
    ensures Present(TableFlags(flags)) && TableFlags(flags) < 8
    ensures WriteBit(TableFlags(flags)) && (UserBit(TableFlags(flags)) <==> UserBit(flags))
  {}

  /** Part by part: the address bits below 63, the low flags with the present bit, and bit 63 from either. */
  lemma LeafIs(phys: nat, flags: nat)
    requires phys < TWO64 && flags < TWO64
    ensures var e := MakeLeaf(phys, flags);
            && e < TWO64 && e % 4096 == flags % 4096 + (if flags % 2 == 0 then 1 else 0)
            && e / 4096 % 0x8_0000_0000_0000 == phys / 4096 % 0x8_0000_0000_0000
            && (e >= VMM_NX <==> flags >= VMM_NX || phys >= VMM_NX)
  {
    var low := flags % PAGE_SIZE;
    assert flags % 2 == low % 2 by {
      Parity(flags / PAGE_SIZE, low);
    }
    var f := if low % 2 == 1 then low else low + 1;
    var n := phys / PAGE_SIZE;
    EntryParts(n, f);
    var e := n * PAGE_SIZE + f;
    assert e == Entry(n, f) && (e >= VMM_NX <==> n >= 0x8_0000_0000_0000);
    DivMod(n + 0x8_0000_0000_0000, f);
    assert e + VMM_NX == (n + 0x8_0000_0000_0000) * PAGE_SIZE + f;
  }

  lemma TableAt(m: Memory, s: Space, own: Owners, free: set<int>, f: nat)
    requires Sound(m, s, own, free) && f in own && |own[f]| <= 2
    ensures IsTable(m, f)
  {
    assert Node(m, s, own[f]) == Some(f);
  }

  /** A present entry leads to a table of the tree. */
  lemma TableThere(m: Memory, s: Space, own: Owners, free: set<int>, f: nat, i: nat)
    requires Sound(m, s, own, free) && f in own && |own[f]| <= 2 && i < ENTRIES && (own[f] == [] ==> i < s.top)
    requires IsTable(m, f) && Present(m[f].entries[i])
    ensures FrameOf(m[f].entries[i]) in own && own[FrameOf(m[f].entries[i])] == own[f] + [i]
    ensures Extends(m, own, free, m, own, free, s) && SameLeaves(m, m, s) && GainedOn(own, own, own[f] + [i])
  {
    hide Present, FrameOf, Extends;
    ExtendsRefl(m, own, free, s);
    assert Node(m, s, own[f]) == Some(f);
    assert Parent(own[f] + [i]) == own[f];
    assert Node(m, s, own[f] + [i]).Some?;
  }

  /** An absent entry leads nowhere. */
  lemma NoTableYet(m: Memory, s: Space, own: Owners, free: set<int>, f: nat, i: nat)
    requires Sound(m, s, own, free) && f in own && |own[f]| <= 2 && i < ENTRIES && IsTable(m, f)
             && !Present(m[f].entries[i])
    ensures Node(m, s, own[f] + [i]).None?
    ensures Extends(m, own, free, m, own, free, s) && SameLeaves(m, m, s) && GainedOn(own, own, own[f] + [i])
  {
    ExtendsRefl(m, own, free, s);
    assert Parent(own[f] + [i]) == own[f];
  }

  /** A free page, zeroed and entered where nothing was. */
  lemma TableHung(m: Memory, s: Space, own: Owners, free: set<int>, f: nat, i: nat, page: nat, flags: nat)
    requires Sound(m, s, own, free) && f in own && |own[f]| <= 2 && i < ENTRIES && (own[f] == [] ==> i < s.top)
    requires IsTable(m, f) && !Present(m[f].entries[i]) && page in free && Present(flags) && flags < PAGE_SIZE
    ensures page != f
    ensures var m' := m[page := ZeroTable()][f := Table(m[f].entries[i := Entry(page, flags)])];
            && Extends(m, own, free, m', own[page := own[f] + [i]], free - {page}, s) && SameLeaves(m, m', s)
            && GainedOn(own, own[page := own[f] + [i]], own[f] + [i])
            && FrameOf(m'[f].entries[i]) == page
            && (OpenTables(m, s) && UserBit(flags) && WriteBit(flags) ==> OpenTables(m', s))
            && (forall t | t !in free && IsTable(m, t) :: IsTable(m', t))
  {
    hide OpenTables, UserBit, WriteBit;
    var m' := m[page := ZeroTable()][f := Table(m[f].entries[i := Entry(page, flags)])];
    EntryParts(page, flags);
    AddTableGrows(m, m', s, own, f, page, i, Entry(page, flags), free);
    LowBits(page, flags);
    if OpenTables(m, s) && UserBit(flags) && WriteBit(flags) {
      AddTableOpen(m, m', s, own, f, page, i, Entry(page, flags));
    }
  }

  lemma WalkStart(m: Memory, s: Space, own: Owners, free: set<int>, p: Path)
    requires Sound(m, s, own, free)
    ensures s.root in own && own[s.root] == [] && GainedOn(own, own, p) && SameLeaves(m, m, s)
  {
    assert Node(m, s, []) == Some(s.root);
  }

  /** The last step of `vmm_map`: the entry goes into the table at the end of the walk. */
  lemma LeafWritten(m0: Memory, own: Owners, free0: set<int>, m1: Memory, own': Owners, free: set<int>, s: Space,
                    pt: nat, p: Path, e: nat)
    requires Sound(m0, s, own, free0) && Extends(m0, own, free0, m1, own', free, s) && SameLeaves(m0, m1, s)
    requires |p| == 4 && p[3] < ENTRIES && pt in own' && own'[pt] == p[..3]
    ensures IsTable(m1, pt)
    ensures var m := m1[pt := Table(m1[pt].entries[p[3] := e])];
            && Extends(m0, own, free0, m, own', free, s) && LeafSet(m0, m, s, p, e)
            && (OpenTables(m1, s) ==> OpenTables(m, s))
            && (forall f | IsTable(m1, f) :: IsTable(m, f))
  {
    hide OpenTables;
    assert Node(m1, s, own'[pt]) == Some(pt);
    var m := m1[pt := Table(m1[pt].entries[p[3] := e])];
    assert p == p[..3] + [p[3]];
    WriteLeafExtends(m1, m, s, own', pt, p[3], e, free);
    if OpenTables(m1, s) {
      WriteLeafOpen(m1, m, s, own', pt, p[3], e);
    }
    ExtendsTrans(m0, own, free0, m1, own', free, m, own', free, s);
  }

  class AddressSpaces {
    const pmm: Pmm.PageAllocator
    const kernelRoot: nat
    var mem: Memory

    ghost predicate Valid()
      reads this, pmm, pmm.bitmap
    {
      && pmm.Valid()
      && 0 !in pmm.free
      && kernelRoot !in pmm.free
      && IsTable(mem, kernelRoot)
    }

    /** `vmm_init`: the boot page tables, in pages the allocator has reserved. */
    constructor (pmm: Pmm.PageAllocator, mem: Memory, kernelRoot: nat)
      requires pmm.Valid() && 0 !in pmm.free && kernelRoot !in pmm.free && IsTable(mem, kernelRoot)
      ensures Valid() && this.pmm == pmm && this.mem == mem && this.kernelRoot == kernelRoot
    {
      this.pmm, this.mem, this.kernelRoot := pmm, mem, kernelRoot;
    }

    /** The allocating branch of `get_or_alloc`: a zeroed page from the allocator goes into the empty entry. */
    method NewTable(f: nat, i: nat, flags: nat, ghost s: Space, ghost own: Owners)
      returns (ok: bool, ghost own': Owners)
      requires Valid() && Sound(mem, s, own, pmm.free)
      requires f in own && |own[f]| <= 2 && i < ENTRIES && (own[f] == [] ==> i < s.top)
      requires IsTable(mem, f) && !Present(mem[f].entries[i])
      requires Present(flags) && flags < PAGE_SIZE
      modifies this`mem, pmm, pmm.bitmap
      ensures Valid() && pmm.Drift() == old(pmm.Drift())
      ensures Extends(old(mem), own, old(pmm.free), mem, own', pmm.free, s) && SameLeaves(old(mem), mem, s)
      ensures ok ==>
                && IsTable(mem, f) && FrameOf(mem[f].entries[i]) in own'
                && own'[FrameOf(mem[f].entries[i])] == own[f] + [i]
      ensures GainedOn(own, own', own[f] + [i])
      ensures !ok ==> pmm.free == {} && Node(mem, s, own[f] + [i]).None?
      ensures OpenTables(old(mem), s) && UserBit(flags) && WriteBit(flags) ==> OpenTables(mem, s)
    {
      hide OpenTables, UserBit, WriteBit, Extends, SameLeaves, Sound, GainedOn, Node, Entry, ZeroTable;
      hide Pmm.PageAllocator.Valid;
      ghost var m, free := mem, pmm.free;
      NoTableYet(m, s, own, free, f, i);
      var page := pmm.AllocFrame();
      if page == 0 {
        return false, own;
      }
      TableHung(m, s, own, free, f, i, page, flags);
      mem := mem[page := ZeroTable()];
      mem := mem[f := Table(mem[f].entries[i := Entry(page, flags)])];
      return true, own[page := own[f] + [i]];
    }

    /** `get_or_alloc`: the table behind entry i of table f, created empty if there is none. */
    method GetOrAlloc(f: nat, i: nat, flags: nat, ghost s: Space, ghost own: Owners)
      returns (ok: bool, g: nat, ghost own': Owners)
      requires Valid() && Sound(mem, s, own, pmm.free)
      requires f in own && |own[f]| <= 2 && i < ENTRIES && (own[f] == [] ==> i < s.top)
      requires Present(flags) && flags < PAGE_SIZE
      modifies this`mem, pmm, pmm.bitmap
      ensures Valid() && pmm.Drift() == old(pmm.Drift())
      ensures Extends(old(mem), own, old(pmm.free), mem, own', pmm.free, s) && SameLeaves(old(mem), mem, s)
      ensures ok ==> g in own' && own'[g] == own[f] + [i]
      ensures GainedOn(own, own', own[f] + [i])
      ensures !ok ==> pmm.free == {} && Node(mem, s, own[f] + [i]).None?
      ensures OpenTables(old(mem), s) && UserBit(flags) && WriteBit(flags) ==> OpenTables(mem, s)
    {
      hide OpenTables, UserBit, WriteBit, Extends, SameLeaves, Sound, GainedOn, Node, Pmm.PageAllocator.Valid;
      ok, own' := true, own;
      TableAt(mem, s, own, pmm.free, f);
      if !Present(mem[f].entries[i]) {
        ok, own' := NewTable(f, i, flags, s, own);
        if !ok {
          return false, 0, own';
        }
      } else {
        TableThere(mem, s, own, pmm.free, f, i);
      }
      g := FrameOf(mem[f].entries[i]);
    }

    /** One level of the walk, measured from where the walk began. */
    method WalkStep(f: nat, i: nat, flags: nat, ghost s: Space, ghost own: Owners,
                    ghost m0: Memory, ghost own0: Owners, ghost free0: set<int>, ghost p: Path)
      returns (ok: bool, g: nat, ghost own': Owners)
      requires Valid() && f in own && |own[f]| <= 2 && i < ENTRIES && (own[f] == [] ==> i < s.top)
      requires Present(flags) && flags < PAGE_SIZE
      requires Sound(m0, s, own0, free0)
      requires Extends(m0, own0, free0, mem, own, pmm.free, s) && SameLeaves(m0, mem, s)
      requires GainedOn(own0, own, p) && own[f] + [i] <= p
      modifies this`mem, pmm, pmm.bitmap
      ensures Valid() && pmm.Drift() == old(pmm.Drift())
      ensures Extends(m0, own0, free0, mem, own', pmm.free, s) && SameLeaves(m0, mem, s)
      ensures ok ==> g in own' && own'[g] == own[f] + [i]
      ensures GainedOn(own0, own', p)
      ensures !ok ==> pmm.free == {} && Node(mem, s, own[f] + [i]).None?
      ensures OpenTables(old(mem), s) && UserBit(flags) && WriteBit(flags) ==> OpenTables(mem, s)
    {
      hide OpenTables, UserBit, WriteBit;
      ok, g, own' := GetOrAlloc(f, i, flags, s, own);
      ExtendsTrans(m0, own0, free0, old(mem), own, old(pmm.free), mem, own', pmm.free, s);
    }

    /** The three `get_or_alloc` calls of `vmm_map`. Failing means the source goes on with a NULL table. */
    method WalkAlloc(root: nat, p: Path, flags: nat, ghost s: Space, ghost own: Owners)
      returns (ok: bool, pt: nat, ghost own': Owners)
      requires Valid() && Sound(mem, s, own, pmm.free) && s.root == root
      requires |p| == 4 && p[0] < s.top && forall i | 0 <= i < 4 :: p[i] < ENTRIES
      requires Present(flags) && flags < PAGE_SIZE
      modifies this`mem, pmm, pmm.bitmap
      ensures Valid() && pmm.Drift() == old(pmm.Drift())
      ensures Extends(old(mem), own, old(pmm.free), mem, own', pmm.free, s) && SameLeaves(old(mem), mem, s)
      ensures ok ==> pt in own' && own'[pt] == p[..3]
      ensures GainedOn(own, own', p)
      ensures !ok ==> pmm.free == {} && Node(mem, s, p[..3]).None?
      ensures OpenTables(old(mem), s) && UserBit(flags) && WriteBit(flags) ==> OpenTables(mem, s)
    {
      hide OpenTables, UserBit, WriteBit, Extends, SameLeaves, Sound, GainedOn, Node, Pmm.PageAllocator.Valid;
      ok, pt, own' := true, root, own;
      WalkStart(mem, s, own, pmm.free, p);
      assert p[..0] == [];
      ExtendsRefl(mem, own, pmm.free, s);
      for i := 0 to 3
        invariant Valid() && pmm.Drift() == old(pmm.Drift())
        invariant Extends(old(mem), own, old(pmm.free), mem, own', pmm.free, s) && SameLeaves(old(mem), mem, s)
        invariant GainedOn(own, own', p)
        invariant ok && pt in own' && own'[pt] == p[..i]
        invariant OpenTables(old(mem), s) && UserBit(flags) && WriteBit(flags) ==> OpenTables(mem, s)
      {
        assert p[..i + 1] == p[..i] + [p[i]];
        ok, pt, own' := WalkStep(pt, p[i], flags, s, own', old(mem), own, old(pmm.free), p);
        if !ok {
          NoNode(mem, s, p, i + 1, 3);
          return;
        }
      }
    }

    /** `vmm_map`: afterwards the one leaf for `virt` is the requested entry, and every other leaf is as before. */
    method Map(root: nat, virt: nat, phys: nat, flags: nat, ghost s: Space, ghost own: Owners)
      returns (ok: bool, ghost own': Owners)
      requires Valid() && Sound(mem, s, own, pmm.free) && s.root == root && PathOf(virt)[0] < s.top
      modifies this`mem, pmm, pmm.bitmap
      ensures Valid() && pmm.Drift() == old(pmm.Drift())
      ensures Extends(old(mem), own, old(pmm.free), mem, own', pmm.free, s)
      ensures ok ==> LeafSet(old(mem), mem, s, PathOf(virt), MakeLeaf(phys, flags))
      ensures GainedOn(own, own', PathOf(virt))
      ensures !ok ==> SameLeaves(old(mem), mem, s) && pmm.free == {} && Node(mem, s, PathOf(virt)[..3]).None?
      ensures OpenTables(old(mem), s) && UserBit(flags) ==> OpenTables(mem, s)
    {
      hide OpenTables, Extends, SameLeaves, LeafSet, PathOf, MakeLeaf, TableFlags, Pmm.PageAllocator.Valid;
      var p := PathOf(virt);
      ghost var m0, f0 := mem, pmm.free;
      TableFlagsOpen(flags);
      var pt;
      ok, pt, own' := WalkAlloc(root, p, TableFlags(flags), s, own);
      if !ok { return; }
      ghost var m1 := mem;
      LeafWritten(m0, own, f0, m1, own', pmm.free, s, pt, p, MakeLeaf(phys, flags));
      mem := mem[pt := Table(mem[pt].entries[p[3] := MakeLeaf(phys, flags)])];
    }

    /** `vmm_unmap`: afterwards the leaf for `virt` is 0, and every other leaf is as before. */
    method Unmap(root: nat, virt: nat, ghost s: Space, ghost own: Owners)
      requires Valid() && Sound(mem, s, own, pmm.free) && s.root == root && PathOf(virt)[0] < s.top
      modifies this`mem
      ensures Valid()
      ensures Extends(old(mem), own, pmm.free, mem, own, pmm.free, s)
      ensures LeafSet(old(mem), mem, s, PathOf(virt), 0)
      ensures OpenTables(old(mem), s) ==> OpenTables(mem, s)
    {
      hide OpenTables;
      var p := PathOf(virt);
      var f := root;
      assert Node(mem, s, p[..0]) == Some(root);
      ExtendsRefl(mem, own, pmm.free, s);
      for i := 0 to 3
        invariant mem == old(mem) && Node(mem, s, p[..i]) == Some(f)
      {
        assert Parent(p[..i + 1]) == p[..i];
        if !Present(mem[f].entries[p[i]]) {
          NoLeaf(mem, s, p, i + 1);
          return;
        }
        f := FrameOf(mem[f].entries[p[i]]);
      }
      mem := mem[f := Table(mem[f].entries[p[3] := 0])];
      assert p == p[..3] + [p[3]];
      WriteLeafExtends(old(mem), mem, s, own, f, p[3], 0, pmm.free);
      if OpenTables(old(mem), s) {
        WriteLeafOpen(old(mem), mem, s, own, f, p[3], 0);
      }
    }

    /** `vmm_get_phys`: the address bits of the leaf, with no look at its present bit; 0 when there is no leaf. */
    method GetPhys(root: nat, virt: nat, ghost s: Space, ghost own: Owners) returns (phys: nat)
      requires Tree(mem, s, own) && s.root == root && PathOf(virt)[0] < s.top
      ensures phys == FrameOf(Leaf(mem, s, PathOf(virt))) * PAGE_SIZE
    {
      var p := PathOf(virt);
      var f := root;
      assert Node(mem, s, p[..0]) == Some(root);
      for i := 0 to 3
        invariant Node(mem, s, p[..i]) == Some(f)
      {
        assert Parent(p[..i + 1]) == p[..i];
        if !Present(mem[f].entries[p[i]]) {
          NoLeaf(mem, s, p, i + 1);
          return 0;
        }
        f := FrameOf(mem[f].entries[p[i]]);
      }
      return FrameOf(mem[f].entries[p[3]]) * PAGE_SIZE;
    }
  }
}
