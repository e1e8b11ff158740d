/**
 * The 4-level page table tree of mm/vmm.c, on values. A node is named by the table indices leading
 * to it: [] is the PML4, [p4] a PDPT, [p4, p3] a PDT, [p4, p3, p2] a PT, [p4, p3, p2, p1] a data page.
 */
module PageTables {
  import opened Common

  const ENTRIES: nat := 512
  const VMM_WRITABLE: nat := 2
  const VMM_USER: nat := 4
  const VMM_NX: nat := 0x8000_0000_0000_0000

  /** What a physical page is used as. */
  datatype Frame = Table(entries: seq<nat>) | Raw(bytes: seq<nat>)

  type Memory = map<nat, Frame>

  /** A tree: its PML4 page, and how many of the PML4's entries are looked at (256 = user half, 512 = all). */
  datatype Space = Space(root: nat, top: nat)

  type Path = seq<nat>
  type Owners = map<nat, Path>

  // ---- Entries: address in the upper bits, flags in the low 12 ----

  predicate Present(e: nat) {
    e % 2 == 1
  }

  function FrameOf(e: nat): nat {
    e / PAGE_SIZE
  }

  function Flags(e: nat): nat {
    e % PAGE_SIZE
  }

  /** `address | flags` for a page-aligned address and flags below 4096. */
  function Entry(frame: nat, flags: nat): nat {
    frame * PAGE_SIZE + flags % PAGE_SIZE
  }

  lemma EntryParts(frame: nat, flags: nat)
    ensures FrameOf(Entry(frame, flags)) == frame && Flags(Entry(frame, flags)) == flags % PAGE_SIZE
    ensures Present(Entry(frame, flags)) <==> Present(flags)
  {
    DivMod(frame, flags % PAGE_SIZE);
    Parity(frame, flags % PAGE_SIZE);
    Parity(flags / PAGE_SIZE, flags % PAGE_SIZE);
    assert flags == flags / PAGE_SIZE * PAGE_SIZE + flags % PAGE_SIZE;
  }

  lemma Parity(frame: nat, low: nat)
    ensures (frame * PAGE_SIZE + low) % 2 == low % 2
  {
    assert frame * PAGE_SIZE + low == 2 * (frame * 2048) + low;
  }

  lemma DivMod(frame: nat, low: nat)
    requires low < PAGE_SIZE
    ensures (frame * PAGE_SIZE + low) / PAGE_SIZE == frame && (frame * PAGE_SIZE + low) % PAGE_SIZE == low
  {}

  predicate IsTable(m: Memory, f: nat) {
    f in m && m[f].Table? && |m[f].entries| == ENTRIES
  }

  predicate IsRaw(m: Memory, f: nat) {
    f in m && m[f].Raw? && |m[f].bytes| == PAGE_SIZE
  }

  function ZeroTable(): (t: Frame)
    ensures t.Table? && |t.entries| == ENTRIES && forall i | 0 <= i < ENTRIES :: t.entries[i] == 0
  {
    Table(seq(ENTRIES, _ => 0))
  }

  // ---- Walking ----

  function Parent(p: Path): Path
    requires p != []
  {
    p[..|p| - 1]
  }

  function Last(p: Path): nat
    requires p != []
  {
    p[|p| - 1]
  }

  /** The page at the end of path p, found by following present entries from the root. */
  function Node(m: Memory, s: Space, p: Path): Option<nat>
    decreases |p|
  {
    if p == [] then
      Some(s.root)
    else if Last(p) >= ENTRIES || (|p| == 1 && Last(p) >= s.top) then
      None
    else
      match Node(m, s, Parent(p))
      case None => None
      case Some(f) =>
        if IsTable(m, f) && Present(m[f].entries[Last(p)]) then Some(FrameOf(m[f].entries[Last(p)])) else None
  }

  /** The last-level entry of the virtual page with these indices; 0 when no table leads there. */
  function Leaf(m: Memory, s: Space, p: Path): nat
    requires |p| == 4
  {
    match Node(m, s, Parent(p))
    case None => 0
    case Some(f) => if Last(p) < ENTRIES && IsTable(m, f) then m[f].entries[Last(p)] else 0
  }

  /** Every table of the tree really is a table, and `own` names its one place in the tree. */
  ghost predicate Tree(m: Memory, s: Space, own: Owners) {
    && s.top <= ENTRIES
    && forall p {:trigger Node(m, s, p)} | |p| <= 3 && Node(m, s, p).Some? ::
         var f := Node(m, s, p).value;
         IsTable(m, f) && f in own && own[f] == p
  }

  /** Every data page is ordinary memory with one place in the tree. */
  ghost predicate DataPages(m: Memory, s: Space, own: Owners) {
    forall p {:trigger Node(m, s, p)} | |p| == 4 && Node(m, s, p).Some? ::
      var f := Node(m, s, p).value;
      IsRaw(m, f) && f in own && own[f] == p
  }

  /** `own` lists no table that is not in the tree. */
  ghost predicate TablesExact(m: Memory, s: Space, own: Owners) {
    forall f {:trigger own[f]} | f in own && |own[f]| <= 3 :: Node(m, s, own[f]) == Some(f)
  }

  /** A tree whose pages the allocator regards as in use. */
  ghost predicate Sound(m: Memory, s: Space, own: Owners, free: set<int>) {
    && Tree(m, s, own)
    && TablesExact(m, s, own)
    && forall f | f in own :: f !in free
  }

  /**
   * From one state of memory to the next, the tree has kept its pages and gained tables taken from
   * the allocator; no data page, no page outside the tree and no PML4 entry beyond `top` has changed.
   */
  ghost predicate Extends(m: Memory, own: Owners, free: set<int>, m': Memory, own': Owners, free': set<int>, s: Space) {
    && Sound(m', s, own', free')
    && free' <= free
    && (forall f | f in own :: f in own' && own'[f] == own[f])
    && (forall f | f in own' && f !in own :: f in free && f !in free' && 1 <= |own'[f]| <= 3)
    && (forall f | f in free && f !in free' :: f in own')
    && (forall f | f in m && f !in free && (f !in own || |own[f]| == 4) :: f in m' && m'[f] == m[f])
    && (IsTable(m, s.root) ==> IsTable(m', s.root) && m'[s.root].entries[s.top..] == m[s.root].entries[s.top..])
  }

  /** The pages gained all lie on the way to p. */
  ghost predicate GainedOn(own: Owners, own': Owners, p: Path) {
    forall f | f in own' && f !in own :: own'[f] <= p
  }

  ghost predicate SameLeaves(m: Memory, m': Memory, s: Space) {
    forall p | |p| == 4 :: Leaf(m', s, p) == Leaf(m, s, p)
  }

  /** The leaf at p, alone among all leaves, has been rewritten. */
  ghost predicate LeafSet(m: Memory, m': Memory, s: Space, p: Path, e: nat) {
    forall q | |q| == 4 :: Leaf(m', s, q) == if q == p then e else Leaf(m, s, q)
  }

  // ---- What a write does to the tree ----

  /** A tree does not notice changes to pages outside it. */
  lemma {:induction false} SameNode(m: Memory, m': Memory, s: Space, own: Owners, p: Path)
    requires Tree(m, s, own) && |p| <= 4
    requires forall f | f in own && f in m :: f in m' && m'[f] == m[f]
    ensures Node(m', s, p) == Node(m, s, p)
    decreases |p|
  {
    if p != [] {
      SameNode(m, m', s, own, Parent(p));
    }
  }

  /** A new empty table hung at an empty slot becomes that one node; every other node is as it was. */
  lemma {:induction false} AddTable(m: Memory, m': Memory, s: Space, own: Owners, f: nat, g: nat, i: nat, e: nat,
                                    p: Path)
    requires Tree(m, s, own) && f in own && |own[f]| <= 2 && g !in own && i < ENTRIES
    requires Node(m, s, own[f]) == Some(f) && (own[f] == [] ==> i < s.top)
    requires !Present(m[f].entries[i]) && Present(e) && FrameOf(e) == g
    requires m' == m[g := ZeroTable()][f := Table(m[f].entries[i := e])]
    requires |p| <= 4
    ensures Node(m', s, p) == if p == own[f] + [i] then Some(g) else Node(m, s, p)
    decreases |p|
  {
    hide FrameOf;
    if p != [] {
      AddTable(m, m', s, own, f, g, i, e, Parent(p));
      AddTableAt(m, m', s, own, f, g, i, e, p);
    }
  }

  /** The same for one node, its parent known. */
  lemma AddTableAt(m: Memory, m': Memory, s: Space, own: Owners, f: nat, g: nat, i: nat, e: nat, p: Path)
    requires Tree(m, s, own) && f in own && |own[f]| <= 2 && g !in own && i < ENTRIES
    requires Node(m, s, own[f]) == Some(f) && (own[f] == [] ==> i < s.top)
    requires !Present(m[f].entries[i]) && Present(e) && FrameOf(e) == g
    requires m' == m[g := ZeroTable()][f := Table(m[f].entries[i := e])]
    requires 0 < |p| <= 4
    requires Node(m', s, Parent(p)) == if Parent(p) == own[f] + [i] then Some(g) else Node(m, s, Parent(p))
    ensures Node(m', s, p) == if p == own[f] + [i] then Some(g) else Node(m, s, p)
  {
    hide FrameOf, Present, Tree, Node;
    assert p == Parent(p) + [Last(p)];
    var q := own[f] + [i];
    assert Parent(q) == own[f] && Last(q) == i;
    NodeIs(m, s, p);
    NodeIs(m', s, p);
    NodeIs(m, s, q);
    NotPresent();
    if Parent(p) != q && Node(m, s, Parent(p)).Some? {
      TableHere(m, s, own, Parent(p));
    }
  }

  /** One step of a walk: from a table to what its entry i leads to. */
  function Follow(m: Memory, s: Space, table: Option<nat>, depth: nat, i: nat): Option<nat> {
    if i >= ENTRIES || (depth == 0 && i >= s.top) || table.None? then None
    else if IsTable(m, table.value) && Present(m[table.value].entries[i]) then Some(FrameOf(m[table.value].entries[i]))
    else None
  }

  lemma NodeIs(m: Memory, s: Space, p: Path)
    requires p != []
    ensures Node(m, s, p) == Follow(m, s, Node(m, s, Parent(p)), |p| - 1, Last(p))
  {}

  lemma NotPresent()
    ensures !Present(0)
  {}

  lemma TableHere(m: Memory, s: Space, own: Owners, p: Path)
    requires Tree(m, s, own) && |p| <= 3 && Node(m, s, p).Some?
    ensures var f := Node(m, s, p).value; IsTable(m, f) && f in own && own[f] == p
  {}

  /** Writing a last-level entry moves no table. */
  lemma {:induction false} WriteLeafNode(m: Memory, m': Memory, s: Space, own: Owners, f: nat, i: nat, e: nat, p: Path)
    requires Tree(m, s, own) && f in own && |own[f]| == 3 && i < ENTRIES
    requires Node(m, s, own[f]) == Some(f)
    requires m' == m[f := Table(m[f].entries[i := e])]
    requires |p| <= 3
    ensures Node(m', s, p) == Node(m, s, p)
    decreases |p|
  {
    if p != [] {
      WriteLeafNode(m, m', s, own, f, i, e, Parent(p));
    }
  }

  /** Writing a last-level entry changes the leaf it stands for and no other. */
  lemma WriteLeaf(m: Memory, m': Memory, s: Space, own: Owners, f: nat, i: nat, e: nat, p: Path)
    requires Tree(m, s, own) && f in own && |own[f]| == 3 && i < ENTRIES
    requires Node(m, s, own[f]) == Some(f)
    requires m' == m[f := Table(m[f].entries[i := e])]
    requires |p| == 4
    ensures Leaf(m', s, p) == if p == own[f] + [i] then e else Leaf(m, s, p)
  {
    WriteLeafNode(m, m', s, own, f, i, e, Parent(p));
    assert p == Parent(p) + [Last(p)];
    assert Parent(own[f] + [i]) == own[f];
  }

  lemma AddTableLeaf(m: Memory, m': Memory, s: Space, own: Owners, f: nat, g: nat, i: nat, e: nat, p: Path)
    requires Tree(m, s, own) && f in own && |own[f]| <= 2 && g !in own && i < ENTRIES
    requires Node(m, s, own[f]) == Some(f) && (own[f] == [] ==> i < s.top)
    requires !Present(m[f].entries[i]) && Present(e) && FrameOf(e) == g
    requires m' == m[g := ZeroTable()][f := Table(m[f].entries[i := e])]
    requires |p| == 4
    ensures Leaf(m', s, p) == Leaf(m, s, p)
  {
    AddTable(m, m', s, own, f, g, i, e, Parent(p));
    assert Node(m, s, own[f] + [i]).None? by {
      assert Parent(own[f] + [i]) == own[f];
    }
  }

  /** One more table in the tree. */
  ghost predicate NodeAdded(m: Memory, m': Memory, s: Space, p0: Path, g: nat) {
    forall p | |p| <= 3 :: Node(m', s, p) == if p == p0 then Some(g) else Node(m, s, p)
  }

  lemma NodeAddedSound(m: Memory, m': Memory, s: Space, own: Owners, p0: Path, g: nat, free: set<int>)
    requires Sound(m, s, own, free) && g in free && |p0| <= 3 && Node(m, s, p0).None?
    requires IsTable(m', g) && forall f | f in own && IsTable(m, f) :: IsTable(m', f)
    requires NodeAdded(m, m', s, p0, g)
    ensures Sound(m', s, own[g := p0], free - {g})
  {}

  lemma AddTableNodes(m: Memory, m': Memory, s: Space, own: Owners, f: nat, g: nat, i: nat, e: nat)
    requires Tree(m, s, own) && f in own && |own[f]| <= 2 && g !in own && i < ENTRIES
    requires Node(m, s, own[f]) == Some(f) && (own[f] == [] ==> i < s.top)
    requires !Present(m[f].entries[i]) && Present(e) && FrameOf(e) == g
    requires m' == m[g := ZeroTable()][f := Table(m[f].entries[i := e])]
    ensures NodeAdded(m, m', s, own[f] + [i], g) && Node(m, s, own[f] + [i]).None?
    ensures SameLeaves(m, m', s)
  {
    forall p | |p| <= 3
      ensures Node(m', s, p) == if p == own[f] + [i] then Some(g) else Node(m, s, p)
    {
      AddTable(m, m', s, own, f, g, i, e, p);
    }
    forall p | |p| == 4
      ensures Leaf(m', s, p) == Leaf(m, s, p)
    {
      AddTableLeaf(m, m', s, own, f, g, i, e, p);
    }
    assert Parent(own[f] + [i]) == own[f];
  }

  lemma AddTableGrows(m: Memory, m': Memory, s: Space, own: Owners, f: nat, g: nat, i: nat, e: nat, free: set<int>)
    requires Sound(m, s, own, free) && f in own && |own[f]| <= 2 && g in free && i < ENTRIES
    requires own[f] == [] ==> i < s.top
    requires !Present(m[f].entries[i]) && Present(e) && FrameOf(e) == g
    requires m' == m[g := ZeroTable()][f := Table(m[f].entries[i := e])]
    ensures Extends(m, own, free, m', own[g := own[f] + [i]], free - {g}, s) && SameLeaves(m, m', s)
    ensures Node(m', s, own[f] + [i]) == Some(g)
  {
    hide FrameOf, Present, Node, SameLeaves, NodeAdded, Tree, TablesExact;
    NodeOf(m, s, own, free, f);
    NodeOf(m, s, own, free, s.root);
    AddTableNodes(m, m', s, own, f, g, i, e);
    NodeAddedAt(m, m', s, own[f] + [i], g);
    NodeAddedSound(m, m', s, own, own[f] + [i], g, free);
    hide Sound;
    assert IsTable(m', s.root) && m'[s.root].entries[s.top..] == m[s.root].entries[s.top..];
  }

  lemma NodeOf(m: Memory, s: Space, own: Owners, free: set<int>, f: nat)
    requires Sound(m, s, own, free)
    ensures s.root in own && own[s.root] == [] && s.top <= ENTRIES
    ensures f in own && |own[f]| <= 3 ==> IsTable(m, f) && Node(m, s, own[f]) == Some(f)
  {
    assert Node(m, s, []) == Some(s.root);
  }

  lemma NodeAddedAt(m: Memory, m': Memory, s: Space, p0: Path, g: nat)
    requires NodeAdded(m, m', s, p0, g) && |p0| <= 3
    ensures Node(m', s, p0) == Some(g)
  {}

  lemma WriteLeafExtends(m: Memory, m': Memory, s: Space, own: Owners, f: nat, i: nat, e: nat, free: set<int>)
    requires Sound(m, s, own, free) && f in own && |own[f]| == 3 && i < ENTRIES
    requires m' == m[f := Table(m[f].entries[i := e])]
    ensures Extends(m, own, free, m', own, free, s) && LeafSet(m, m', s, own[f] + [i], e)
  {
    forall p | |p| <= 3
      ensures Node(m', s, p) == Node(m, s, p)
    {
      WriteLeafNode(m, m', s, own, f, i, e, p);
    }
    forall p | |p| == 4
      ensures Leaf(m', s, p) == if p == own[f] + [i] then e else Leaf(m, s, p)
    {
      WriteLeaf(m, m', s, own, f, i, e, p);
    }
    assert Node(m, s, []).Some?;
  }

  lemma ExtendsTrans(m: Memory, own: Owners, free: set<int>, m1: Memory, own1: Owners, free1: set<int>,
                     m2: Memory, own2: Owners, free2: set<int>, s: Space)
    requires Sound(m, s, own, free)
    requires Extends(m, own, free, m1, own1, free1, s) && Extends(m1, own1, free1, m2, own2, free2, s)
    ensures Extends(m, own, free, m2, own2, free2, s)
  {}

  lemma ExtendsSound(m: Memory, own: Owners, free: set<int>, m': Memory, own': Owners, free': set<int>, s: Space)
    requires Extends(m, own, free, m', own', free', s)
    ensures Sound(m', s, own', free')
  {}

  lemma ExtendsRefl(m: Memory, own: Owners, free: set<int>, s: Space)
    requires Sound(m, s, own, free)
    ensures Extends(m, own, free, m, own, free, s) && SameLeaves(m, m, s)
  {}

  /** A path that breaks off above the last level has leaf 0. */
  lemma {:induction false} NoLeaf(m: Memory, s: Space, p: Path, n: nat)
    requires |p| == 4 && n <= 3 && Node(m, s, p[..n]).None?
    ensures Leaf(m, s, p) == 0
    decreases 3 - n
  {
    if n < 3 {
      assert Parent(p[..n + 1]) == p[..n];
      NoLeaf(m, s, p, n + 1);
    }
  }

  /** A path that breaks off leads nowhere further down. */
  lemma {:induction false} NoNode(m: Memory, s: Space, p: Path, n: nat, k: nat)
    requires n <= k <= |p| && Node(m, s, p[..n]).None?
    ensures Node(m, s, p[..k]).None?
    decreases k - n
  {
    if n < k {
      assert Parent(p[..n + 1]) == p[..n];
      NoNode(m, s, p, n + 1, k);
    }
  }

  // ---- Permissions along the walk ----

  /** The entry that leads to path p; 0 when no table does. */
  function EntryTo(m: Memory, s: Space, p: Path): nat
    requires p != []
  {
    match Node(m, s, Parent(p))
    case None => 0
    case Some(f) => if Last(p) < ENTRIES && IsTable(m, f) then m[f].entries[Last(p)] else 0
  }

  predicate UserBit(e: nat) {
    e / VMM_USER % 2 == 1
  }

  predicate WriteBit(e: nat) {
    e / VMM_WRITABLE % 2 == 1
  }

  /** Bits 2 and 1. */
  lemma BitsAre(e: nat)
    ensures (UserBit(e) <==> e % 8 >= 4) && (WriteBit(e) <==> e % 4 >= 2)
  {}

  /** Every table of the tree is reached by entries that let the user read and write. */
  ghost predicate OpenTables(m: Memory, s: Space) {
    forall p {:trigger Node(m, s, p)} | 1 <= |p| <= 3 && Node(m, s, p).Some? :: UserBit(EntryTo(m, s, p))
        && WriteBit(EntryTo(m, s, p))
  }

  lemma AddTableOpen(m: Memory, m': Memory, s: Space, own: Owners, f: nat, g: nat, i: nat, e: nat)
    requires Tree(m, s, own) && f in own && |own[f]| <= 2 && g !in own && i < ENTRIES
    requires Node(m, s, own[f]) == Some(f) && (own[f] == [] ==> i < s.top)
    requires !Present(m[f].entries[i]) && Present(e) && FrameOf(e) == g
    requires m' == m[g := ZeroTable()][f := Table(m[f].entries[i := e])]
    requires OpenTables(m, s) && UserBit(e) && WriteBit(e)
    ensures OpenTables(m', s)
  {
    hide OpenTables, UserBit, WriteBit;
    forall p | 1 <= |p| <= 3 && Node(m', s, p).Some?
      ensures UserBit(EntryTo(m', s, p)) && WriteBit(EntryTo(m', s, p))
    {
      AddTable(m, m', s, own, f, g, i, e, p);
      AddTable(m, m', s, own, f, g, i, e, Parent(p));
      assert p == Parent(p) + [Last(p)];
      if p != own[f] + [i] {
        OpenAt(m, s, p);
      }
    }
    AllOpen(m', s);
  }

  lemma OpenAt(m: Memory, s: Space, p: Path)
    requires OpenTables(m, s) && 1 <= |p| <= 3 && Node(m, s, p).Some?
    ensures UserBit(EntryTo(m, s, p)) && WriteBit(EntryTo(m, s, p))
  {}

  lemma AllOpen(m: Memory, s: Space)
    requires forall p {:trigger Node(m, s, p)} | 1 <= |p| <= 3 && Node(m, s, p).Some? ::
               && UserBit(EntryTo(m, s, p))
               && WriteBit(EntryTo(m, s, p))
    ensures OpenTables(m, s)
  {}

  lemma WriteLeafOpen(m: Memory, m': Memory, s: Space, own: Owners, f: nat, i: nat, e: nat)
    requires Tree(m, s, own) && f in own && |own[f]| == 3 && i < ENTRIES && Node(m, s, own[f]) == Some(f)
    requires m' == m[f := Table(m[f].entries[i := e])] && OpenTables(m, s)
    ensures OpenTables(m', s)
  {
    hide OpenTables, UserBit, WriteBit;
    forall p | 1 <= |p| <= 3 && Node(m', s, p).Some?
      ensures UserBit(EntryTo(m', s, p)) && WriteBit(EntryTo(m', s, p))
    {
      WriteLeafNode(m, m', s, own, f, i, e, p);
      WriteLeafNode(m, m', s, own, f, i, e, Parent(p));
      OpenAt(m, s, p);
    }
    AllOpen(m', s);
  }

  /** The processor lets the user in: at every level the entry is present, for the user and, to write, writable. */
  ghost predicate UserMay(m: Memory, s: Space, p: Path, write: bool)
    requires |p| == 4
  {
    forall n | 1 <= n <= 4 :: EntryLets(EntryTo(m, s, p[..n]), write)
  }

  predicate EntryLets(e: nat, write: bool) {
    Present(e) && UserBit(e) && (write ==> WriteBit(e))
  }

  /** Below open tables the leaf alone decides. */
  lemma LeafDecides(m: Memory, s: Space, p: Path, write: bool)
    requires OpenTables(m, s) && |p| == 4 && (forall i | 0 <= i < 4 :: p[i] < ENTRIES)
    ensures UserMay(m, s, p, write) <==> EntryLets(Leaf(m, s, p), write)
  {
    hide UserBit, WriteBit;
    assert p[..4] == p;
    assert EntryTo(m, s, p) == Leaf(m, s, p);
    if EntryLets(Leaf(m, s, p), write) {
      forall n | 1 <= n < 4
        ensures EntryLets(EntryTo(m, s, p[..n]), write)
      {
        if Node(m, s, p[..n]).None? {
          NoLeaf(m, s, p, n);
        }
        OpenAt(m, s, p[..n]);
      }
    }
  }

  /** Flags are read back from an entry. */
  lemma LowBits(f: nat, k: nat)
    ensures UserBit(f * PAGE_SIZE + k) <==> UserBit(k)
    ensures WriteBit(f * PAGE_SIZE + k) <==> WriteBit(k)
  {
    Half(f * 1024, k / 2);
    Half(f * 2048, k);
    Quarter(f * 1024, k);
    Half(f * 512, k / 4);
  }

  lemma Half(x: nat, k: nat)
    ensures (2 * x + k) / 2 == x + k / 2 && (2 * x + k) % 2 == k % 2
  {}

  lemma Quarter(x: nat, k: nat)
    ensures (4 * x + k) / 4 == x + k / 4
  {}

  // ---- Virtual addresses ----

  /** The last n base-512 digits of x. */
  function Digits(x: nat, n: nat): (p: Path)
    ensures |p| == n && forall i | 0 <= i < n :: p[i] < ENTRIES
  {
    if n == 0 then [] else Digits(x / ENTRIES, n - 1) + [x % ENTRIES]
  }

  /** The four table indices in a virtual address. */
  function PathOf(virt: nat): (p: Path)
    ensures |p| == 4 && forall i | 0 <= i < 4 :: p[i] < ENTRIES
  {
    Digits(virt / PAGE_SIZE, 4)
  }

  /** They are bits 47-39, 38-30, 29-21 and 20-12. */
  lemma PathBits(virt: nat)
    ensures PathOf(virt) ==
            [virt / 0x80_0000_0000 % ENTRIES, virt / 0x4000_0000 % ENTRIES, virt / 0x20_0000 % ENTRIES,
                virt / 0x1000 % ENTRIES]
  {
    var a := virt / 0x1000;
    var b := a / ENTRIES;
    var c := b / ENTRIES;
    var d := c / ENTRIES;
    assert b == virt / 0x20_0000 && c == virt / 0x4000_0000 && d == virt / 0x80_0000_0000;
    assert Digits(d, 1) == [d % ENTRIES];
    assert Digits(c, 2) == [d % ENTRIES, c % ENTRIES];
    assert Digits(b, 3) == [d % ENTRIES, c % ENTRIES, b % ENTRIES];
  }

  /** `(p4 << 39) | (p3 << 30) | (p2 << 21) | (p1 << 12)`. */
  function VirtOf(p: Path): nat
    requires |p| == 4
  {
    p[0] * 0x80_0000_0000 + p[1] * 0x4000_0000 + p[2] * 0x20_0000 + p[3] * 0x1000
  }

  /** A path read as a base-512 number. */
  function Value(p: Path): nat {
    if p == [] then 0 else Value(Parent(p)) * ENTRIES + Last(p)
  }

  function Pow(n: nat): nat {
    if n == 0 then 1 else ENTRIES * Pow(n - 1)
  }

  function Drop(x: nat, n: nat): nat {
    if n == 0 then x else Drop(x / ENTRIES, n - 1)
  }

  lemma {:induction false} DigitsOfValue(p: Path)
    requires forall i | 0 <= i < |p| :: p[i] < ENTRIES
    ensures Digits(Value(p), |p|) == p
  {
    if p != [] {
      DigitsOfValue(Parent(p));
      Compose(Value(Parent(p)), Last(p));
      assert p == Parent(p) + [Last(p)];
    }
  }

  lemma Compose(v: nat, i: nat)
    requires i < ENTRIES
    ensures (v * ENTRIES + i) / ENTRIES == v && (v * ENTRIES + i) % ENTRIES == i
  {}

  lemma Associate(q: nat, d: nat)
    ensures ENTRIES * q * d == ENTRIES * (q * d)
  {}

  lemma {:induction false} ValueOfDigits(x: nat, n: nat)
    ensures x == Value(Digits(x, n)) + Pow(n) * Drop(x, n)
    ensures Value(Digits(x, n)) < Pow(n)
  {
    if n > 0 {
      ValueOfDigits(x / ENTRIES, n - 1);
      var p := Digits(x, n);
      assert Parent(p) == Digits(x / ENTRIES, n - 1);
      Associate(Pow(n - 1), Drop(x, n));
    }
  }

  lemma PowFour()
    ensures Pow(4) == 0x10_0000_0000
  {
    assert Pow(1) == 512 && Pow(2) == 0x4_0000 && Pow(3) == 0x800_0000;
  }

  lemma Remainder(x: nat, v: nat, d: nat)
    requires x == v + 0x10_0000_0000 * d && v < 0x10_0000_0000
    ensures x % 0x10_0000_0000 == v
  {}

  lemma VirtOfValue(p: Path)
    requires |p| == 4
    ensures VirtOf(p) == Value(p) * PAGE_SIZE
  {
    var a, b, c := Parent(p), Parent(Parent(p)), Parent(Parent(Parent(p)));
    assert Value(c) == p[0] && Value(b) == p[0] * ENTRIES + p[1];
    assert Value(a) == (p[0] * ENTRIES + p[1]) * ENTRIES + p[2];
  }

  /** The address rebuilt from table indices splits into those indices again. */
  lemma RebuildSplits(p: Path)
    requires |p| == 4 && forall i | 0 <= i < 4 :: p[i] < ENTRIES
    ensures PathOf(VirtOf(p)) == p
  {
    VirtOfValue(p);
    DigitsOfValue(p);
  }

  /** Splitting loses only the offset in the page and the bits above 47. */
  lemma SplitRebuilds(virt: nat)
    ensures VirtOf(PathOf(virt)) == virt / PAGE_SIZE % 0x10_0000_0000 * PAGE_SIZE
  {
    VirtOfValue(PathOf(virt));
    ValueOfDigits(virt / PAGE_SIZE, 4);
    PowFour();
    Remainder(virt / PAGE_SIZE, Value(PathOf(virt)), Drop(virt / PAGE_SIZE, 4));
  }
}
