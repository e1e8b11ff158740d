/** What it means for a user address space to own its pages, and for one to be a deep copy of another. */
module ForkSpec {
  import opened Common
  import opened PageTables

  /**
   * The user half of an address space: every page in it is in `own`, at its one place, and `own` lists nothing else.
   */
  ghost predicate Owned(m: Memory, s: Space, own: Owners, free: set<int>) {
    && Sound(m, s, own, free)
    && DataPages(m, s, own)
    && (forall f {:trigger own[f]} | f in own :: |own[f]| <= 4 && Node(m, s, own[f]) == Some(f))
  }

  /** The pages of the subtree at path p. */
  ghost function Below(own: Owners, p: Path): set<int> {
    set f | f in own && p <= own[f]
  }

  /** Those of them under one of the first i entries of the table at p. */
  ghost function BelowFirst(own: Owners, p: Path, i: nat): set<int> {
    set f | f in own && |p| < |own[f]| && p <= own[f] && own[f][|p|] < i
  }

  lemma PrefixStep(p: Path, q: Path, i: nat)
    ensures p + [i] <= q <==> |p| < |q| && p <= q && q[|p|] == i
  {
    if p + [i] <= q {
      assert q[..|p|] == p;
    }
    if |p| < |q| && p <= q && q[|p|] == i {
      assert q[..|p| + 1] == p + [i];
    }
  }

  lemma BelowNext(own: Owners, p: Path, i: nat)
    ensures BelowFirst(own, p, i + 1) == BelowFirst(own, p, i) + Below(own, p + [i])
  {
    forall f | f in own
      ensures f in BelowFirst(own, p, i + 1) <==> f in BelowFirst(own, p, i) || f in Below(own, p + [i])
    {
      PrefixStep(p, own[f], i);
    }
  }

  /** A node's ancestors are nodes, and their indices are in range. */
  lemma {:induction false} Ancestor(m: Memory, s: Space, p: Path, n: nat)
    requires n <= |p| && Node(m, s, p).Some?
    ensures Node(m, s, p[..n]).Some?
    ensures n < |p| ==> p[n] < if n == 0 && s.top < ENTRIES then s.top else ENTRIES
    decreases |p|
  {
    if n < |p| {
      if n < |p| - 1 {
        Ancestor(m, s, Parent(p), n);
        assert Parent(p)[..n] == p[..n];
      } else {
        assert p[..n] == Parent(p);
      }
    } else {
      assert p[..n] == p;
    }
  }

  /** An absent entry has nothing below it. */
  lemma AbsentBelow(m: Memory, s: Space, own: Owners, free: set<int>, p: Path)
    requires Owned(m, s, own, free) && Node(m, s, p).None?
    ensures Below(own, p) == {}
  {
    forall f | f in Below(own, p)
      ensures false
    {
      assert own[f][..|p|] == p;
      Ancestor(m, s, own[f], |p|);
    }
  }

  /** A table's subtree is the table itself and what hangs under its entries. */
  lemma BelowTable(m: Memory, s: Space, own: Owners, free: set<int>, p: Path, bound: nat)
    requires Owned(m, s, own, free) && Node(m, s, p).Some? && |p| <= 3
    requires bound == if p == [] && s.top < ENTRIES then s.top else ENTRIES
    ensures Below(own, p) == BelowFirst(own, p, bound) + {Node(m, s, p).value}
    ensures Node(m, s, p).value !in BelowFirst(own, p, bound)
  {
    var f := Node(m, s, p).value;
    forall g | g in Below(own, p)
      ensures g in BelowFirst(own, p, bound) + {f}
    {
      if |own[g]| > |p| {
        Ancestor(m, s, own[g], |p|);
      } else {
        assert own[g] == p;
      }
    }
  }

  /** A data page's subtree is the page. */
  lemma BelowData(m: Memory, s: Space, own: Owners, free: set<int>, p: Path)
    requires Owned(m, s, own, free) && Node(m, s, p).Some? && |p| == 4
    ensures Below(own, p) == {Node(m, s, p).value}
  {
    forall g | g in Below(own, p)
      ensures g == Node(m, s, p).value
    {
      assert own[g] == p;
    }
  }

  // ---- Copying ----

  /** Memory, the pages of the copy under construction, and the free pages. */
  datatype World = World(mem: Memory, own: Owners, free: set<int>)

  /**
   * From w0 to w the copy has kept its pages and gained exactly the pages the allocator gave out; its
   * data pages, every page outside it, and its PML4 entries beyond `top` have kept their contents.
   */
  ghost predicate Kept(w0: World, w: World, dst: Space) {
    && w.free <= w0.free
    && (forall f | f in w0.own :: f in w.own && w.own[f] == w0.own[f])
    && (forall f | f in w.own && f !in w0.own :: f in w0.free && f !in w.free)
    && (forall f | f in w0.free && f !in w.free :: f in w.own)
    && (forall f | f in w0.mem && f !in w0.free && (f !in w0.own || |w0.own[f]| == 4) ::
         && f in w.mem
         && w.mem[f] == w0.mem[f])
    && (IsTable(w0.mem, dst.root) && dst.top <= ENTRIES ==>
          IsTable(w.mem, dst.root) && w.mem[dst.root].entries[dst.top..] == w0.mem[dst.root].entries[dst.top..])
  }

  /** Two address spaces, each owning its pages, with no page in common. */
  ghost predicate Apart(w: World, src: Space, ownS: Owners, dst: Space) {
    && Owned(w.mem, src, ownS, w.free)
    && Owned(w.mem, dst, w.own, w.free)
    && forall f | f in ownS :: f !in w.own
  }

  /** Page q is mapped in both with the same flags and the same contents, or in neither. */
  ghost predicate Copied(m: Memory, src: Space, dst: Space, q: Path)
    requires |q| == 4
  {
    var a, b := Leaf(m, src, q), Leaf(m, dst, q);
    if Present(a) then
      && Present(b) && Flags(b) == Flags(a)
      && FrameOf(a) in m && FrameOf(b) in m && m[FrameOf(b)] == m[FrameOf(a)]
    else
      b == 0
  }

  /** Four table indices: the name of a virtual page. */
  predicate IsPage(q: Path) {
    |q| == 4 && forall j | 0 <= j < 4 :: q[j] < ENTRIES
  }

  /** q lies under one of the first i entries of the table at p. */
  predicate Under(p: Path, i: nat, q: Path) {
    |p| < |q| && p <= q && q[|p|] < i
  }

  /** Since w0, the pages under the first i entries of the table at p have been copied, and no other leaf touched. */
  ghost predicate Advanced(w0: World, w: World, src: Space, dst: Space, p: Path, i: nat) {
    forall q | IsPage(q) ::
      if Under(p, i, q) then Copied(w.mem, src, dst, q) else Leaf(w.mem, dst, q) == Leaf(w0.mem, dst, q)
  }

  /** Since w0, the pages below p have been copied, and no other leaf touched. */
  ghost predicate CopiedBelow(w0: World, w: World, src: Space, dst: Space, p: Path) {
    forall q | IsPage(q) ::
      if p <= q then Copied(w.mem, src, dst, q) else Leaf(w.mem, dst, q) == Leaf(w0.mem, dst, q)
  }

  /** Nothing is mapped yet below p. */
  ghost predicate Blank(m: Memory, dst: Space, p: Path) {
    forall q | IsPage(q) && p <= q :: Leaf(m, dst, q) == 0
  }

  lemma KeptTrans(w0: World, w1: World, w2: World, dst: Space)
    requires Kept(w0, w1, dst) && Kept(w1, w2, dst)
    ensures Kept(w0, w2, dst)
  {}

  /** A data page is what the leaf says. */
  lemma DataNode(m: Memory, s: Space, q: Path)
    requires |q| == 4
    ensures Node(m, s, q) == if Present(Leaf(m, s, q)) then Some(FrameOf(Leaf(m, s, q))) else None
  {}

  lemma SourceLeafKept(w0: World, w: World, src: Space, ownS: Owners, dst: Space, q: Path)
    requires Apart(w0, src, ownS, dst) && Kept(w0, w, dst) && |q| == 4
    ensures Leaf(w.mem, src, q) == Leaf(w0.mem, src, q)
  {
    SameNode(w0.mem, w.mem, src, ownS, Parent(q));
  }

  /** A finished copy of a page stays finished. */
  lemma CopiedKept(w0: World, w: World, src: Space, ownS: Owners, dst: Space, q: Path)
    requires Apart(w0, src, ownS, dst) && Kept(w0, w, dst) && |q| == 4
    requires Copied(w0.mem, src, dst, q) && Leaf(w.mem, dst, q) == Leaf(w0.mem, dst, q)
    ensures Copied(w.mem, src, dst, q)
  {
    SourceLeafKept(w0, w, src, ownS, dst, q);
    DataNode(w0.mem, src, q);
    DataNode(w0.mem, dst, q);
  }

  /** One more entry of the table at p done. */
  lemma AdvanceStep(w0: World, w1: World, w2: World, src: Space, ownS: Owners, dst: Space, p: Path, i: nat)
    requires Apart(w1, src, ownS, dst) && Kept(w1, w2, dst)
    requires Advanced(w0, w1, src, dst, p, i) && CopiedBelow(w1, w2, src, dst, p + [i])
    ensures Advanced(w0, w2, src, dst, p, i + 1)
  {
    forall q | IsPage(q)
      ensures if Under(p, i + 1, q) then Copied(w2.mem, src, dst, q) else Leaf(w2.mem, dst, q) == Leaf(w0.mem, dst, q)
    {
      PrefixStep(p, q, i);
      if Under(p, i, q) {
        CopiedKept(w1, w2, src, ownS, dst, q);
      }
    }
  }

  /** All entries of the table at p done. */
  lemma AdvanceEnd(w0: World, w: World, src: Space, dst: Space, p: Path, bound: nat)
    requires Advanced(w0, w, src, dst, p, bound) && |p| <= 3 && src.top == dst.top <= ENTRIES
    requires bound == if p == [] then dst.top else ENTRIES
    ensures CopiedBelow(w0, w, src, dst, p)
  {
    forall q | IsPage(q) && p <= q && q[|p|] >= bound
      ensures Copied(w.mem, src, dst, q)
    {
      BeyondTop(w.mem, src, q);
      BeyondTop(w.mem, dst, q);
    }
  }

  lemma BeyondTop(m: Memory, s: Space, q: Path)
    requires |q| == 4 && q[0] >= s.top
    ensures Leaf(m, s, q) == 0
  {
    assert Last(q[..1]) == q[0];
    NoLeaf(m, s, q, 1);
  }

  /** An absent entry has nothing to copy. */
  lemma AbsentCopied(w: World, src: Space, dst: Space, p: Path)
    requires |p| <= 4 && Node(w.mem, src, p).None? && Blank(w.mem, dst, p)
    ensures CopiedBelow(w, w, src, dst, p)
  {
    forall q | IsPage(q) && p <= q
      ensures !Present(Leaf(w.mem, src, q))
    {
      DataNode(w.mem, src, q);
      if Node(w.mem, src, q).Some? {
        assert q[..|p|] == p;
        Ancestor(w.mem, src, q, |p|);
      }
    }
  }

  lemma BlankChild(w0: World, w: World, src: Space, dst: Space, p: Path, i: nat)
    requires Blank(w0.mem, dst, p) && Advanced(w0, w, src, dst, p, i)
    ensures Blank(w.mem, dst, p + [i])
  {
    forall q | IsPage(q) && p + [i] <= q
      ensures Leaf(w.mem, dst, q) == 0
    {
      PrefixStep(p, q, i);
    }
  }

  /** An address space does not notice changes to pages it does not own. */
  lemma OwnedFrame(m: Memory, m': Memory, s: Space, own: Owners, free: set<int>, free': set<int>)
    requires Owned(m, s, own, free)
    requires forall f | f in own && f in m :: f in m' && m'[f] == m[f]
    requires forall f | f in own :: f !in free'
    ensures Owned(m', s, own, free') && SameLeaves(m, m', s)
  {
    forall p | |p| <= 4
      ensures Node(m', s, p) == Node(m, s, p)
    {
      SameNode(m, m', s, own, p);
    }
  }

  /** Mapping a fresh data page where nothing was mapped adds that page, and tables, to what is owned. */
  lemma MappedOwned(m: Memory, own: Owners, free: set<int>, m': Memory, own': Owners, free': set<int>,
                    s: Space, q: Path, e: nat)
    requires Owned(m, s, own, free) && Extends(m, own, free, m', own', free', s) && LeafSet(m, m', s, q, e)
    requires |q| == 4 && !Present(Leaf(m, s, q)) && Present(e)
    requires var g := FrameOf(e); g !in own && g !in free && IsRaw(m, g)
    ensures Owned(m', s, own'[FrameOf(e) := q], free') && FrameOf(e) in m' && m'[FrameOf(e)] == m[FrameOf(e)]
  {
    hide Present, FrameOf, IsTable;
    var g := FrameOf(e);
    forall p | |p| == 4
      ensures Node(m', s, p) == if p == q then Some(g) else Node(m, s, p)
    {
      DataNode(m, s, p);
      DataNode(m', s, p);
    }
  }

  // ---- The order in which pages are copied ----

  /** Page q is visited before anything at or below p. */
  ghost predicate Before(q: Path, p: Path) {
    |p| <= |q| && exists j | 0 <= j < |p| :: q[..j] == p[..j] && q[j] < p[j]
  }

  lemma BeforeStep(q: Path, p: Path, i: nat)
    requires |p| < |q|
    ensures Before(q, p + [i]) <==> Before(q, p) || Under(p, i, q)
  {
    var r := p + [i];
    if Before(q, r) {
      var j :| 0 <= j < |r| && q[..j] == r[..j] && q[j] < r[j];
      if j < |p| {
        assert q[..j] == p[..j] && q[j] < p[j];
      } else {
        assert r[..j] == p;
      }
    }
    if Before(q, p) {
      var j :| 0 <= j < |p| && q[..j] == p[..j] && q[j] < p[j];
      assert q[..j] == r[..j] && q[j] < r[j];
    }
    if Under(p, i, q) {
      assert q[..|p|] == p == r[..|p|] && q[|p|] < r[|p|];
    }
  }

  lemma BeforeTrans(a: Path, b: Path, c: Path)
    requires |a| == |b| == |c| && Before(a, b) && Before(b, c)
    ensures Before(a, c)
  {
    var i :| 0 <= i < |b| && a[..i] == b[..i] && a[i] < b[i];
    var j :| 0 <= j < |c| && b[..j] == c[..j] && b[j] < c[j];
    var k := if i < j then i else j;
    assert a[..k] == a[..i][..k] == b[..i][..k] == b[..k] == b[..j][..k] == c[..j][..k] == c[..k];
    assert i < j ==> b[..j][i] == c[..j][i];
    assert j < i ==> a[..i][j] == b[..i][j];
    assert a[k] < c[k];
  }

  lemma NotBefore(q: Path)
    ensures !Before(q, q)
  {}

  /** Of two different pages one is visited first. */
  lemma {:induction false} OneFirst(a: Path, b: Path)
    requires |a| == |b|
    ensures a == b || Before(a, b) || Before(b, a)
  {
    if a != [] {
      var a', b' := Parent(a), Parent(b);
      OneFirst(a', b');
      assert a == a' + [Last(a)] && b == b' + [Last(b)];
      BeforeStep(a, b', Last(b));
      BeforeStep(b, a', Last(a));
      if Before(a', b') {
        BeforeLonger(a, b');
      } else if Before(b', a') {
        BeforeLonger(b, a');
      }
    }
  }

  lemma BeforeLonger(a: Path, b: Path)
    requires a != [] && Before(Parent(a), b)
    ensures Before(a, b)
  {
    var a' := Parent(a);
    var j :| 0 <= j < |b| && a'[..j] == b[..j] && a'[j] < b[j];
    assert a[..j] == b[..j] && a[j] < b[j];
  }

  // ---- How many pages a copy takes ----

  /** The source's data pages. */
  ghost function PagesOf(ownS: Owners): set<Path> {
    set f | f in ownS && |ownS[f]| == 4 :: ownS[f]
  }

  ghost function PagesBefore(ownS: Owners, p: Path): set<Path> {
    set q | q in PagesOf(ownS) && Before(q, p)
  }

  ghost function PagesUnder(ownS: Owners, p: Path): set<Path> {
    set q | q in PagesOf(ownS) && p <= q
  }

  /** The places in a tree with these pages: the root, and everything on the way to each page. */
  ghost function PlacesOf(pages: set<Path>): set<Path> {
    {[]} + set q, n | q in pages && 0 <= n <= |q| :: q[..n]
  }

  /** The places a copy has to fill. */
  ghost function Needs(ownS: Owners): set<Path> {
    PlacesOf(PagesOf(ownS))
  }

  /** And how many of them before page q is copied. */
  ghost function NeedsBefore(ownS: Owners, q: Path): set<Path> {
    PlacesOf(PagesBefore(ownS, q))
  }

  lemma PlaceIs(pages: set<Path>, x: Path)
    ensures x in PlacesOf(pages) <==> x == [] || exists q | q in pages :: x <= q
  {
    if x in PlacesOf(pages) && x != [] {
      var q, n :| q in pages && 0 <= n <= |q| && x == q[..n];
    }
    if q :| q in pages && x <= q {
      assert x == q[..|x|];
    }
  }

  lemma PlacesMore(a: set<Path>, b: set<Path>)
    requires a <= b
    ensures PlacesOf(a) <= PlacesOf(b) && |PlacesOf(a)| <= |PlacesOf(b)|
  {
    hide PlacesOf;
    forall x | x in PlacesOf(a)
      ensures x in PlacesOf(b)
    {
      PlaceIs(a, x);
      PlaceIs(b, x);
    }
    SubsetCount(PlacesOf(a), PlacesOf(b));
  }

  /** Every step of the visit, in terms of the pages visited. */
  lemma PagesStep(ownS: Owners, p: Path, i: nat)
    requires |p| <= 3
    ensures PagesBefore(ownS, p + [0]) == PagesBefore(ownS, p)
    ensures PagesBefore(ownS, p + [i + 1]) == PagesBefore(ownS, p + [i]) + PagesUnder(ownS, p + [i])
  {
    hide Before;
    forall q | q in PagesOf(ownS)
      ensures Before(q, p + [0]) <==> Before(q, p)
      ensures Before(q, p + [i + 1]) <==> Before(q, p + [i]) || p + [i] <= q
    {
      BeforeStep(q, p, 0);
      BeforeStep(q, p, i);
      BeforeStep(q, p, i + 1);
      PrefixStep(p, q, i);
    }
  }

  lemma PagesEnd(m: Memory, s: Space, ownS: Owners, free: set<int>, p: Path, bound: nat)
    requires Owned(m, s, ownS, free) && |p| <= 3 && bound == if p == [] && s.top < ENTRIES then s.top else ENTRIES
    ensures PagesBefore(ownS, p + [bound]) == PagesBefore(ownS, p) + PagesUnder(ownS, p)
  {
    hide Before;
    forall q | q in PagesOf(ownS)
      ensures Before(q, p + [bound]) <==> Before(q, p) || p <= q
    {
      BeforeStep(q, p, bound);
      var f :| f in ownS && ownS[f] == q;
      Ancestor(m, s, q, |p|);
    }
  }

  /** The copy fills exactly these places. */
  ghost predicate Fills(w: World, dst: Space, places: set<Path>) {
    && (forall f | f in w.own :: w.own[f] in places)
    && (forall x | x in places :: Node(w.mem, dst, x).Some?)
  }

  lemma {:induction false} InjectiveCount(own: Owners, keys: set<nat>, places: set<Path>)
    requires forall f | f in keys :: f in own && own[f] in places
    requires forall f, g | f in keys && g in keys && own[f] == own[g] :: f == g
    ensures |keys| <= |places|
    decreases keys
  {
    if f :| f in keys {
      InjectiveCount(own, keys - {f}, places - {own[f]});
    }
  }

  lemma {:induction false} SurjectiveCount(own: Owners, keys: set<nat>, places: set<Path>)
    requires forall p | p in places :: exists f | f in keys :: f in own && own[f] == p
    ensures |places| <= |keys|
    decreases places
  {
    if p :| p in places {
      var f :| f in keys && f in own && own[f] == p;
      SurjectiveCount(own, keys - {f}, places - {p});
    }
  }

  lemma Moved<T(!new)>(a0: set<T>, f0: set<T>, a: set<T>, f: set<T>)
    requires f <= f0 && forall x | x in a0 :: x !in f0
    requires forall x :: x in a <==> x in a0 || (x in f0 && x !in f)
    ensures |a| + |f| == |a0| + |f0|
  {
    assert a == a0 + (f0 - f);
    assert a0 * (f0 - f) == {};
    assert |f0 - f| + |f| == |f0| by {
      assert f0 == (f0 - f) + f;
    }
  }

  /** Owned and free pages together stay as many as they were. */
  lemma KeptCount(w0: World, w: World, dst: Space)
    requires Kept(w0, w, dst) && forall f | f in w0.own :: f !in w0.free
    ensures |w.own.Keys| + |w.free| == |w0.own.Keys| + |w0.free|
  {
    forall x: int
      ensures x in w.own.Keys <==> x in w0.own.Keys || (x in w0.free && x !in w.free)
    {
      assert x in w.own <==> x in w.own.Keys;
      assert x in w0.own <==> x in w0.own.Keys;
    }
    Moved<int>(w0.own.Keys, w0.free, w.own.Keys, w.free);
  }

  /** All pages there are for the copy. */
  ghost function Total(w: World): nat {
    |w.own.Keys| + |w.free|
  }

  lemma OwnedNode(m: Memory, s: Space, own: Owners, free: set<int>, x: Path)
    requires Owned(m, s, own, free) && |x| <= 4 && Node(m, s, x).Some?
    ensures Node(m, s, x).value in own && own[Node(m, s, x).value] == x
  {}

  /** It has as many pages as places. */
  lemma FillsCount(w: World, dst: Space, places: set<Path>)
    requires Owned(w.mem, dst, w.own, w.free) && Fills(w, dst, places) && forall x | x in places :: |x| <= 4
    ensures |w.own.Keys| == |places|
  {
    forall f, g | f in w.own.Keys && g in w.own.Keys && w.own[f] == w.own[g]
      ensures f == g
    {
      assert Node(w.mem, dst, w.own[f]) == Some(f) && Node(w.mem, dst, w.own[g]) == Some(g);
    }
    InjectiveCount(w.own, w.own.Keys, places);
    forall x | x in places
      ensures exists f | f in w.own.Keys :: f in w.own && w.own[f] == x
    {
      OwnedNode(w.mem, dst, w.own, w.free, x);
    }
    SurjectiveCount(w.own, w.own.Keys, places);
  }

  lemma PlacesShort(ownS: Owners, pages: set<Path>)
    requires pages <= PagesOf(ownS)
    ensures forall x | x in PlacesOf(pages) :: |x| <= 4
  {}

  lemma PageInRange(m: Memory, s: Space, q: Path)
    requires |q| == 4 && Node(m, s, q).Some?
    ensures IsPage(q)
  {
    forall j | 0 <= j < 4
      ensures q[j] < ENTRIES
    {
      Ancestor(m, s, q, j);
    }
  }

  lemma OwnedAt(m: Memory, s: Space, own: Owners, free: set<int>, q: Path)
    requires Owned(m, s, own, free) && |q| == 4 && Node(m, s, q).Some?
    ensures Node(m, s, q).value in own && own[Node(m, s, q).value] == q
  {}

  lemma ExtendsCount(m: Memory, own: Owners, free: set<int>, m': Memory, own': Owners, free': set<int>, s: Space)
    requires Extends(m, own, free, m', own', free', s) && forall f | f in own :: f !in free
    ensures |own'.Keys| + |free'| == |own.Keys| + |free|
  {
    forall x: int
      ensures x in own'.Keys <==> x in own.Keys || (x in free && x !in free')
    {
      assert x in own' <==> x in own'.Keys;
      assert x in own <==> x in own.Keys;
    }
    Moved<int>(own.Keys, free, own'.Keys, free');
  }

  /** Page q is not yet among the places. */
  lemma PageIsNew(ownS: Owners, q: Path)
    requires q in PagesOf(ownS)
    ensures q !in NeedsBefore(ownS, q) && PagesBefore(ownS, q) + {q} <= PagesOf(ownS)
  {
    hide PlacesOf;
    PlaceIs(PagesBefore(ownS, q), q);
    if q in NeedsBefore(ownS, q) {
      var r :| r in PagesBefore(ownS, q) && q <= r;
      assert r == q;
      NotBefore(q);
    }
  }

  // ---- How a copy ends ----

  /** Stopped at page q for want of a data page: the free pages sufficed exactly for what comes before q. */
  ghost predicate StopsAt(ownS: Owners, total: nat, q: Path) {
    q in PagesOf(ownS) && total == |NeedsBefore(ownS, q)|
  }

  /** Stopped at page q for want of a table: they sufficed for more, but not for q. */
  ghost predicate BreaksAt(ownS: Owners, total: nat, q: Path) {
    q in PagesOf(ownS) && |NeedsBefore(ownS, q)| < total < |PlacesOf(PagesBefore(ownS, q) + {q})|
  }

  /** The number of free pages stops the copy at some data page. */
  ghost predicate Stops(ownS: Owners, free: nat) {
    free == 0 || exists q :: StopsAt(ownS, free, q)
  }

  /** Before page q there is less to fill than in all. */
  lemma LessBefore(ownS: Owners, q: Path)
    requires q in PagesOf(ownS)
    ensures |NeedsBefore(ownS, q)| < |PlacesOf(PagesBefore(ownS, q) + {q})| <= |Needs(ownS)|
  {
    hide PlacesOf;
    PageIsNew(ownS, q);
    PlacesMore(PagesBefore(ownS, q), PagesBefore(ownS, q) + {q});
    PlacesMore(PagesBefore(ownS, q) + {q}, PagesOf(ownS));
    PlaceIs(PagesBefore(ownS, q) + {q}, q);
    assert q in PagesBefore(ownS, q) + {q};
    SubsetCount(NeedsBefore(ownS, q), PlacesOf(PagesBefore(ownS, q) + {q}) - {q});
  }

  /** Where the copy breaks, it does not stop. */
  lemma BreaksNotStops(ownS: Owners, total: nat, q: Path, r: Path)
    requires BreaksAt(ownS, total, q)
    ensures !StopsAt(ownS, total, r)
  {
    hide PlacesOf, Before;
    if r in PagesOf(ownS) {
      OneFirst(q, r);
      if Before(r, q) {
        EarlierFewer(ownS, r, q);
      } else if Before(q, r) {
        EarlierFewer(ownS, q, r);
      }
    }
  }

  /** What is needed before r, and for r itself, is needed before a later q. */
  lemma EarlierFewer(ownS: Owners, r: Path, q: Path)
    requires r in PagesOf(ownS) && q in PagesOf(ownS) && Before(r, q)
    ensures |NeedsBefore(ownS, r)| <= |PlacesOf(PagesBefore(ownS, r) + {r})| <= |NeedsBefore(ownS, q)|
  {
    hide PlacesOf, Before;
    forall x | x in PagesBefore(ownS, r) + {r}
      ensures x in PagesBefore(ownS, q)
    {
      if x != r {
        BeforeTrans(x, r, q);
      }
    }
    PlacesMore(PagesBefore(ownS, r), PagesBefore(ownS, r) + {r});
    PlacesMore(PagesBefore(ownS, r) + {r}, PagesBefore(ownS, q));
  }

  // ---- Running out ----

  /** Stopping with page q still to do, for want of a data page. */
  lemma ShortOfData(w: World, ownS: Owners, dst: Space, q: Path)
    requires Owned(w.mem, dst, w.own, w.free) && Fills(w, dst, NeedsBefore(ownS, q)) && w.free == {}
             && q in PagesOf(ownS)
    ensures StopsAt(ownS, Total(w), q)
  {
    hide Owned, Fills, PlacesOf;
    PlacesShort(ownS, PagesBefore(ownS, q));
    FillsCount(w, dst, NeedsBefore(ownS, q));
  }

  lemma TablePlace(w: World, m1: Memory, g: nat, m2: Memory, own2: Owners, free2: set<int>,
                   ownS: Owners, dst: Space, q: Path, h: nat)
    requires Owned(w.mem, dst, w.own, w.free) && Fills(w, dst, NeedsBefore(ownS, q)) && h in own2
    requires q in PagesOf(ownS) && Node(w.mem, dst, q).None?
    requires Extends(m1, w.own, w.free - {g}, m2, own2, free2, dst) && GainedOn(w.own, own2, q)
    requires Node(m2, dst, q[..3]).None?
    ensures own2[h] in PlacesOf(PagesBefore(ownS, q) + {q}) && own2[h] != q && own2[h] != q[..3]
  {
    hide PlacesOf;
    PlacesMore(PagesBefore(ownS, q), PagesBefore(ownS, q) + {q});
    if h !in w.own {
      assert q in PagesBefore(ownS, q) + {q};
      PlaceIs(PagesBefore(ownS, q) + {q}, own2[h]);
    }
    TableOrData(w, m1, g, m2, own2, free2, dst, h);
  }

  lemma TablesFit(w: World, m1: Memory, g: nat, m2: Memory, own2: Owners, free2: set<int>,
                  ownS: Owners, dst: Space, q: Path)
    requires Owned(w.mem, dst, w.own, w.free) && Fills(w, dst, NeedsBefore(ownS, q))
    requires q in PagesOf(ownS) && Node(w.mem, dst, q).None?
    requires Extends(m1, w.own, w.free - {g}, m2, own2, free2, dst) && GainedOn(w.own, own2, q)
    requires Node(m2, dst, q[..3]).None?
    ensures |own2.Keys| + 2 <= |PlacesOf(PagesBefore(ownS, q) + {q})|
  {
    hide Extends, GainedOn, Sound, DataPages, PlacesOf, Fills, Owned;
    var all := PagesBefore(ownS, q) + {q};
    assert q in all;
    PlaceIs(all, q);
    PlaceIs(all, q[..3]);
    var places := PlacesOf(all) - {q} - {q[..3]};
    forall h | h in own2
      ensures own2[h] in places
    {
      TablePlace(w, m1, g, m2, own2, free2, ownS, dst, q, h);
    }
    forall h, k | h in own2.Keys && k in own2.Keys && own2[h] == own2[k]
      ensures h == k
    {
      TableOrData(w, m1, g, m2, own2, free2, dst, h);
      TableOrData(w, m1, g, m2, own2, free2, dst, k);
    }
    InjectiveCount(own2, own2.Keys, places);
  }

  /** Stopping with page q still to do, for want of a table. */
  lemma ShortOfTable(w: World, m1: Memory, g: nat, m2: Memory, own2: Owners, ownS: Owners, dst: Space, q: Path)
    requires Owned(w.mem, dst, w.own, w.free) && Fills(w, dst, NeedsBefore(ownS, q)) && g in w.free
    requires q in PagesOf(ownS) && Node(w.mem, dst, q).None?
    requires Extends(m1, w.own, w.free - {g}, m2, own2, {}, dst) && GainedOn(w.own, own2, q)
    requires Node(m2, dst, q[..3]).None?
    ensures BreaksAt(ownS, Total(w), q)
  {
    TablesFit(w, m1, g, m2, own2, {}, ownS, dst, q);
    ExtendsCount(m1, w.own, w.free - {g}, m2, own2, {}, dst);
    hide Extends, GainedOn, PlacesOf, Fills, Owned;
    PlacesShort(ownS, PagesBefore(ownS, q));
    FillsCount(w, dst, NeedsBefore(ownS, q));
    KeysKept(m1, w.own, w.free - {g}, m2, own2, {}, dst);
  }

  lemma KeysKept(m: Memory, own: Owners, free: set<int>, m': Memory, own': Owners, free': set<int>, s: Space)
    requires Extends(m, own, free, m', own', free', s)
    ensures |own.Keys| <= |own'.Keys|
  {
    hide Sound;
    SubsetCount(own.Keys, own'.Keys);
  }

  /** Page q copied: the copy fills its places too. */
  lemma FillsMore(w: World, w2: World, ownS: Owners, dst: Space, q: Path)
    requires Owned(w.mem, dst, w.own, w.free) && Owned(w2.mem, dst, w2.own, w2.free)
    requires Fills(w, dst, NeedsBefore(ownS, q)) && q in PagesOf(ownS) && Node(w2.mem, dst, q).Some?
    requires forall f | f in w.own :: f in w2.own && w2.own[f] == w.own[f]
    requires forall f | f in w2.own && f !in w.own :: w2.own[f] <= q
    ensures Fills(w2, dst, PlacesOf(PagesBefore(ownS, q) + {q}))
  {
    hide PlacesOf, Owned;
    var all := PagesBefore(ownS, q) + {q};
    PlacesMore(PagesBefore(ownS, q), all);
    assert q in all;
    forall f | f in w2.own
      ensures w2.own[f] in PlacesOf(all)
    {
      PlaceIs(all, w2.own[f]);
    }
    forall x | x in PlacesOf(all)
      ensures Node(w2.mem, dst, x).Some?
    {
      FilledAt(w, w2, ownS, dst, q, x);
    }
  }

  lemma FilledAt(w: World, w2: World, ownS: Owners, dst: Space, q: Path, x: Path)
    requires Owned(w.mem, dst, w.own, w.free) && Owned(w2.mem, dst, w2.own, w2.free)
    requires Fills(w, dst, NeedsBefore(ownS, q)) && q in PagesOf(ownS) && Node(w2.mem, dst, q).Some?
    requires forall f | f in w.own :: f in w2.own && w2.own[f] == w.own[f]
    requires x in PlacesOf(PagesBefore(ownS, q) + {q})
    ensures Node(w2.mem, dst, x).Some?
  {
    hide PlacesOf;
    PlaceIs(PagesBefore(ownS, q) + {q}, x);
    PlaceIs(PagesBefore(ownS, q), x);
    PlacesShort(ownS, PagesBefore(ownS, q));
    if x in NeedsBefore(ownS, q) {
      OwnedNode(w.mem, dst, w.own, w.free, x);
      assert w2.own[Node(w.mem, dst, x).value] == x;
    } else {
      assert x <= q && x == q[..|x|];
      Ancestor(w2.mem, dst, q, |x|);
    }
  }

  lemma TableOrData(w: World, m1: Memory, g: nat, m2: Memory, own2: Owners, free2: set<int>, dst: Space, h: nat)
    requires Owned(w.mem, dst, w.own, w.free) && h in own2
    requires Extends(m1, w.own, w.free - {g}, m2, own2, free2, dst)
    ensures |own2[h]| <= 3 ==> Node(m2, dst, own2[h]) == Some(h)
    ensures |own2[h]| > 3 ==> h in w.own && Node(w.mem, dst, own2[h]) == Some(h)
  {}
}
