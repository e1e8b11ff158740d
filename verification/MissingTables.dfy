/** mm/vmm.c: how many page tables mapping takes. */
module MissingTables {
  import opened Common
  import opened PageTables
  import opened ForkSpec

  /** The tables missing on the way to these pages. */
  ghost function Missing(m: Memory, s: Space, paths: set<Path>): set<Path> {
    set p, k | p in paths && 1 <= k <= 3 && k <= |p| && Node(m, s, p[..k]).None? :: p[..k]
  }

  /** Place q lies on the way to one of these pages. */
  ghost predicate OnWay(q: Path, paths: set<Path>) {
    exists p | p in paths :: q <= p
  }

  lemma MissingIs(m: Memory, s: Space, paths: set<Path>, q: Path)
    ensures q in Missing(m, s, paths) <==> 1 <= |q| <= 3 && Node(m, s, q).None? && OnWay(q, paths)
  {
    hide Node;
    if 1 <= |q| <= 3 && Node(m, s, q).None? && OnWay(q, paths) {
      var p :| p in paths && q <= p;
      assert q == p[..|q|];
    }
  }

  lemma OnWayUnion(q: Path, a: set<Path>, b: set<Path>)
    ensures OnWay(q, a + b) <==> OnWay(q, a) || OnWay(q, b)
  {
    if OnWay(q, a) {
      var p :| p in a && q <= p;
      assert p in a + b;
    }
    if OnWay(q, b) {
      var p :| p in b && q <= p;
      assert p in a + b;
    }
  }

  /** The tree has gained exactly the tables that were missing. */
  ghost predicate Grown(m: Memory, m': Memory, s: Space, paths: set<Path>) {
    forall q | |q| <= 3 :: Node(m', s, q).Some? <==> Node(m, s, q).Some? || q in Missing(m, s, paths)
  }

  /** The tree has gained some of them, but not all. */
  ghost predicate Stuck(m: Memory, m': Memory, s: Space, paths: set<Path>) {
    && (forall q | |q| <= 3 :: Node(m, s, q).Some? ==> Node(m', s, q).Some?)
    && (forall q | |q| <= 3 :: Node(m', s, q).Some? ==> Node(m, s, q).Some? || q in Missing(m, s, paths))
    && exists q | q in Missing(m, s, paths) :: Node(m', s, q).None?
  }

  lemma GrownThen(m: Memory, m1: Memory, m2: Memory, s: Space, a: set<Path>, b: set<Path>)
    requires Grown(m, m1, s, a) && Grown(m1, m2, s, b)
    ensures Grown(m, m2, s, a + b)
  {
    hide Node, Missing;
    forall q | |q| <= 3
      ensures Node(m2, s, q).Some? <==> Node(m, s, q).Some? || q in Missing(m, s, a + b)
    {
      MissingIs(m, s, a, q);
      MissingIs(m1, s, b, q);
      MissingIs(m, s, a + b, q);
      OnWayUnion(q, a, b);
      RootThere(m, s, q);
    }
  }

  lemma RootThere(m: Memory, s: Space, q: Path)
    ensures q == [] ==> Node(m, s, q).Some?
  {}

  lemma StuckThen(m: Memory, m1: Memory, m2: Memory, s: Space, a: set<Path>, b: set<Path>)
    requires Grown(m, m1, s, a) && Stuck(m1, m2, s, b)
    ensures Stuck(m, m2, s, a + b)
  {
    hide Node, Missing;
    forall q | |q| <= 3
      ensures Node(m2, s, q).Some? ==> Node(m, s, q).Some? || q in Missing(m, s, a + b)
      ensures q in Missing(m1, s, b) ==> q in Missing(m, s, a + b)
    {
      MissingIs(m, s, a, q);
      MissingIs(m1, s, b, q);
      MissingIs(m, s, a + b, q);
      OnWayUnion(q, a, b);
    }
    var q :| q in Missing(m1, s, b) && Node(m2, s, q).None?;
    MissingIs(m1, s, b, q);
  }

  lemma StuckMore(m: Memory, m': Memory, s: Space, a: set<Path>, b: set<Path>)
    requires Stuck(m, m', s, a)
    ensures Stuck(m, m', s, a + b)
  {
    hide Node, Missing;
    forall q
      ensures q in Missing(m, s, a) ==> q in Missing(m, s, a + b)
    {
      MissingIs(m, s, a, q);
      MissingIs(m, s, a + b, q);
      OnWayUnion(q, a, b);
    }
  }

  lemma MissingMono(m: Memory, s: Space, a: set<Path>, b: set<Path>)
    requires a <= b
    ensures Missing(m, s, a) <= Missing(m, s, b)
  {
    hide Node, Missing;
    forall q
      ensures q in Missing(m, s, a) ==> q in Missing(m, s, b)
    {
      MissingIs(m, s, a, q);
      MissingIs(m, s, b, q);
      OnWayUnion(q, a, b);
      assert a + b == b;
    }
  }

  lemma GrownSame(m: Memory, m1: Memory, m2: Memory, s: Space, paths: set<Path>)
    requires Grown(m, m1, s, paths) && forall q | |q| <= 3 :: Node(m2, s, q) == Node(m1, s, q)
    ensures Grown(m, m2, s, paths)
  {
    hide Node, Missing;
  }

  // ---- From what mapping promises ----

  ghost predicate Keeps(own: Owners, own': Owners) {
    forall f | f in own :: f in own' && own'[f] == own[f]
  }

  /** A table of the tree stays where it is while the tree keeps its tables. */
  lemma TableStays(m: Memory, own: Owners, free: set<int>, m': Memory, own': Owners, free': set<int>, s: Space, q: Path)
    requires Sound(m, s, own, free) && Sound(m', s, own', free') && Keeps(own, own') && |q| <= 3 && Node(m, s, q).Some?
    ensures Node(m', s, q) == Node(m, s, q) && Node(m, s, q).value in own
  {
    hide Node;
    TableHere(m, s, own, q);
    NodeOf(m', s, own', free', Node(m, s, q).value);
  }

  /** A table of the tree that was not there was made on the way to p. */
  lemma TableMade(m: Memory, own: Owners, free: set<int>, m': Memory, own': Owners, free': set<int>, s: Space, p: Path,
                  q: Path)
    requires Sound(m, s, own, free) && Extends(m, own, free, m', own', free', s) && GainedOn(own, own', p)
    requires |q| <= 3 && Node(m', s, q).Some? && Node(m, s, q).None?
    ensures q <= p
  {
    hide Node;
    TableHere(m', s, own', q);
    NodeOf(m, s, own, free, Node(m', s, q).value);
  }

  lemma ExtendsKeeps(m: Memory, own: Owners, free: set<int>, m': Memory, own': Owners, free': set<int>, s: Space)
    requires Extends(m, own, free, m', own', free', s)
    ensures Sound(m', s, own', free') && Keeps(own, own') && AllShort(own, own')
  {
    hide Sound;
  }

  lemma MapBetween(m: Memory, own: Owners, free: set<int>, m': Memory, own': Owners, free': set<int>, s: Space,
                   p: Path, q: Path)
    requires Sound(m, s, own, free) && Extends(m, own, free, m', own', free', s) && GainedOn(own, own', p) && |q| <= 3
    ensures Node(m, s, q).Some? ==> Node(m', s, q).Some?
    ensures Node(m', s, q).Some? ==> Node(m, s, q).Some? || q in Missing(m, s, {p})
  {
    hide Node, Missing, Extends, Sound, GainedOn;
    ExtendsKeeps(m, own, free, m', own', free', s);
    if Node(m, s, q).Some? {
      TableStays(m, own, free, m', own', free', s, q);
    } else if Node(m', s, q).Some? {
      TableMade(m, own, free, m', own', free', s, p, q);
      RootThere(m, s, q);
      assert p in {p};
      MissingIs(m, s, {p}, q);
    }
  }

  lemma MapGrows(m: Memory, own: Owners, free: set<int>, m': Memory, own': Owners, free': set<int>, s: Space, p: Path)
    requires Sound(m, s, own, free) && Extends(m, own, free, m', own', free', s) && GainedOn(own, own', p)
    requires |p| == 4 && Node(m', s, p).Some?
    ensures Grown(m, m', s, {p})
  {
    hide Node, Missing, Extends, Sound, GainedOn;
    forall q | |q| <= 3
      ensures Node(m', s, q).Some? <==> Node(m, s, q).Some? || q in Missing(m, s, {p})
    {
      MapBetween(m, own, free, m', own', free', s, p, q);
      MissingIs(m, s, {p}, q);
      if q in Missing(m, s, {p}) {
        assert q == p[..|q|];
        Ancestor(m', s, p, |q|);
      }
    }
  }

  lemma MapStuck(m: Memory, own: Owners, free: set<int>, m': Memory, own': Owners, free': set<int>, s: Space, p: Path)
    requires Sound(m, s, own, free) && Extends(m, own, free, m', own', free', s) && GainedOn(own, own', p)
    requires |p| == 4 && Node(m', s, p[..3]).None?
    ensures Stuck(m, m', s, {p})
  {
    hide Node, Missing, Extends, Sound, GainedOn;
    forall q | |q| <= 3
      ensures Node(m, s, q).Some? ==> Node(m', s, q).Some?
      ensures Node(m', s, q).Some? ==> Node(m, s, q).Some? || q in Missing(m, s, {p})
    {
      MapBetween(m, own, free, m', own', free', s, p, q);
    }
    assert p in {p} && p[..3] <= p;
    MissingIs(m, s, {p}, p[..3]);
  }

  /** Nothing gained. */
  lemma NoneGrown(m: Memory, own: Owners, free: set<int>, m': Memory, s: Space)
    requires Sound(m, s, own, free) && Extends(m, own, free, m', own, free, s)
    ensures Grown(m, m', s, {})
  {
    hide Node, Missing, Extends, Sound;
    forall q | |q| <= 3
      ensures Node(m', s, q).Some? <==> Node(m, s, q).Some? || q in Missing(m, s, {})
    {
      MissingIs(m, s, {}, q);
      NothingGained(own, q);
      MapBetween(m, own, free, m', own, free, s, q, q);
      if Node(m', s, q).Some? {
        ExtendsSound(m, own, free, m', own, free, s);
        SameTables(m, own, free, m', s, q);
      }
    }
  }

  lemma NothingGained(own: Owners, p: Path)
    ensures GainedOn(own, own, p)
  {}

  lemma SameTables(m: Memory, own: Owners, free: set<int>, m': Memory, s: Space, q: Path)
    requires Sound(m, s, own, free) && Sound(m', s, own, free) && |q| <= 3 && Node(m', s, q).Some?
    ensures Node(m, s, q).Some?
  {
    hide Node;
    TableHere(m', s, own, q);
    NodeOf(m, s, own, free, Node(m', s, q).value);
  }

  // ---- Counting ----

  ghost function Gained(own: Owners, own': Owners): set<nat> {
    own'.Keys - own.Keys
  }

  /** Every page gone from the allocator is a new table. */
  lemma GainedCount(m: Memory, own: Owners, free: set<int>, m': Memory, own': Owners, free': set<int>, s: Space)
    requires Sound(m, s, own, free) && Extends(m, own, free, m', own', free', s)
    ensures |Gained(own, own')| + |free'| == |free|
  {
    hide Sound, Tree;
    SoundFree(m, s, own, free);
    ExtendsCount(m, own, free, m', own', free', s);
    assert own.Keys <= own'.Keys;
    assert own'.Keys == own.Keys + Gained(own, own');
  }

  lemma SoundFree(m: Memory, s: Space, own: Owners, free: set<int>)
    requires Sound(m, s, own, free)
    ensures forall f | f in own :: f !in free
  {}

  /** The pages gained are tables. */
  ghost predicate AllShort(own: Owners, own': Owners) {
    forall f | f in own' && f !in own :: |own'[f]| <= 3
  }

  /** A new table fills a place that was missing, and no two fill the same. */
  lemma GainedFew(m: Memory, own: Owners, free: set<int>, m': Memory, own': Owners, free': set<int>, s: Space,
                  places: set<Path>)
    requires Sound(m, s, own, free) && Sound(m', s, own', free') && Keeps(own, own') && AllShort(own, own')
    requires forall q | |q| <= 3 && Node(m', s, q).Some? && Node(m, s, q).None? :: q in places
    ensures |Gained(own, own')| <= |places|
  {
    hide Node, Sound;
    forall f | f in Gained(own, own')
      ensures f in own' && Node(m', s, own'[f]) == Some(f) && own'[f] in places
    {
      NewTable(m, own, free, m', own', free', s, f);
    }
    InjectiveCount(own', Gained(own, own'), places);
  }

  lemma NewTable(m: Memory, own: Owners, free: set<int>, m': Memory, own': Owners, free': set<int>, s: Space, f: nat)
    requires Sound(m, s, own, free) && Sound(m', s, own', free') && Keeps(own, own') && f in own' && f !in own
             && |own'[f]| <= 3
    ensures Node(m', s, own'[f]) == Some(f) && Node(m, s, own'[f]).None?
  {
    hide Node, Sound;
    NodeOf(m', s, own', free', f);
    if Node(m, s, own'[f]).Some? {
      TableStays(m, own, free, m', own', free', s, own'[f]);
    }
  }

  lemma GainedAll(m: Memory, own: Owners, free: set<int>, m': Memory, own': Owners, free': set<int>, s: Space,
                  places: set<Path>)
    requires Sound(m, s, own, free) && Sound(m', s, own', free') && Keeps(own, own')
    requires forall q | q in places :: |q| <= 3 && Node(m', s, q).Some? && Node(m, s, q).None?
    ensures |places| <= |Gained(own, own')|
  {
    hide Node;
    forall q | q in places
      ensures exists f | f in Gained(own, own') :: f in own' && own'[f] == q
    {
      TableHere(m', s, own', q);
      NodeOf(m, s, own, free, Node(m', s, q).value);
      assert Node(m', s, q).value in Gained(own, own');
    }
    SurjectiveCount(own', Gained(own, own'), places);
  }

  /** As many tables are gained as were missing. */
  lemma GrownGained(m: Memory, own: Owners, free: set<int>, m': Memory, own': Owners, free': set<int>, s: Space,
                    paths: set<Path>)
    requires Sound(m, s, own, free) && Sound(m', s, own', free') && Keeps(own, own') && AllShort(own, own')
    requires Grown(m, m', s, paths)
    ensures |Missing(m, s, paths)| == |Gained(own, own')|
  {
    hide Node, Missing, Sound, Gained, Keeps, AllShort;
    forall q | q in Missing(m, s, paths)
      ensures |q| <= 3 && Node(m', s, q).Some? && Node(m, s, q).None?
    {
      MissingIs(m, s, paths, q);
    }
    GainedFew(m, own, free, m', own', free', s, Missing(m, s, paths));
    GainedAll(m, own, free, m', own', free', s, Missing(m, s, paths));
  }

  /** Fewer, when stuck. */
  lemma StuckGained(m: Memory, own: Owners, free: set<int>, m': Memory, own': Owners, free': set<int>, s: Space,
                    paths: set<Path>)
    requires Sound(m, s, own, free) && Sound(m', s, own', free') && Keeps(own, own') && AllShort(own, own')
    requires Stuck(m, m', s, paths)
    ensures |Gained(own, own')| < |Missing(m, s, paths)|
  {
    hide Node, Missing, Sound, Gained, Keeps, AllShort;
    var q :| q in Missing(m, s, paths) && Node(m', s, q).None?;
    GainedFew(m, own, free, m', own', free', s, Missing(m, s, paths) - {q});
  }

  /** Mapping takes as many pages as tables are missing. */
  lemma GrownCount(m: Memory, own: Owners, free: set<int>, m': Memory, own': Owners, free': set<int>, s: Space,
                   paths: set<Path>)
    requires Sound(m, s, own, free) && Extends(m, own, free, m', own', free', s) && Grown(m, m', s, paths)
    ensures |Missing(m, s, paths)| + |free'| == |free|
  {
    hide Missing, Extends, Sound, Gained, Grown, Keeps, AllShort;
    ExtendsKeeps(m, own, free, m', own', free', s);
    GrownGained(m, own, free, m', own', free', s, paths);
    GainedCount(m, own, free, m', own', free', s);
  }

  /** Stuck with no page left, there were fewer pages than missing tables. */
  lemma StuckCount(m: Memory, own: Owners, free: set<int>, m': Memory, own': Owners, s: Space, paths: set<Path>)
    requires Sound(m, s, own, free) && Extends(m, own, free, m', own', {}, s) && Stuck(m, m', s, paths)
    ensures |free| < |Missing(m, s, paths)|
  {
    hide Missing, Extends, Sound, Gained, Stuck, Keeps, AllShort;
    ExtendsKeeps(m, own, free, m', own', {}, s);
    StuckGained(m, own, free, m', own', {}, s, paths);
    GainedCount(m, own, free, m', own', {}, s);
  }
}
