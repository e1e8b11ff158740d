/** Paths and the directory tree of kernel/fs/vfs.c over kernel/fs/ramfs.c, on values. */
module VfsSpec {
  import opened Common

  const RAMFS_MAX_NODES: nat := 2048
  const RAMFS_MAX_CHILDREN: nat := 128

  datatype Kind = Regular | Directory

  /** Children are node numbers; node 0 is the root. */
  datatype Node = Node(name: string, kind: Kind, children: seq<nat>)

  // ---- Paths ----

  /** The length of the part before the first '/'. */
  function Run(s: string): (n: nat)
    ensures n <= |s| && '/' !in s[..n] && (n < |s| ==> s[n] == '/')
  {
    if s == "" || s[0] == '/' then 0 else
    var n := 1 + Run(s[1..]);
    assert s[..n] == [s[0]] + s[1..][..n - 1];
    n
  }

  /** What follows the first component and the '/' after it. */
  function Rest(s: string): (r: string)
    ensures s != "" ==> |r| < |s|
  {
    var n := Run(s);
    if n < |s| then s[n + 1..] else ""
  }

  /** The nonempty components of a path. */
  function Components(s: string): seq<string>
    decreases |s|
  {
    if s == "" then [] else
    (if Run(s) == 0 then [] else [s[..Run(s)]]) + Components(Rest(s))
  }

  lemma LeadingSlash(s: string)
    requires s != "" && s[0] == '/'
    ensures Components(s) == Components(s[1..])
  {}

  lemma SingleComponent(s: string)
    requires s != "" && '/' !in s
    ensures Components(s) == [s] && Run(s) == |s|
  {
    assert s[..|s|] == s;
  }

  /** Components never cross a '/'. */
  lemma {:induction false} SlashSplits(a: string, b: string)
    ensures Components(a + ("/" + b)) == Components(a) + Components(b)
    decreases |a|
  {
    hide Run, Rest, Components;
    var c := "/" + b;
    assert c[1..] == b;
    NoRest("");
    if a == "" {
      assert a + c == c;
      LeadingSlash(c);
    } else {
      RestPrefix(a, c);
      FirstThenRest(a);
      FirstThenRest(a + c);
      assert (a + c)[..Run(a)] == a[..Run(a)];
      if Run(a) < |a| {
        SlashSplits(Rest(a), b);
      } else {
        NoRest(a);
      }
    }
  }

  lemma FirstThenRest(s: string)
    requires s != ""
    ensures Components(s) == (if Run(s) == 0 then [] else [s[..Run(s)]]) + Components(Rest(s))
  {}

  /** The part after the last '/' is the last component. */
  lemma LastComponent(a: string, name: string)
    requires '/' !in name && name != ""
    ensures Components(a + ("/" + name)) == Components(a) + [name]
  {
    SlashSplits(a, name);
    SingleComponent(name);
  }

  lemma NoRest(a: string)
    requires Run(a) == |a|
    ensures Rest(a) == "" && Components("") == []
  {}

  lemma RestPrefix(a: string, b: string)
    requires a != "" && b != "" && b[0] == '/'
    ensures Run(a + b) == Run(a) && a + b != ""
    ensures Rest(a + b) == if Run(a) < |a| then Rest(a) + b else b[1..]
  {
    hide Run;
    RunPrefix(a, b);
    var n := Run(a);
    if n < |a| {
      assert (a + b)[n + 1..] == a[n + 1..] + b;
    } else {
      assert (a + b)[n + 1..] == b[1..];
    }
  }

  lemma {:induction false} RunPrefix(a: string, b: string)
    requires b != "" && b[0] == '/'
    ensures Run(a + b) == Run(a)
  {
    if a == "" {
      assert a + b == b;
    } else if a[0] != '/' {
      assert (a + b)[1..] == a[1..] + b;
      RunPrefix(a[1..], b);
    }
  }

  // ---- The tree ----

  /** Children exist and were made after their directory, and no node is a child twice. */
  ghost predicate TreeOk(nodes: seq<Node>) {
    && |nodes| > 0
    && (forall d, i | 0 <= d < |nodes| && 0 <= i < |nodes[d].children| :: d < nodes[d].children[i] < |nodes|)
    && (forall d, i, e, j | 0 <= d < |nodes| && 0 <= i < |nodes[d].children| && 0 <= e < |nodes|
       && 0 <= j < |nodes[e].children|
          && nodes[d].children[i] == nodes[e].children[j] :: d == e && i == j)
  }

  /** The first position at which x occurs, or the length. */
  function First(names: seq<string>, x: string): (k: nat)
    ensures k <= |names| && (forall j | 0 <= j < k :: names[j] != x) && (k < |names| ==> names[k] == x)
  {
    if names == [] || names[0] == x then 0 else 1 + First(names[1..], x)
  }

  lemma FirstIs(names: seq<string>, x: string, k: nat)
    requires k <= |names| && (forall j | 0 <= j < k :: names[j] != x) && (k < |names| ==> names[k] == x)
    ensures First(names, x) == k
  {}

  /** The names in directory d, in order. */
  function Names(nodes: seq<Node>, d: nat): (names: seq<string>)
    requires TreeOk(nodes) && d < |nodes|
    ensures |names| == |nodes[d].children|
  {
    seq(|nodes[d].children|, i requires 0 <= i < |nodes[d].children| => nodes[nodes[d].children[i]].name)
  }

  /** `ramfs_lookup`. */
  function Child(nodes: seq<Node>, d: nat, name: string): (c: Option<nat>)
    requires TreeOk(nodes) && d < |nodes|
    ensures c.Some? ==> 0 < c.value < |nodes|
  {
    var k := First(Names(nodes, d), name);
    if k < |nodes[d].children| then Some(nodes[d].children[k]) else None
  }

  /** The node at the end of a sequence of components. */
  function Resolve(nodes: seq<Node>, comps: seq<string>): (r: Option<nat>)
    requires TreeOk(nodes)
    ensures r.Some? ==> r.value < |nodes|
  {
    if comps == [] then Some(0) else
    match Resolve(nodes, comps[..|comps| - 1])
    case None => None
    case Some(d) => Child(nodes, d, comps[|comps| - 1])
  }

  /** A resolved child has the name and the parent it was found under. */
  lemma ChildIs(nodes: seq<Node>, d: nat, name: string)
    requires TreeOk(nodes) && d < |nodes| && Child(nodes, d, name).Some?
    ensures var c := Child(nodes, d, name).value;
            c < |nodes| && nodes[c].name == name && c in nodes[d].children && c > 0
  {}

  /** A node has at most one path. */
  lemma {:induction false} OnePath(nodes: seq<Node>, a: seq<string>, b: seq<string>)
    requires TreeOk(nodes) && Resolve(nodes, a).Some? && Resolve(nodes, a) == Resolve(nodes, b)
    ensures a == b
    decreases |a|
  {
    hide Child;
    if a != [] && b != [] {
      var a', b' := a[..|a| - 1], b[..|b| - 1];
      var d, e := Resolve(nodes, a').value, Resolve(nodes, b').value;
      ChildIs(nodes, d, a[|a| - 1]);
      ChildIs(nodes, e, b[|b| - 1]);
      OneParent(nodes, Resolve(nodes, a).value, d, e);
      OnePath(nodes, a', b');
      assert a == a' + [a[|a| - 1]] && b == b' + [b[|b| - 1]];
    }
  }

  lemma OneParent(nodes: seq<Node>, c: nat, d: nat, e: nat)
    requires TreeOk(nodes) && d < |nodes| && e < |nodes| && c in nodes[d].children && c in nodes[e].children
    ensures d == e
  {}

  /** Nothing lies below what does not resolve. */
  lemma {:induction false} NothingBelow(nodes: seq<Node>, a: seq<string>, q: seq<string>)
    requires TreeOk(nodes) && a <= q && Resolve(nodes, a).None?
    ensures Resolve(nodes, q).None?
    decreases |q|
  {
    if |a| < |q| {
      assert a <= q[..|q| - 1];
      NothingBelow(nodes, a, q[..|q| - 1]);
    } else {
      assert a == q;
    }
  }

  // ---- Creating ----

  /** A new node, in directory d. */
  function Added(nodes: seq<Node>, d: nat, name: string, kind: Kind): seq<Node>
    requires d < |nodes|
  {
    nodes[d := nodes[d].(children := nodes[d].children + [|nodes|])] + [Node(name, kind, [])]
  }

  lemma AddedOk(nodes: seq<Node>, d: nat, name: string, kind: Kind)
    requires TreeOk(nodes) && d < |nodes|
    ensures TreeOk(Added(nodes, d, name, kind))
  {
    var nodes' := Added(nodes, d, name, kind);
    forall e, i | 0 <= e < |nodes'| && 0 <= i < |nodes'[e].children|
      ensures e < nodes'[e].children[i] < |nodes'|
      ensures nodes'[e].children[i] == |nodes| ==> e == d && i == |nodes[d].children|
      ensures nodes'[e].children[i] != |nodes| ==>
                && e < |nodes| && i < |nodes[e].children|
                && nodes'[e].children[i] == nodes[e].children[i]
    {}
  }

  lemma AddedNames(nodes: seq<Node>, d: nat, name: string, kind: Kind, e: nat)
    requires TreeOk(nodes) && d < |nodes| && e <= |nodes| && TreeOk(Added(nodes, d, name, kind))
    ensures var names := Names(Added(nodes, d, name, kind), e);
            if e == |nodes| then names == []
            else if e == d then names == Names(nodes, d) + [name]
            else names == Names(nodes, e)
  {
    var nodes' := Added(nodes, d, name, kind);
    if e < |nodes| {
      assert forall j | 0 <= j < |nodes[e].children| ::
               && nodes'[e].children[j] == nodes[e].children[j]
               && nodes'[nodes[e].children[j]].name == nodes[nodes[e].children[j]].name;
    }
  }

  /** Looking up in the new tree. */
  lemma AddedChild(nodes: seq<Node>, d: nat, name: string, kind: Kind, e: nat, x: string)
    requires TreeOk(nodes) && d < |nodes| && e <= |nodes| && TreeOk(Added(nodes, d, name, kind))
    ensures e == |nodes| ==> Child(Added(nodes, d, name, kind), e, x).None?
    ensures e < |nodes| && (Child(nodes, e, x).Some? || e != d || x != name) ==>
              Child(Added(nodes, d, name, kind), e, x) == Child(nodes, e, x)
    ensures e == d && x == name && Child(nodes, e, x).None? ==>
              Child(Added(nodes, d, name, kind), e, x) == Some(|nodes|)
  {
    hide First, Names;
    AddedNames(nodes, d, name, kind, e);
    if e == d {
      var names := Names(nodes, d);
      var k := First(names, x);
      FirstIs(names + [name], x, if k < |names| || x == name then k else k + 1);
    }
  }

  /**
   * After creating an entry: its path leads to the new node if it led nowhere before, and every other path leads where
   * it led. A second entry of a name changes where no path leads.
   */
  lemma {:induction false} CreateResolves(nodes: seq<Node>, parent: seq<string>, d: nat, name: string, kind: Kind,
                                          q: seq<string>)
    requires TreeOk(nodes) && Resolve(nodes, parent) == Some(d)
    ensures TreeOk(Added(nodes, d, name, kind))
    ensures Resolve(Added(nodes, d, name, kind), q) ==
            if q == parent + [name] && Resolve(nodes, q).None? then Some(|nodes|) else Resolve(nodes, q)
    decreases |q|
  {
    hide Child;
    AddedOk(nodes, d, name, kind);
    var nodes' := Added(nodes, d, name, kind);
    assert (parent + [name])[..|parent|] == parent;
    if q != [] {
      var p, x := q[..|q| - 1], q[|q| - 1];
      assert q == p + [x];
      CreateResolves(nodes, parent, d, name, kind, p);
      if p == parent + [name] && Resolve(nodes, p).None? {
        NothingBelow(nodes, p, q);
        AddedChild(nodes, d, name, kind, |nodes|, x);
      } else if Resolve(nodes, p).Some? {
        var e := Resolve(nodes, p).value;
        AddedChild(nodes, d, name, kind, e, x);
        if e == d {
          OnePath(nodes, p, parent);
        }
      }
    }
  }

  // ---- Removing ----

  /** The k-th element removed by moving the last into its place. */
  function Filled<T>(s: seq<T>, k: nat): seq<T>
    requires k < |s|
  {
    s[k := s[|s| - 1]][..|s| - 1]
  }

  function Removed(nodes: seq<Node>, d: nat, k: nat): seq<Node>
    requires d < |nodes| && k < |nodes[d].children|
  {
    nodes[d := nodes[d].(children := Filled(nodes[d].children, k))]
  }

  lemma RemovedOk(nodes: seq<Node>, d: nat, k: nat)
    requires TreeOk(nodes) && d < |nodes| && k < |nodes[d].children|
    ensures TreeOk(Removed(nodes, d, k))
  {
    var nodes' := Removed(nodes, d, k);
    var n := |nodes[d].children|;
    forall e, i | 0 <= e < |nodes'| && 0 <= i < |nodes'[e].children|
      ensures nodes'[e].children[i] == nodes[e].children[if e == d && i == k then n - 1 else i]
    {}
    forall e, i, f, j | 0 <= e < |nodes'| && 0 <= i < |nodes'[e].children| && 0 <= f < |nodes'|
        && 0 <= j < |nodes'[f].children|
      && nodes'[e].children[i] == nodes'[f].children[j]
      ensures e == f && i == j
    {
      var i', j' := if e == d && i == k then n - 1 else i, if f == d && j == k then n - 1 else j;
      assert nodes[e].children[i'] == nodes[f].children[j'];
    }
  }

  ghost predicate DistinctNames(names: seq<string>) {
    forall i, j | 0 <= i < j < |names| :: names[i] != names[j]
  }

  lemma RemovedNames(nodes: seq<Node>, d: nat, k: nat, e: nat)
    requires TreeOk(nodes) && d < |nodes| && k < |nodes[d].children| && e < |nodes| && TreeOk(Removed(nodes, d, k))
    ensures Names(Removed(nodes, d, k), e) == if e == d then Filled(Names(nodes, d), k) else Names(nodes, e)
  {
    hide TreeOk;
    var nodes' := Removed(nodes, d, k);
    var names', n := Names(nodes', e), |nodes[e].children|;
    if e == d {
      var names := Names(nodes, d);
      forall i | 0 <= i < n - 1
        ensures names'[i] == Filled(names, k)[i]
      {
        var j := if i == k then n - 1 else i;
        assert nodes'[d].children[i] == nodes[d].children[j];
        SameName(nodes, d, k, d, j);
        assert names'[i] == names[j];
      }
    } else {
      forall i | 0 <= i < n
        ensures names'[i] == Names(nodes, e)[i]
      {
        SameName(nodes, d, k, e, i);
      }
    }
  }

  /** The i-th child of e keeps its name. */
  lemma SameName(nodes: seq<Node>, d: nat, k: nat, e: nat, i: nat)
    requires TreeOk(nodes) && d < |nodes| && k < |nodes[d].children| && e < |nodes| && i < |nodes[e].children|
    ensures var c := nodes[e].children[i]; c < |nodes| && Removed(nodes, d, k)[c].name == nodes[c].name
  {}

  lemma FilledIs<T>(s: seq<T>, k: nat)
    requires k < |s|
    ensures |Filled(s, k)| == |s| - 1
    ensures forall i | 0 <= i < |s| - 1 :: Filled(s, k)[i] == if i == k then s[|s| - 1] else s[i]
  {}

  lemma OtherChild(nodes: seq<Node>, d: nat, i: nat)
    requires TreeOk(nodes) && d < |nodes| && i < |nodes[d].children| - 1
    ensures nodes[d].children[i] != nodes[d].children[|nodes[d].children| - 1]
  {}

  /** The last entry, moved to position k, comes to stand before the first of its name. */
  ghost predicate Overtakes(names: seq<string>, k: nat, x: string)
    requires names != []
  {
    x == names[|names| - 1] && k < First(names, x) < |names| - 1
  }

  /**
   * After removing the first entry with a name, that name is found again exactly if another entry has it. Any other
   * name leads elsewhere exactly if the last entry has it, and the first of that name stands between the two.
   */
  lemma RemovedChild(nodes: seq<Node>, d: nat, name: string, e: nat, x: string)
    requires TreeOk(nodes) && d < |nodes| && e < |nodes|
    requires var k := First(Names(nodes, d), name); k < |nodes[d].children| && TreeOk(Removed(nodes, d, k))
    ensures var k, n := First(Names(nodes, d), name), |nodes[d].children|;
            && (e != d ==> Child(Removed(nodes, d, k), e, x) == Child(nodes, e, x))
            && (Child(Removed(nodes, d, k), d, name).Some? <==> name in Names(nodes, d)[k + 1..])
            && (x != name && !Overtakes(Names(nodes, d), k, x) ==>
                  Child(Removed(nodes, d, k), d, x) == Child(nodes, d, x))
            && (x != name && Overtakes(Names(nodes, d), k, x) ==>
                  && Child(Removed(nodes, d, k), d, x) == Some(nodes[d].children[n - 1])
                  && Child(Removed(nodes, d, k), d, x) != Child(nodes, d, x))
  {
    hide First, Names, TreeOk, Filled, Child;
    if e != d {
      RemovedAway(nodes, d, First(Names(nodes, d), name), e, x);
    }
    RemovedName(nodes, d, name);
    if x != name {
      RemovedOther(nodes, d, name, x);
    }
  }

  lemma RemovedAway(nodes: seq<Node>, d: nat, k: nat, e: nat, x: string)
    requires TreeOk(nodes) && d < |nodes| && k < |nodes[d].children| && TreeOk(Removed(nodes, d, k))
    requires e < |nodes| && e != d
    ensures Child(Removed(nodes, d, k), e, x) == Child(nodes, e, x)
  {
    hide First, Names, TreeOk, Filled;
    RemovedNames(nodes, d, k, e);
  }

  lemma RemovedName(nodes: seq<Node>, d: nat, name: string)
    requires TreeOk(nodes) && d < |nodes|
    requires var k := First(Names(nodes, d), name); k < |nodes[d].children| && TreeOk(Removed(nodes, d, k))
    ensures var k := First(Names(nodes, d), name);
            Child(Removed(nodes, d, k), d, name).Some? <==> name in Names(nodes, d)[k + 1..]
  {
    hide First, Names, TreeOk, Filled;
    var k := First(Names(nodes, d), name);
    RemovedNames(nodes, d, k, d);
    FoundAgain(Names(nodes, d), k, name);
    FilledIs(nodes[d].children, k);
  }

  lemma RemovedOther(nodes: seq<Node>, d: nat, name: string, x: string)
    requires TreeOk(nodes) && d < |nodes| && x != name
    requires var k := First(Names(nodes, d), name); k < |nodes[d].children| && TreeOk(Removed(nodes, d, k))
    ensures var k, n := First(Names(nodes, d), name), |nodes[d].children|;
            if Overtakes(Names(nodes, d), k, x) then
              && Child(Removed(nodes, d, k), d, x) == Some(nodes[d].children[n - 1])
              && Child(Removed(nodes, d, k), d, x) != Child(nodes, d, x)
            else Child(Removed(nodes, d, k), d, x) == Child(nodes, d, x)
  {
    hide First, Names, TreeOk, Filled;
    var names, k, s := Names(nodes, d), First(Names(nodes, d), name), nodes[d].children;
    RemovedNames(nodes, d, k, d);
    FilledIs(s, k);
    FoundElsewhere(names, k, x);
    if Overtakes(names, k, x) {
      OtherChild(nodes, d, First(names, x));
    }
  }

  lemma FoundAgain(names: seq<string>, k: nat, name: string)
    requires k < |names| && k == First(names, name)
    ensures First(Filled(names, k), name) < |names| - 1 <==> name in names[k + 1..]
  {
    hide First;
    var rest := Filled(names, k);
    if name in names[k + 1..] {
      var i :| k + 1 <= i < |names| && names[i] == name;
      assert rest[if i == |names| - 1 then k else i] == name;
    }
    if First(rest, name) < |rest| {
      var i := First(rest, name);
      assert rest[i] == name;
      assert names[if i == k then |names| - 1 else i] == name;
    }
  }

  lemma FoundElsewhere(names: seq<string>, k: nat, x: string)
    requires k < |names| && names[k] != x
    ensures var i, i' := First(names, x), First(Filled(names, k), x);
            && (i < |names| <==> i' < |names| - 1)
            && (i < |names| ==> if Overtakes(names, k, x) then i' == k else i == if i' == k then |names| - 1 else i')
  {
    hide First;
    var rest := Filled(names, k);
    var i, i' := First(names, x), First(rest, x);
    if i < |names| {
      assert rest[if i == |names| - 1 then k else i] == x;
    }
    if Overtakes(names, k, x) {
      assert rest[k] == x;
    }
    if i' < |rest| {
      assert names[if i' == k then |names| - 1 else i'] == x;
    }
  }

  /** Removing entry k makes its name go away, and no other name lead elsewhere. */
  ghost predicate Clean(names: seq<string>, k: nat)
    requires k < |names|
  {
    names[k] !in names[k + 1..] && !Overtakes(names, k, names[|names| - 1])
  }

  lemma DistinctClean(names: seq<string>, k: nat)
    requires k < |names| && DistinctNames(names)
    ensures Clean(names, k)
  {
    FirstIs(names, names[|names| - 1], |names| - 1);
  }

  lemma PrefixStep(parent: seq<string>, name: string, p: seq<string>, x: string)
    ensures parent + [name] <= p + [x] <==> parent + [name] <= p || (p == parent && x == name)
  {
    if |p| > |parent| {
      assert (p + [x])[..|parent| + 1] == p[..|parent| + 1];
    } else if parent + [name] <= p + [x] {
      assert parent + [name] == p + [x];
      assert parent == (parent + [name])[..|parent|] && p == (p + [x])[..|parent|];
      assert name == (parent + [name])[|parent|] && x == (p + [x])[|parent|];
    }
  }

  lemma PassStep(parent: seq<string>, p: seq<string>, x: string)
    ensures parent < p + [x] <==> parent < p || parent == p
    ensures parent < p ==> (p + [x])[|parent|] == p[|parent|]
  {
    if |parent| <= |p| {
      assert (p + [x])[..|parent|] == p[..|parent|];
    }
  }

  /**
   * After unlinking a path: what does not pass through the directory resolves as before, and so does what passes
   * through it by a name that leads where it led; without another entry of the name, nothing is left at the path.
   */
  lemma {:induction false} UnlinkResolves(nodes: seq<Node>, parent: seq<string>, d: nat, name: string, q: seq<string>)
    requires TreeOk(nodes) && Resolve(nodes, parent) == Some(d) && First(Names(nodes, d), name) < |nodes[d].children|
    ensures var names, k := Names(nodes, d), First(Names(nodes, d), name);
            var nodes' := Removed(nodes, d, k);
            && TreeOk(nodes')
            && (!(parent < q) || (q[|parent|] != name && !Overtakes(names, k, q[|parent|])) ==>
                  Resolve(nodes', q) == Resolve(nodes, q))
            && (parent + [name] <= q && name !in names[k + 1..] ==> Resolve(nodes', q).None?)
    decreases |q|
  {
    hide Child, First, Names, Removed, Overtakes;
    var k := First(Names(nodes, d), name);
    RemovedOk(nodes, d, k);
    if q != [] {
      var p, x := q[..|q| - 1], q[|q| - 1];
      assert q == p + [x];
      UnlinkResolves(nodes, parent, d, name, p);
      PrefixStep(parent, name, p, x);
      PassStep(parent, p, x);
      if Resolve(nodes, p).Some? {
        var e := Resolve(nodes, p).value;
        RemovedChild(nodes, d, name, e, x);
        if e == d {
          OnePath(nodes, p, parent);
        }
      }
    }
  }

  /** A path and what lies below it no longer resolve, and every other path leads where it led. */
  ghost predicate OnlyGone(nodes: seq<Node>, nodes': seq<Node>, c: seq<string>)
    requires TreeOk(nodes) && TreeOk(nodes')
  {
    forall q {:trigger Resolve(nodes', q)} :: Resolve(nodes', q) == if c <= q then None else Resolve(nodes, q)
  }

  /**
   * Exactly the path and what lies below it cease to resolve, and every other path leads where it led, if and only if
   * no other entry has the name and the last entry overtakes none.
   */
  lemma UnlinkExact(nodes: seq<Node>, parent: seq<string>, d: nat, name: string)
    requires TreeOk(nodes) && Resolve(nodes, parent) == Some(d) && First(Names(nodes, d), name) < |nodes[d].children|
    ensures var k := First(Names(nodes, d), name);
            var nodes' := Removed(nodes, d, k);
            && TreeOk(nodes')
            && (Clean(Names(nodes, d), k) <==> OnlyGone(nodes, nodes', parent + [name]))
  {
    hide Child, First, Names, Removed, Resolve, OnlyGone, Clean;
    var names, k := Names(nodes, d), First(Names(nodes, d), name);
    RemovedOk(nodes, d, k);
    if Clean(names, k) {
      CleanGone(nodes, parent, d, name);
    } else {
      NotOnlyGone(nodes, parent, d, name);
    }
  }

  lemma CleanGone(nodes: seq<Node>, parent: seq<string>, d: nat, name: string)
    requires TreeOk(nodes) && Resolve(nodes, parent) == Some(d)
    requires var k := First(Names(nodes, d), name);
             k < |nodes[d].children| && TreeOk(Removed(nodes, d, k)) && Clean(Names(nodes, d), k)
    ensures OnlyGone(nodes, Removed(nodes, d, First(Names(nodes, d), name)), parent + [name])
  {
    hide Child, First, Names, Removed, Resolve, TreeOk;
    var nodes', c := Removed(nodes, d, First(Names(nodes, d), name)), parent + [name];
    forall q
      ensures Resolve(nodes', q) == if c <= q then None else Resolve(nodes, q)
    {
      UnlinkResolves(nodes, parent, d, name, q);
      if parent < q {
        assert q[..|parent| + 1] == parent + [q[|parent|]];
      }
    }
  }

  lemma NotOnlyGone(nodes: seq<Node>, parent: seq<string>, d: nat, name: string)
    requires TreeOk(nodes) && Resolve(nodes, parent) == Some(d)
    requires var k := First(Names(nodes, d), name);
             k < |nodes[d].children| && TreeOk(Removed(nodes, d, k)) && !Clean(Names(nodes, d), k)
    ensures !OnlyGone(nodes, Removed(nodes, d, First(Names(nodes, d), name)), parent + [name])
  {
    hide Child, First, Names, Removed, Resolve, TreeOk;
    var names, k := Names(nodes, d), First(Names(nodes, d), name);
    var nodes', c, x := Removed(nodes, d, k), parent + [name], names[|names| - 1];
    UnlinkResolves(nodes, parent, d, name, parent);
    RemovedChild(nodes, d, name, d, x);
    ResolveNext(nodes', parent, name);
    ResolveNext(nodes', parent, x);
    ResolveNext(nodes, parent, x);
    if names[k] in names[k + 1..] {
      assert c <= c && Resolve(nodes', c).Some?;
    } else {
      assert c[|parent|] == name && (parent + [x])[|parent|] != name;
      assert Resolve(nodes', parent + [x]) != Resolve(nodes, parent + [x]);
    }
  }

  lemma ResolveNext(nodes: seq<Node>, parent: seq<string>, x: string)
    requires TreeOk(nodes) && Resolve(nodes, parent).Some?
    ensures Resolve(nodes, parent + [x]) == Child(nodes, Resolve(nodes, parent).value, x)
  {
    assert (parent + [x])[..|parent|] == parent;
  }
}
