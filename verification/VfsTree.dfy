/** The file tree as an inductive value, and the nodes of kernel/fs/ramfs.c as one of them. */
module VfsTree {
  import opened Common
  import opened VfsSpec

  /** The entries of a directory are in order, and the first of a name is the one that counts. */
  datatype Tree = Tree(kind: Kind, entries: seq<Entry>)

  datatype Entry = Entry(name: string, tree: Tree)

  function Labels(entries: seq<Entry>): (names: seq<string>)
    ensures |names| == |entries|
  {
    seq(|entries|, i requires 0 <= i < |entries| => entries[i].name)
  }

  /** The tree at the end of a sequence of components. */
  function At(t: Tree, q: seq<string>): Option<Tree> {
    if q == [] then Some(t) else
    var k := First(Labels(t.entries), q[0]);
    if k < |t.entries| then At(t.entries[k].tree, q[1..]) else None
  }

  /** With another tree there. */
  function Put(t: Tree, q: seq<string>, u: Tree): Tree
    requires At(t, q).Some?
  {
    if q == [] then u else
    var k := First(Labels(t.entries), q[0]);
    t.(entries := t.entries[k := Entry(q[0], Put(t.entries[k].tree, q[1..], u))])
  }

  lemma {:induction false} AtJoin(t: Tree, q: seq<string>, r: seq<string>)
    ensures At(t, q + r) == if At(t, q).Some? then At(At(t, q).value, r) else None
    decreases |q|
  {
    if q == [] {
      assert q + r == r;
    } else {
      assert (q + r)[0] == q[0] && (q + r)[1..] == q[1..] + r;
      var k := First(Labels(t.entries), q[0]);
      if k < |t.entries| {
        AtJoin(t.entries[k].tree, q[1..], r);
      }
    }
  }

  lemma PutLabels(t: Tree, q: seq<string>, u: Tree)
    requires At(t, q).Some? && q != []
    ensures Labels(Put(t, q, u).entries) == Labels(t.entries)
  {}

  /** What was put there is found there. */
  lemma {:induction false} PutThere(t: Tree, q: seq<string>, u: Tree, r: seq<string>)
    requires At(t, q).Some?
    ensures At(Put(t, q, u), q + r) == At(u, r)
    decreases |q|
  {
    if q == [] {
      assert q + r == r;
    } else {
      assert (q + r)[0] == q[0] && (q + r)[1..] == q[1..] + r;
      PutLabels(t, q, u);
      PutThere(t.entries[First(Labels(t.entries), q[0])].tree, q[1..], u, r);
    }
  }

  /** And everything else where it was. */
  lemma {:induction false} PutElsewhere(t: Tree, q: seq<string>, u: Tree, r: seq<string>)
    requires At(t, q).Some? && !(q <= r) && !(r <= q)
    ensures At(Put(t, q, u), r) == At(t, r)
    decreases |q|
  {
    PutLabels(t, q, u);
    var k := First(Labels(t.entries), q[0]);
    if r[0] == q[0] {
      TailPrefix(q, r);
      TailPrefix(r, q);
      PutElsewhere(t.entries[k].tree, q[1..], u, r[1..]);
    } else {
      assert First(Labels(t.entries), r[0]) != k;
    }
  }

  lemma TailPrefix(q: seq<string>, r: seq<string>)
    requires q != [] && r != [] && q[0] == r[0]
    ensures q <= r <==> q[1..] <= r[1..]
  {
    assert q == [q[0]] + q[1..] && r == [r[0]] + r[1..];
    if q <= r {
      assert q[1..] == r[..|q|][1..];
    }
    if q[1..] <= r[1..] {
      assert r[..|q|] == [r[0]] + r[1..][..|q| - 1];
    }
  }

  // ---- Distinct names ----

  /** Nowhere in the tree do two entries of a directory have one name. */
  ghost predicate Distinct(t: Tree) {
    DistinctNames(Labels(t.entries)) && forall i | 0 <= i < |t.entries| :: Distinct(t.entries[i].tree)
  }

  lemma {:induction false} DistinctAt(t: Tree, q: seq<string>)
    requires Distinct(t) && At(t, q).Some?
    ensures Distinct(At(t, q).value)
    decreases |q|
  {
    if q != [] {
      DistinctAt(t.entries[First(Labels(t.entries), q[0])].tree, q[1..]);
    }
  }

  lemma {:induction false} DistinctPut(t: Tree, q: seq<string>, u: Tree)
    requires Distinct(t) && At(t, q).Some?
    ensures Distinct(Put(t, q, u)) <==> Distinct(u)
    decreases |q|
  {
    if q != [] {
      var k := First(Labels(t.entries), q[0]);
      DistinctPut(t.entries[k].tree, q[1..], u);
      PutLabels(t, q, u);
      var t' := Put(t, q, u);
      assert t'.entries[k].tree == Put(t.entries[k].tree, q[1..], u);
      assert forall i | 0 <= i < |t.entries| && i != k :: t'.entries[i] == t.entries[i];
    }
  }

  // ---- The nodes as a tree ----

  /** The tree below node d. */
  ghost function Abs(nodes: seq<Node>, d: nat): Tree
    requires TreeOk(nodes) && d < |nodes|
    decreases |nodes| - d
  {
    Tree(nodes[d].kind,
         seq(|nodes[d].children|, i requires 0 <= i < |nodes[d].children| =>
           Entry(nodes[nodes[d].children[i]].name, Abs(nodes, nodes[d].children[i]))))
  }

  lemma AbsIs(nodes: seq<Node>, d: nat)
    requires TreeOk(nodes) && d < |nodes|
    ensures var t := Abs(nodes, d);
            && t.kind == nodes[d].kind && |t.entries| == |nodes[d].children| && Labels(t.entries) == Names(nodes, d)
            && forall i | 0 <= i < |t.entries| ::
                 && nodes[d].children[i] < |nodes|
                 && t.entries[i] == Entry(Names(nodes, d)[i], Abs(nodes, nodes[d].children[i]))
  {}

  /** The tree at a path is the one below the node the path leads to. */
  lemma {:induction false} ResolveAbs(nodes: seq<Node>, q: seq<string>)
    requires TreeOk(nodes)
    ensures At(Abs(nodes, 0), q) ==
            if Resolve(nodes, q).Some? then Some(Abs(nodes, Resolve(nodes, q).value)) else None
    decreases |q|
  {
    assert |nodes| > 0;
    hide TreeOk, Abs;
    if q != [] {
      var p, x := q[..|q| - 1], q[|q| - 1];
      assert q == p + [x];
      ResolveAbs(nodes, p);
      AtJoin(Abs(nodes, 0), p, [x]);
      if Resolve(nodes, p).Some? {
        AbsIs(nodes, Resolve(nodes, p).value);
      }
    }
  }

  /** Node d is e, or lies below it. */
  ghost predicate Reach(nodes: seq<Node>, e: nat, d: nat)
    requires TreeOk(nodes) && e < |nodes|
    decreases |nodes| - e
  {
    e == d || exists i | 0 <= i < |nodes[e].children| :: Reach(nodes, nodes[e].children[i], d)
  }

  lemma {:induction false} ReachUp(nodes: seq<Node>, e: nat, d: nat)
    requires TreeOk(nodes) && e < |nodes| && Reach(nodes, e, d)
    ensures e <= d < |nodes|
    decreases |nodes| - e
  {
    if e != d {
      var i :| 0 <= i < |nodes[e].children| && Reach(nodes, nodes[e].children[i], d);
      ReachUp(nodes, nodes[e].children[i], d);
    }
  }

  /** What lies below a node and is not the node itself has a directory there. */
  lemma {:induction false} ReachParent(nodes: seq<Node>, e: nat, d: nat) returns (p: nat)
    requires TreeOk(nodes) && e < |nodes| && Reach(nodes, e, d) && e != d
    ensures p < |nodes| && p < d && d in nodes[p].children && Reach(nodes, e, p)
    decreases |nodes| - e
  {
    var i :| 0 <= i < |nodes[e].children| && Reach(nodes, nodes[e].children[i], d);
    var c := nodes[e].children[i];
    if c == d {
      p := e;
    } else {
      p := ReachParent(nodes, c, d);
    }
  }

  /** Of two nodes above a third, one is above the other. */
  lemma {:induction false} ReachChain(nodes: seq<Node>, a: nat, b: nat, d: nat)
    requires TreeOk(nodes) && a < |nodes| && b < |nodes| && Reach(nodes, a, d) && Reach(nodes, b, d)
    ensures Reach(nodes, a, b) || Reach(nodes, b, a)
    decreases d
  {
    hide Reach, TreeOk;
    if a != d && b != d {
      var p := ReachParent(nodes, a, d);
      var r := ReachParent(nodes, b, d);
      OneParent(nodes, d, p, r);
      ReachChain(nodes, a, b, p);
    }
  }

  /** No node lies below two entries of a directory. */
  lemma OneBranch(nodes: seq<Node>, e: nat, i: nat, j: nat, d: nat)
    requires TreeOk(nodes) && e < |nodes| && i < |nodes[e].children| && j < |nodes[e].children| && i != j
    requires Reach(nodes, nodes[e].children[i], d)
    ensures !Reach(nodes, nodes[e].children[j], d)
  {
    var a, b := nodes[e].children[i], nodes[e].children[j];
    if Reach(nodes, b, d) {
      ReachChain(nodes, a, b, d);
      if Reach(nodes, a, b) {
        NotBelow(nodes, e, a, b);
      } else {
        NotBelow(nodes, e, b, a);
      }
    }
  }

  lemma NotBelow(nodes: seq<Node>, e: nat, a: nat, b: nat)
    requires TreeOk(nodes) && e < |nodes| && a in nodes[e].children && b in nodes[e].children && a != b
    ensures !Reach(nodes, a, b)
  {
    if Reach(nodes, a, b) {
      var p := ReachParent(nodes, a, b);
      OneParent(nodes, b, p, e);
      ReachUp(nodes, a, e);
    }
  }

  /** Only the children of node d may differ, and there may be more nodes. */
  ghost predicate OnlyAt(nodes: seq<Node>, nodes': seq<Node>, d: nat) {
    && d < |nodes| <= |nodes'|
    && (forall e | 0 <= e < |nodes| && e != d :: nodes'[e] == nodes[e])
    && nodes'[d].name == nodes[d].name
  }

  /** Where node d does not lie, the tree is the same. */
  lemma {:induction false} AbsSame(nodes: seq<Node>, nodes': seq<Node>, d: nat, e: nat)
    requires TreeOk(nodes) && TreeOk(nodes') && OnlyAt(nodes, nodes', d) && e < |nodes| && !Reach(nodes, e, d)
    ensures Abs(nodes', e) == Abs(nodes, e)
    decreases |nodes| - e
  {
    var s := nodes[e].children;
    forall i | 0 <= i < |s|
      ensures Abs(nodes', s[i]) == Abs(nodes, s[i]) && nodes'[s[i]].name == nodes[s[i]].name
    {
      AbsSame(nodes, nodes', d, s[i]);
    }
  }

  /** Above node d, one branch differs. */
  lemma AbsStep(nodes: seq<Node>, nodes': seq<Node>, d: nat, e: nat, k: nat)
    requires TreeOk(nodes) && TreeOk(nodes') && OnlyAt(nodes, nodes', d) && e < |nodes| && e != d
    requires k < |nodes[e].children| && nodes[e].children[k] < |nodes| && Reach(nodes, nodes[e].children[k], d)
    ensures var t, c := Abs(nodes, e), nodes[e].children[k];
            Abs(nodes', e) == t.(entries := t.entries[k := Entry(nodes[c].name, Abs(nodes', c))])
  {
    hide Reach;
    var s := nodes[e].children;
    forall i | 0 <= i < |s|
      ensures nodes'[s[i]].name == nodes[s[i]].name && (i != k ==> Abs(nodes', s[i]) == Abs(nodes, s[i]))
    {
      if i != k {
        OneBranch(nodes, e, k, i, d);
        AbsSame(nodes, nodes', d, s[i]);
      }
    }
  }

  /** And the whole tree is what it was, with another at the path of node d. */
  lemma {:induction false} AbsPut(nodes: seq<Node>, nodes': seq<Node>, d: nat, q: seq<string>, n: nat)
    requires TreeOk(nodes) && TreeOk(nodes') && OnlyAt(nodes, nodes', d)
    requires Resolve(nodes, q) == Some(d) && n <= |q| && Resolve(nodes, q[..n]).Some?
    ensures var e := Resolve(nodes, q[..n]).value;
            && Reach(nodes, e, d) && At(Abs(nodes, e), q[n..]).Some?
            && Abs(nodes', e) == Put(Abs(nodes, e), q[n..], Abs(nodes', d))
    decreases |q| - n
  {
    hide Abs, TreeOk, OnlyAt;
    if n == |q| {
      assert q[..n] == q && q[n..] == [];
    } else {
      var e, x := Resolve(nodes, q[..n]).value, q[n];
      assert q[..n + 1][..n] == q[..n] && q[n..][0] == x && q[n..][1..] == q[n + 1..];
      if Resolve(nodes, q[..n + 1]).None? {
        NothingBelow(nodes, q[..n + 1], q);
      }
      AbsPut(nodes, nodes', d, q, n + 1);
      var k := First(Names(nodes, e), x);
      ChildUp(nodes, e, k, d);
      AbsStep(nodes, nodes', d, e, k);
      AbsIs(nodes, e);
    }
  }

  lemma ChildUp(nodes: seq<Node>, e: nat, k: nat, d: nat)
    requires TreeOk(nodes) && e < |nodes| && k < |nodes[e].children| && nodes[e].children[k] < |nodes|
    requires Reach(nodes, nodes[e].children[k], d)
    ensures Reach(nodes, e, d) && e != d && nodes[nodes[e].children[k]].name == Names(nodes, e)[k]
  {
    ReachUp(nodes, nodes[e].children[k], d);
  }

  // ---- Creating and unlinking ----

  /** The directory with one entry more. */
  function WithEntry(t: Tree, name: string, kind: Kind): Tree {
    t.(entries := t.entries + [Entry(name, Tree(kind, []))])
  }

  /** The directory without the first entry of a name: the last is moved into its place. */
  function WithoutEntry(t: Tree, name: string): Tree
    requires First(Labels(t.entries), name) < |t.entries|
  {
    t.(entries := Filled(t.entries, First(Labels(t.entries), name)))
  }

  /** A new node is a new entry, at the end. */
  lemma AddedAbs(nodes: seq<Node>, q: seq<string>, d: nat, name: string, kind: Kind)
    requires TreeOk(nodes) && Resolve(nodes, q) == Some(d)
    ensures TreeOk(Added(nodes, d, name, kind)) && At(Abs(nodes, 0), q) == Some(Abs(nodes, d))
    ensures Abs(Added(nodes, d, name, kind), 0) == Put(Abs(nodes, 0), q, WithEntry(Abs(nodes, d), name, kind))
  {
    AddedOk(nodes, d, name, kind);
    ResolveAbs(nodes, q);
    AddedHere(nodes, d, name, kind);
    AbsPut(nodes, Added(nodes, d, name, kind), d, q, 0);
    assert q[0..] == q;
  }

  lemma AddedHere(nodes: seq<Node>, d: nat, name: string, kind: Kind)
    requires TreeOk(nodes) && d < |nodes| && TreeOk(Added(nodes, d, name, kind))
    ensures OnlyAt(nodes, Added(nodes, d, name, kind), d)
    ensures Abs(Added(nodes, d, name, kind), d) == WithEntry(Abs(nodes, d), name, kind)
  {
    var nodes', s := Added(nodes, d, name, kind), nodes[d].children;
    forall i | 0 <= i < |s|
      ensures Abs(nodes', s[i]) == Abs(nodes, s[i]) && nodes'[s[i]].name == nodes[s[i]].name
    {
      BelowSame(nodes, nodes', d, i);
    }
    assert Abs(nodes', |nodes|) == Tree(kind, []);
  }

  lemma BelowSame(nodes: seq<Node>, nodes': seq<Node>, d: nat, i: nat)
    requires TreeOk(nodes) && TreeOk(nodes') && OnlyAt(nodes, nodes', d) && i < |nodes[d].children|
    ensures var c := nodes[d].children[i];
            c < |nodes| && Abs(nodes', c) == Abs(nodes, c) && nodes'[c].name == nodes[c].name
  {
    var c := nodes[d].children[i];
    if Reach(nodes, c, d) {
      ReachUp(nodes, c, d);
    }
    AbsSame(nodes, nodes', d, c);
  }

  /** Removing a child removes an entry. */
  lemma RemovedAbs(nodes: seq<Node>, q: seq<string>, d: nat, name: string)
    requires TreeOk(nodes) && Resolve(nodes, q) == Some(d) && First(Names(nodes, d), name) < |nodes[d].children|
    ensures At(Abs(nodes, 0), q) == Some(Abs(nodes, d))
    ensures First(Labels(Abs(nodes, d).entries), name) < |Abs(nodes, d).entries|
    ensures var k := First(Names(nodes, d), name);
            && TreeOk(Removed(nodes, d, k))
            && Abs(Removed(nodes, d, k), 0) == Put(Abs(nodes, 0), q, WithoutEntry(Abs(nodes, d), name))
  {
    var k := First(Names(nodes, d), name);
    RemovedOk(nodes, d, k);
    ResolveAbs(nodes, q);
    AbsIs(nodes, d);
    RemovedHere(nodes, d, k);
    AbsPut(nodes, Removed(nodes, d, k), d, q, 0);
    assert q[0..] == q;
  }

  lemma RemovedHere(nodes: seq<Node>, d: nat, k: nat)
    requires TreeOk(nodes) && d < |nodes| && k < |nodes[d].children| && TreeOk(Removed(nodes, d, k))
    ensures OnlyAt(nodes, Removed(nodes, d, k), d) && |Abs(nodes, d).entries| == |nodes[d].children|
    ensures Abs(Removed(nodes, d, k), d) == Abs(nodes, d).(entries := Filled(Abs(nodes, d).entries, k))
  {
    var nodes', s := Removed(nodes, d, k), nodes[d].children;
    assert nodes'[d].children == Filled(s, k) && nodes'[d].kind == nodes[d].kind && OnlyAt(nodes, nodes', d);
    AbsIs(nodes, d);
    AbsIs(nodes', d);
    RemovedNames(nodes, d, k, d);
    hide Abs, TreeOk, Removed, Names, OnlyAt, Filled, Labels;
    var entries, entries' := Abs(nodes, d).entries, Abs(nodes', d).entries;
    FilledIs(s, k);
    FilledIs(entries, k);
    FilledIs(Names(nodes, d), k);
    forall i | 0 <= i < |s| - 1
      ensures entries'[i] == Filled(entries, k)[i]
    {
      BelowSame(nodes, nodes', d, if i == k then |s| - 1 else i);
    }
  }
}
