/** kernel/fs/vfs.c over whole runs: the nodes are an inductive tree, and every call a step of it. */
module VfsRun {
  import opened Common
  import opened VfsSpec
  import opened VfsTree
  import opened Vfs

  /** `vfs_open` with O_CREAT, `vfs_create` and `vfs_unlink`. */
  datatype Op = Open(path: string) | Create(path: string, kind: Kind) | Remove(path: string)

  /** The tree, and how many nodes were ever made. */
  datatype Fs = Fs(root: Tree, made: nat)

  ghost function View(nodes: seq<Node>): Fs
    requires TreeOk(nodes)
  {
    Fs(Abs(nodes, 0), |nodes|)
  }

  function Target(path: string): seq<string> {
    Components(Meant(path))
  }

  predicate Found(fs: Fs, path: string) {
    Absolute(path) && At(fs.root, Components(path)).Some?
  }

  /** Whether an entry can be made, and why not. */
  function MakeStatus(fs: Fs, path: string): Status {
    var c := Target(path);
    if !EndsInName(Meant(path)) then Invalid
    else if !Absolute(Meant(path)) || c == [] || At(fs.root, Parent(c)).None? then NoEntry
    else
      var dir := At(fs.root, Parent(c)).value;
      if dir.kind != Directory then NoEntry
      else if |dir.entries| >= RAMFS_MAX_CHILDREN || fs.made >= RAMFS_MAX_NODES then NoSpace
      else Ok
  }

  /** What is reported; an open that returns no file reports NoEntry. */
  function Expected(fs: Fs, op: Op): Status {
    match op
    case Open(path) => if Found(fs, path) || (Absolute(path) && MakeStatus(fs, path) == Ok) then Ok else NoEntry
    case Create(path, _) => MakeStatus(fs, path)
    case Remove(path) =>
      if !EndsInName(Meant(path)) then Invalid
      else if Target(path) == [] || !Found(fs, Meant(path)) then NoEntry
      else Ok
  }

  /** With a new entry, last in its directory. */
  function Make(fs: Fs, path: string, kind: Kind): Fs {
    if MakeStatus(fs, path) != Ok then fs else
    var c := Target(path);
    Fs(Put(fs.root, Parent(c), WithEntry(At(fs.root, Parent(c)).value, Last(c), kind)), fs.made + 1)
  }

  function Next(fs: Fs, op: Op): Fs {
    match op
    case Open(path) => if Found(fs, path) then fs else Make(fs, path, Regular)
    case Create(path, kind) => Make(fs, path, kind)
    case Remove(path) =>
      if Expected(fs, op) != Ok then fs else
      var c := Target(path);
      EntryAt(fs.root, c);
      fs.(root := Put(fs.root, Parent(c), WithoutEntry(At(fs.root, Parent(c)).value, Last(c))))
  }

  /** What is there is an entry of its directory. */
  lemma EntryAt(t: Tree, c: seq<string>)
    requires c != []
    ensures At(t, c).Some? <==>
            && At(t, Parent(c)).Some?
            && var dir := At(t, Parent(c)).value; First(Labels(dir.entries), Last(c)) < |dir.entries|
  {
    assert c == Parent(c) + [Last(c)];
    AtJoin(t, Parent(c), [Last(c)]);
  }

  function After(fs: Fs, ops: seq<Op>): Fs {
    if ops == [] then fs else Next(After(fs, ops[..|ops| - 1]), ops[|ops| - 1])
  }

  lemma AfterNone(fs: Fs)
    ensures After(fs, []) == fs
  {}

  lemma AfterMore(fs: Fs, ops: seq<Op>, op: Op)
    ensures After(fs, ops + [op]) == Next(After(fs, ops), op)
  {
    assert (ops + [op])[..|ops|] == ops;
  }

  lemma {:induction false} AfterJoin(fs: Fs, ops: seq<Op>, more: seq<Op>)
    ensures After(fs, ops + more) == After(After(fs, ops), more)
    decreases |more|
  {
    hide Next, After;
    if more == [] {
      AfterNone(After(fs, ops));
      assert ops + more == ops;
    } else {
      var n := |more| - 1;
      var init := more[..n];
      AfterJoin(fs, ops, init);
      AfterMore(fs, ops + init, more[n]);
      AfterMore(After(fs, ops), init, more[n]);
      assert ops + more == ops + init + [more[n]] && more == init + [more[n]];
    }
  }

  // ---- One call ----

  lemma FoundIff(nodes: seq<Node>, path: string)
    requires TreeOk(nodes)
    ensures Found(View(nodes), path) <==> Absolute(path) && Resolve(nodes, Components(path)).Some?
  {
    hide Components, Abs;
    ResolveAbs(nodes, Components(path));
  }

  lemma CreateRefines(nodes: seq<Node>, path: string, kind: Kind)
    requires TreeOk(nodes)
    ensures CreateStatus(nodes, Meant(path)) == MakeStatus(View(nodes), path)
    ensures CreateStatus(nodes, Meant(path)) == Ok ==>
              var c := Target(path);
              var nodes' := Added(nodes, Resolve(nodes, Parent(c)).value, Last(c), kind);
              TreeOk(nodes') && View(nodes') == Make(View(nodes), path, kind)
  {
    hide Components, Meant, Abs, Resolve, TreeOk;
    var c := Target(path);
    if c != [] {
      ResolveAbs(nodes, Parent(c));
      if Resolve(nodes, Parent(c)).Some? {
        var d := Resolve(nodes, Parent(c)).value;
        AbsIs(nodes, d);
        AddedAbs(nodes, Parent(c), d, Last(c), kind);
      }
    }
  }

  lemma UnlinkRefines(nodes: seq<Node>, path: string)
    requires TreeOk(nodes)
    ensures UnlinkStatus(nodes, Meant(path)) == Expected(View(nodes), Remove(path))
    ensures UnlinkStatus(nodes, Meant(path)) == Ok ==>
              var c := Target(path);
              && c != [] && Resolve(nodes, Parent(c)).Some?
              && var d := Resolve(nodes, Parent(c)).value;
                 var k := First(Names(nodes, d), Last(c));
                 && k < |nodes[d].children| && TreeOk(Removed(nodes, d, k))
                 && View(Removed(nodes, d, k)) == Next(View(nodes), Remove(path))
  {
    hide Components, Meant, Abs, Resolve, TreeOk;
    var c := Target(path);
    FoundIff(nodes, Meant(path));
    if EndsInName(Meant(path)) {
      HasName(Meant(path));
    }
    if UnlinkStatus(nodes, Meant(path)) == Ok {
      EntryAt(Abs(nodes, 0), c);
      ResolveAbs(nodes, c);
      ResolveAbs(nodes, Parent(c));
      var d := Resolve(nodes, Parent(c)).value;
      AbsIs(nodes, d);
      RemovedAbs(nodes, Parent(c), d, Last(c));
    }
  }

  /** The part of `vfs_open` with O_CREAT that finds the node. */
  method OpenFile(tree: FileTree, path: string) returns (status: Status, node: Option<nat>)
    requires tree.Valid() && tree.Ours(path) && |path| < 255
    modifies tree
    ensures tree.Valid() && View(tree.nodes) == Next(View(old(tree.nodes)), Open(path))
    ensures status == Expected(View(old(tree.nodes)), Open(path)) && (status == Ok <==> node.Some?)
    ensures node == if Absolute(path) then Resolve(tree.nodes, Components(path)) else None
  {
    hide Resolve, Components, Added, View, Meant, CreateStatus, MakeStatus, Found, Make;
    FoundIff(tree.nodes, path);
    node := tree.Lookup(path);
    if node.Some? {
      return Ok, node;
    }
    CreateRefines(tree.nodes, path, Regular);
    MakeFails(View(tree.nodes), path, Regular);
    AbsoluteMeant(path);
    status := tree.Create(path, Regular);
    node := tree.Lookup(path);
    status := if node.Some? then Ok else NoEntry;
  }

  lemma AbsoluteMeant(path: string)
    ensures Absolute(path) ==> Meant(path) == path
  {}

  /** One call, as a step of the tree. */
  method Do(tree: FileTree, op: Op) returns (status: Status)
    requires tree.Valid() && tree.Ours(op.path) && |op.path| < 255
    modifies tree
    ensures tree.Valid() && View(tree.nodes) == Next(View(old(tree.nodes)), op)
    ensures status == Expected(View(old(tree.nodes)), op)
  {
    hide Resolve, Components, Added, View, Meant, CreateStatus, UnlinkStatus, MakeStatus, Found, Make, Unlinked;
    match op {
      case Open(path) =>
        var node;
        status, node := OpenFile(tree, path);
      case Create(path, kind) =>
        CreateRefines(tree.nodes, path, kind);
        MakeFails(View(tree.nodes), path, kind);
        status := tree.Create(path, kind);
      case Remove(path) =>
        UnlinkRefines(tree.nodes, path);
        ghost var nodes := tree.nodes;
        status := tree.Unlink(path);
        if status == Ok {
          IsRemoved(nodes, tree.nodes, Parent(Target(path)), Last(Target(path)));
        }
    }
  }

  lemma MakeFails(fs: Fs, path: string, kind: Kind)
    ensures MakeStatus(fs, path) != Ok ==> Make(fs, path, kind) == fs
  {}

  lemma IsRemoved(nodes: seq<Node>, nodes': seq<Node>, parent: seq<string>, name: string)
    requires TreeOk(nodes) && TreeOk(nodes') && Unlinked(nodes, nodes', parent, name)
    ensures Resolve(nodes, parent).Some?
    ensures var d := Resolve(nodes, parent).value;
            var k := First(Names(nodes, d), name);
            k < |nodes[d].children| && nodes' == Removed(nodes, d, k)
  {}

  // ---- Runs ----

  /**
   * Any run of opens that create, creates and unlinks, from any tree: every status is the one the inductive tree gives,
   * and the nodes are that tree afterwards.
   */
  method Run(tree: FileTree, ops: seq<Op>) returns (statuses: seq<Status>)
    requires tree.Valid() && forall i | 0 <= i < |ops| :: tree.Ours(ops[i].path) && |ops[i].path| < 255
    modifies tree
    ensures tree.Valid() && View(tree.nodes) == After(View(old(tree.nodes)), ops)
    ensures |statuses| == |ops|
    ensures forall i | 0 <= i < |ops| :: statuses[i] == Expected(After(View(old(tree.nodes)), ops[..i]), ops[i])
  {
    hide View, Expected, Next, After;
    ghost var fs := View(tree.nodes);
    AfterNone(fs);
    statuses := [];
    for i := 0 to |ops|
      invariant tree.Valid() && View(tree.nodes) == After(fs, ops[..i])
      invariant |statuses| == i && forall j | 0 <= j < i :: statuses[j] == Expected(After(fs, ops[..j]), ops[j])
    {
      var status := Do(tree, ops[i]);
      assert ops[..i + 1] == ops[..i] + [ops[i]];
      AfterMore(fs, ops[..i], ops[i]);
      statuses := statuses + [status];
    }
    assert ops[..|ops|] == ops;
  }

  // ---- Two entries of one name ----

  /** A call makes an entry of a name that is there: a create always, an open only where its lookup does not find it. */
  ghost predicate Doubles(fs: Fs, op: Op) {
    && !op.Remove? && (op.Open? ==> !Found(fs, op.path))
    && MakeStatus(fs, op.path) == Ok && At(fs.root, Target(op.path)).Some?
  }

  /** From distinct names, a call leads to distinct names exactly if it does not do that. */
  lemma StaysDistinct(fs: Fs, op: Op)
    requires Distinct(fs.root)
    ensures Distinct(Next(fs, op).root) <==> !Doubles(fs, op)
  {
    hide Components, Meant, Put, At, Distinct;
    var c := Target(op.path);
    if Next(fs, op) != fs {
      EntryAt(fs.root, c);
      var dir := At(fs.root, Parent(c)).value;
      DistinctAt(fs.root, Parent(c));
      if op.Remove? {
        DropDistinct(dir, Last(c));
        DistinctPut(fs.root, Parent(c), WithoutEntry(dir, Last(c)));
      } else {
        var kind := if op.Open? then Regular else op.kind;
        AddDistinct(dir, Last(c), kind);
        DistinctPut(fs.root, Parent(c), WithEntry(dir, Last(c), kind));
      }
    }
  }

  lemma AddDistinct(t: Tree, name: string, kind: Kind)
    requires Distinct(t)
    ensures Distinct(WithEntry(t, name, kind)) <==> First(Labels(t.entries), name) == |t.entries|
  {
    var t', names := WithEntry(t, name, kind), Labels(t.entries);
    assert Labels(t'.entries) == names + [name];
    assert Distinct(Tree(kind, []));
    assert forall i | 0 <= i < |t.entries| :: t'.entries[i] == t.entries[i];
    var k := First(names, name);
    if k < |names| {
      assert Labels(t'.entries)[k] == Labels(t'.entries)[|names|];
    }
  }

  lemma DropDistinct(t: Tree, name: string)
    requires Distinct(t) && First(Labels(t.entries), name) < |t.entries|
    ensures Distinct(WithoutEntry(t, name))
  {
    var k, n := First(Labels(t.entries), name), |t.entries|;
    var t' := WithoutEntry(t, name);
    FilledIs(t.entries, k);
    forall i | 0 <= i < n - 1
      ensures t'.entries[i] == t.entries[if i == k then n - 1 else i]
      ensures Labels(t'.entries)[i] == Labels(t.entries)[if i == k then n - 1 else i]
    {}
  }

  /** An open makes a second entry exactly where the name is there and is given without any '/'. */
  lemma OpenDoubles(fs: Fs, path: string)
    ensures Doubles(fs, Open(path)) <==>
              && path != "" && '/' !in path && MakeStatus(fs, path) == Ok
              && At(fs.root, Target(path)).Some?
  {
    hide Components, At;
  }
}
