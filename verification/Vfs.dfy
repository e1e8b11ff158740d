/** kernel/fs/vfs.c over kernel/fs/ramfs.c: looking up, creating and unlinking by path. */
module Vfs {
  import opened Common
  import opened VfsSpec

  datatype Status = Ok | Invalid | NoEntry | NoSpace

  /** The mount that `find_mount` picks for a path: the first of the longest mount paths that the path starts with. */
  ghost predicate BestMount(mounts: seq<string>, path: string, k: int) {
    && -1 <= k < |mounts|
    && (k >= 0 ==> mounts[k] != "" && mounts[k] <= path)
    && (forall i | 0 <= i < |mounts| && mounts[i] != "" && mounts[i] <= path ::
          k >= 0 && |mounts[i]| <= |mounts[k]| && (i < k ==> |mounts[i]| < |mounts[k]|))
  }

  method FindMount(mounts: seq<string>, path: string) returns (best: int)
    ensures BestMount(mounts, path, best)
  {
    best := -1;
    var bestLen := 0;
    for i := 0 to |mounts|
      invariant -1 <= best < i && bestLen == (if best < 0 then 0 else |mounts[best]|)
      invariant best >= 0 ==> mounts[best] != "" && mounts[best] <= path
      invariant forall j | 0 <= j < i && mounts[j] != "" && mounts[j] <= path ::
                  best >= 0 && |mounts[j]| <= |mounts[best]| && (j < best ==> |mounts[j]| < |mounts[best]|)
    {
      if mounts[i] <= path && |mounts[i]| > bestLen {
        best, bestLen := i, |mounts[i]|;
      }
    }
  }

  /** The mount path starts the path, and its components start those of the path. */
  ghost predicate Covers(mount: string, path: string) {
    mount != "" && mount <= path && Components(mount) <= Components(path)
  }

  /** As `BestMount`, with whole components compared. */
  ghost predicate BestCover(mounts: seq<string>, path: string, k: int) {
    && -1 <= k < |mounts|
    && (k >= 0 ==> Covers(mounts[k], path))
    && (forall i | 0 <= i < |mounts| && Covers(mounts[i], path) ::
          k >= 0 && |mounts[i]| <= |mounts[k]| && (i < k ==> |mounts[i]| < |mounts[k]|))
  }

  /** The mount path ends where a component of the path ends. */
  predicate AtBoundary(mount: string, path: string)
    requires mount != "" && mount <= path
  {
    mount[|mount| - 1] == '/' || mount == path || path[|mount|] == '/'
  }

  /** Where the part after the last '/' starts. */
  function NameStart(s: string): (i: nat)
    ensures i <= |s| && '/' !in s[i..] && (i == 0 || s[i - 1] == '/')
  {
    if s == "" || s[|s| - 1] == '/' then |s| else
    var i := NameStart(s[..|s| - 1]);
    assert s[i..] == s[..|s| - 1][i..] + [s[|s| - 1]];
    i
  }

  lemma Joined(a: string, b: string)
    requires a == "" || a[|a| - 1] == '/'
    ensures Components(a + b) == Components(a) + Components(b)
  {
    hide Components;
    NoComponents();
    if a == "" {
      assert a + b == b;
    } else {
      var c := a[..|a| - 1];
      assert a == c + ("/" + "") && a + b == c + ("/" + b);
      SlashSplits(c, "");
      SlashSplits(c, b);
    }
  }

  /** A start of a path has components that start those of the path exactly when it ends at a boundary. */
  lemma CoversIff(mount: string, path: string)
    requires mount != "" && mount <= path
    ensures Covers(mount, path) <==> AtBoundary(mount, path)
  {
    hide Components;
    var rest := path[|mount|..];
    assert path == mount + rest;
    if mount[|mount| - 1] == '/' {
      Joined(mount, rest);
    } else if rest != "" && rest[0] == '/' {
      assert rest == "/" + rest[1..];
      SlashSplits(mount, rest[1..]);
    } else if rest != "" {
      var i := NameStart(mount);
      var a, name := mount[..i], mount[i..];
      assert mount == a + name && path == a + (name + rest);
      Joined(a, name);
      Joined(a, name + rest);
      SingleComponent(name);
      LongerName(name, rest);
      assert Components(mount)[|Components(a)|] == name;
    }
  }

  lemma LongerName(name: string, rest: string)
    requires name != "" && '/' !in name && rest != "" && rest[0] != '/'
    ensures Components(name + rest) != [] && Components(name + rest)[0] != name
  {
    hide Run;
    var s := name + rest;
    assert forall i | 0 <= i <= |name| :: s[i] == if i < |name| then name[i] else rest[0];
    assert Run(s) > |name| && |s[..Run(s)]| == Run(s);
  }

  /**
   * `find_mount` compares characters. For every mount table and path, what it finds is what comparing components finds
   * exactly when it found nothing, or a mount path that ends at a boundary of the path.
   */
  lemma MountsByPrefix(mounts: seq<string>, path: string, k: int)
    requires BestMount(mounts, path, k)
    ensures BestCover(mounts, path, k) <==> k < 0 || AtBoundary(mounts[k], path)
  {
    hide Components;
    if k >= 0 {
      CoversIff(mounts[k], path);
    }
  }

  /** A path beside a mount point, as "/devices" beside "/dev", falls into the mount; by components it would not. */
  lemma FallsIntoMount(point: string, more: string, k: int)
    requires |point| > 1 && point[0] == '/' && point[|point| - 1] != '/' && more != "" && more[0] != '/'
    requires BestMount(["/", point], point + more, k)
    ensures k == 1 && BestCover(["/", point], point + more, 0)
  {
    hide Components;
    var mounts, path := ["/", point], point + more;
    assert mounts[1] <= path && path[|point|] == more[0];
    CoversIff(point, path);
    assert "/" <= path;
    CoversIff("/", path);
  }

  /** The one spelling of a component sequence. */
  function Spelled(c: seq<string>): string {
    if c == [] then "" else Spelled(Parent(c)) + ("/" + Last(c))
  }

  predicate Canonical(path: string) {
    path == if Components(path) == [] then "/" else Spelled(Components(path))
  }

  lemma {:induction false} SpelledPrefix(a: seq<string>, b: seq<string>)
    requires a <= b
    ensures Spelled(a) <= Spelled(b) && (b != [] ==> "/" <= Spelled(b))
    decreases |b|
  {
    if b != [] {
      if |a| < |b| {
        SpelledPrefix(a, Parent(b));
      } else {
        assert a == b;
      }
      SpelledPrefix([], Parent(b));
      if Parent(b) != [] {
        assert Spelled(Parent(b)) <= Spelled(b);
      }
    }
  }

  /** Between paths without superfluous '/', covering is a matter of components alone. */
  lemma CanonicalCovers(mount: string, path: string)
    requires Canonical(mount) && Canonical(path)
    ensures Covers(mount, path) <==> Components(mount) <= Components(path)
  {
    hide Components;
    if Components(mount) <= Components(path) {
      SpelledPrefix(Components(mount), Components(path));
      if Components(mount) != [] {
        SpelledPrefix([], Components(mount));
      }
    }
  }

  class FileTree {
    const mounts: seq<string>
    var nodes: seq<Node>

    /** The tree is mounted at "/", once. */
    ghost predicate Valid()
      reads this
    {
      TreeOk(nodes) && "/" in mounts
    }

    /** No other mount's path starts this path. */
    ghost predicate Ours(path: string) {
      forall m | m in mounts && m != "" && m != "/" :: !(m <= path)
    }

    constructor (mounts: seq<string>)
      requires "/" in mounts
      ensures Valid() && this.mounts == mounts && nodes == [Node("/", Directory, [])]
    {
      this.mounts := mounts;
      nodes := [Node("/", Directory, [])];
    }

    /** `ramfs_lookup`. */
    method FindChild(d: nat, name: string) returns (k: nat)
      requires Valid() && d < |nodes|
      ensures k == First(Names(nodes, d), name)
    {
      hide First;
      k := 0;
      while k < |nodes[d].children|
        invariant k <= |nodes[d].children| && forall j | 0 <= j < k :: Names(nodes, d)[j] != name
      {
        if nodes[nodes[d].children[k]].name == name {
          FirstIs(Names(nodes, d), name, k);
          return;
        }
        k := k + 1;
      }
      FirstIs(Names(nodes, d), name, k);
    }

    /** `ramfs_create`: a new node, as the last entry of directory d, if there is room. */
    method AddChild(d: nat, name: string, kind: Kind) returns (ok: bool)
      requires Valid() && d < |nodes|
      modifies this
      ensures Valid() && (ok <==> |old(nodes[d]).children| < RAMFS_MAX_CHILDREN && |old(nodes)| < RAMFS_MAX_NODES)
      ensures nodes == if ok then Added(old(nodes), d, name, kind) else old(nodes)
    {
      ok := |nodes[d].children| < RAMFS_MAX_CHILDREN && |nodes| < RAMFS_MAX_NODES;
      if ok {
        AddedOk(nodes, d, name, kind);
        var node := |nodes|;
        nodes := nodes + [Node(name, kind, [])];
        nodes := nodes[d := nodes[d].(children := nodes[d].children + [node])];
      }
    }

    /** The next component of a path shorter than 255 characters, and what follows it. */
    method NextComponent(p: string) returns (component: string, rest: string)
      requires p != "" && |p| < 255
      ensures component == p[..Run(p)] && rest == Rest(p)
    {
      hide Run;
      var i := 0;
      while i < |p| && p[i] != '/' && i < 255
        invariant i <= |p| && i <= Run(p) && '/' !in p[..i]
      {
        RunPast(p, i);
        i := i + 1;
      }
      RunStops(p, i);
      component, rest := p[..i], p[i..];
      if rest != "" && rest[0] == '/' {
        rest := rest[1..];
      }
    }

    /** The loop of `vfs_lookup`: from the root along the components. */
    method Walk(rel: string) returns (node: Option<nat>)
      requires Valid() && |rel| < 255
      ensures node == Resolve(nodes, Components(rel))
    {
      hide Resolve, Components, Child, Run, Rest;
      ResolveRoot(nodes);
      var p := rel;
      ghost var done: seq<string> := [];
      node := Some(0);
      while p != "" && node.Some?
        invariant |p| < 255 && Resolve(nodes, done) == node && done + Components(p) == Components(rel)
        decreases |p|
      {
        ComponentsStep(p);
        var component, rest := NextComponent(p);
        if component != "" {
          ResolveStep(nodes, done, component);
          var k := FindChild(node.value, component);
          node := if k < |nodes[node.value].children| then Some(nodes[node.value].children[k]) else None;
          done := done + [component];
        }
        p := rest;
      }
      if node.None? {
        NothingBelow(nodes, done, Components(rel));
      } else {
        NoComponents();
        assert done == Components(rel);
      }
    }

    /** `vfs_lookup`: a path in this tree leads to the node its components lead to. */
    method Lookup(path: string) returns (node: Option<nat>)
      requires Valid() && Ours(path) && |path| < 255
      ensures node == if path != "" && path[0] == '/' then Resolve(nodes, Components(path)) else None
    {
      hide Resolve, Components, BestMount;
      var m := FindMount(mounts, path);
      RootMount(mounts, path, m);
      if m < 0 {
        return None;
      }
      LeadingSlash(path);
      var rel := path[1..];
      if rel != "" && rel[0] == '/' {
        LeadingSlash(rel);
        rel := rel[1..];
      }
      if rel == "" {
        NoComponents();
        ResolveRoot(nodes);
        return Some(0);
      }
      node := Walk(rel);
    }

    /** `split_path`: at the last '/', or, without one, after the first character. */
    method SplitPath(path: string) returns (dir: string, name: string)
      requires |path| < 255
      ensures '/' !in name && |dir| < 255 && (dir <= path || dir == "/")
      ensures name == "" <==> !EndsInName(Meant(path))
      ensures Absolute(Meant(path)) ==> IsSplit(Meant(path), dir, name)
      ensures !Absolute(Meant(path)) ==> name == "" || !Absolute(dir)
    {
      var last := 0;
      for p := 0 to |path|
        invariant 0 <= last && (last == 0 || (last < p && path[last] == '/'))
        invariant forall i | last < i < p :: path[i] != '/'
      {
        if path[p] == '/' {
          last := p;
        }
      }
      if last == 0 {
        name := if path == "" then "" else path[1..];
        dir := "/";
        assert path != "" ==> path == [path[0]] + name;
        SlashFirst(path, name);
      } else {
        name := path[last + 1..];
        dir := path[..last];
        assert path == dir + ("/" + name);
        assert path[last] in path;
      }
    }

    /**
     * `vfs_create`. On success the parent's directory has one entry more, for a new node. If the path led nowhere
     * before, it now leads to that node; every other path leads where it led.
     */
    method Create(path: string, kind: Kind) returns (status: Status)
      requires Valid() && Ours(path) && |path| < 255
      modifies this
      ensures Valid() && status == CreateStatus(old(nodes), Meant(path))
      ensures status != Ok ==> nodes == old(nodes)
      ensures status == Ok ==>
                var c := Components(Meant(path));
                && c != [] && Resolve(old(nodes), Parent(c)).Some?
                && nodes == Added(old(nodes), Resolve(old(nodes), Parent(c)).value, Last(c), kind)
                && forall q {:trigger Resolve(nodes, q)} :: Resolve(nodes, q) ==
                     if q == c && Resolve(old(nodes), q).None? then Some(|old(nodes)|) else Resolve(old(nodes), q)
    {
      hide Resolve, Components, Added, IsSplit, Meant;
      var dir, name := SplitPath(path);
      if name == "" {
        return Invalid;
      }
      if Absolute(Meant(path)) {
        SplitComponents(Meant(path), dir, name);
      }
      PrefixOurs(this, path, dir);
      var parent := Lookup(dir);
      if parent.None? || nodes[parent.value].kind != Directory {
        return NoEntry;
      }
      var d := parent.value;
      ghost var c := Components(Meant(path));
      AddedOk(nodes, d, name, kind);
      forall q
        ensures Resolve(Added(nodes, d, name, kind), q) ==
                if q == c && Resolve(nodes, q).None? then Some(|nodes|) else Resolve(nodes, q)
      {
        CreateResolves(nodes, Parent(c), d, name, kind, q);
      }
      var ok := AddChild(d, name, kind);
      return if ok then Ok else NoSpace;
    }

    /**
     * `vfs_unlink`. On success one entry is gone from the parent's directory, with the effect on all paths that
     * `Unlinked` says.
     */
    method Unlink(path: string) returns (status: Status)
      requires Valid() && Ours(path) && |path| < 255
      modifies this
      ensures Valid() && status == UnlinkStatus(old(nodes), Meant(path))
      ensures status != Ok ==> nodes == old(nodes)
      ensures status == Ok ==>
                var c := Components(Meant(path));
                c != [] && Resolve(old(nodes), c).Some? && Unlinked(old(nodes), nodes, Parent(c), Last(c))
    {
      hide Resolve, Components, Removed, IsSplit, First, Names, Child, Unlinked, Meant;
      var dir, name := SplitPath(path);
      if name == "" {
        return Invalid;
      }
      if Absolute(Meant(path)) {
        SplitComponents(Meant(path), dir, name);
      }
      PrefixOurs(this, path, dir);
      var parent := Lookup(dir);
      if parent.None? {
        if Absolute(Meant(path)) {
          NothingBelow(nodes, Components(dir), Components(Meant(path)));
        }
        return NoEntry;
      }
      ResolveStep(nodes, Components(dir), name);
      var d := parent.value;
      var k := FindChild(d, name);
      if k >= |nodes[d].children| {
        return NoEntry;
      }
      UnlinkEffect(nodes, Components(dir), d, name);
      RemovedIs(nodes, d, k);
      var s := nodes[d].children;
      nodes := nodes[d := nodes[d].(children := s[k := s[|s| - 1]][..|s| - 1])];
      return Ok;
    }
  }

  function Parent(c: seq<string>): seq<string>
    requires c != []
  {
    c[..|c| - 1]
  }

  function Last(c: seq<string>): string
    requires c != []
  {
    c[|c| - 1]
  }

  predicate Absolute(path: string) {
    path != "" && path[0] == '/'
  }

  /** The path that creating and unlinking act on: without any '/', the first character is taken for one. */
  function Meant(path: string): string {
    if path != "" && '/' !in path then "/" + path[1..] else path
  }

  predicate EndsInName(path: string) {
    path != "" && path[|path| - 1] != '/'
  }

  /** A path that ends in a name has a component. */
  lemma HasName(path: string)
    requires EndsInName(path)
    ensures Components(path) != []
  {
    hide Components;
    var i := NameStart(path);
    assert path == path[..i] + path[i..];
    Joined(path[..i], path[i..]);
    SingleComponent(path[i..]);
  }

  /** When `vfs_create` succeeds, and why it fails. */
  ghost function CreateStatus(nodes: seq<Node>, path: string): Status
    requires TreeOk(nodes)
  {
    var c := Components(path);
    if !EndsInName(path) then Invalid
    else if !Absolute(path) || c == [] || Resolve(nodes, Parent(c)).None? then NoEntry
    else
      var d := nodes[Resolve(nodes, Parent(c)).value];
      if d.kind != Directory then NoEntry
      else if |d.children| >= RAMFS_MAX_CHILDREN || |nodes| >= RAMFS_MAX_NODES then NoSpace
      else Ok
  }

  /** When `vfs_unlink` succeeds, and why it fails. */
  ghost function UnlinkStatus(nodes: seq<Node>, path: string): Status
    requires TreeOk(nodes)
  {
    if !EndsInName(path) then Invalid
    else if !Absolute(path) || Resolve(nodes, Components(path)).None? then NoEntry
    else Ok
  }

  lemma SlashFirst(path: string, name: string)
    requires (path == "" && name == "") || (path != "" && path == [path[0]] + name && '/' !in name)
    ensures Absolute(Meant(path)) ==> Meant(path) == "/" + name
    ensures !Absolute(Meant(path)) ==> name == ""
    ensures name == "" <==> !EndsInName(Meant(path))
  {
    if path != "" {
      assert path[1..] == name;
      assert '/' in path <==> path[0] == '/';
    }
  }

  /** A path cut at its last '/'; the root keeps its own. */
  ghost predicate IsSplit(path: string, dir: string, name: string) {
    (dir == "/" && path == "/" + name) || (path == dir + ("/" + name) && dir != "" && dir[0] == '/')
  }

  lemma SplitComponents(path: string, dir: string, name: string)
    requires name != "" && '/' !in name && IsSplit(path, dir, name)
    ensures dir != "" && dir[0] == '/' && |dir| <= |path| && (dir <= path || dir == "/")
    ensures Components(path) != [] && Parent(Components(path)) == Components(dir) && Last(Components(path)) == name
    ensures Components(path) == Components(dir) + [name]
  {
    if dir == "/" && path == "/" + name {
      LastComponent("", name);
      LeadingSlash("/");
      assert "" + ("/" + name) == path;
      assert Components("/") == [];
    } else {
      LastComponent(dir, name);
    }
    assert Parent(Components(dir) + [name]) == Components(dir);
  }

  lemma PrefixTrans(a: string, b: string, c: string)
    ensures a <= b && b <= c ==> a <= c
    ensures a <= "/" ==> a == "" || a == "/"
  {}

  lemma PrefixOurs(t: FileTree, path: string, dir: string)
    requires t.Ours(path) && (dir <= path || dir == "/")
    ensures t.Ours(dir)
  {
    forall m | m in t.mounts && m != "" && m != "/"
      ensures !(m <= dir)
    {
      PrefixTrans(m, dir, path);
      PrefixTrans(m, dir, "/");
    }
  }

  lemma RemovedIs(nodes: seq<Node>, d: nat, k: nat)
    requires d < |nodes| && k < |nodes[d].children|
    ensures var s := nodes[d].children;
            Removed(nodes, d, k) == nodes[d := nodes[d].(children := s[k := s[|s| - 1]][..|s| - 1])]
  {}

  /**
   * What unlinking the path with these components does. The path still leads somewhere exactly if another entry has its
   * name. Another name in the directory leads elsewhere exactly if the last entry has it and overtakes the first. So
   * all is as it should be, the path and what lies below gone and every other path leading where it led, exactly if
   * neither happens.
   */
  ghost predicate Unlinked(nodes: seq<Node>, nodes': seq<Node>, parent: seq<string>, name: string)
    requires TreeOk(nodes) && TreeOk(nodes')
  {
    && Resolve(nodes, parent).Some?
    && var d := Resolve(nodes, parent).value;
       var k := First(Names(nodes, d), name);
       && k < |nodes[d].children| && nodes' == Removed(nodes, d, k)
       && (Resolve(nodes', parent + [name]).Some? <==> name in Names(nodes, d)[k + 1..])
       && NamesKept(nodes, nodes', parent, Names(nodes, d), k)
       && OutsideKept(nodes, nodes', parent)
       && (Clean(Names(nodes, d), k) <==> OnlyGone(nodes, nodes', parent + [name]))
  }

  /** Which other names in the directory lead elsewhere. */
  ghost predicate NamesKept(nodes: seq<Node>, nodes': seq<Node>, parent: seq<string>, names: seq<string>, k: nat)
    requires TreeOk(nodes) && TreeOk(nodes') && k < |names|
  {
    forall x | x != names[k] ::
      Resolve(nodes', parent + [x]) != Resolve(nodes, parent + [x]) <==> Overtakes(names, k, x)
  }

  /** Nothing changes but below the directory. */
  ghost predicate OutsideKept(nodes: seq<Node>, nodes': seq<Node>, parent: seq<string>)
    requires TreeOk(nodes) && TreeOk(nodes')
  {
    forall q | !(parent < q) :: Resolve(nodes', q) == Resolve(nodes, q)
  }

  lemma UnlinkEffect(nodes: seq<Node>, parent: seq<string>, d: nat, name: string)
    requires TreeOk(nodes) && Resolve(nodes, parent) == Some(d) && First(Names(nodes, d), name) < |nodes[d].children|
    ensures var k := First(Names(nodes, d), name);
            && TreeOk(Removed(nodes, d, k)) && Resolve(nodes, parent + [name]).Some?
            && Unlinked(nodes, Removed(nodes, d, k), parent, name)
  {
    hide First, Names, Removed, Overtakes, Resolve, Clean, TreeOk, NamesKept, OutsideKept, OnlyGone, Child;
    IsThere(nodes, parent, d, name);
    UnlinkExact(nodes, parent, d, name);
    UnlinkedName(nodes, parent, d, name, name);
    UnlinkedNames(nodes, parent, d, name);
    UnlinkedOutside(nodes, parent, d, name);
  }

  lemma IsThere(nodes: seq<Node>, parent: seq<string>, d: nat, name: string)
    requires TreeOk(nodes) && Resolve(nodes, parent) == Some(d) && First(Names(nodes, d), name) < |nodes[d].children|
    ensures Resolve(nodes, parent + [name]).Some?
  {
    hide First, Resolve, TreeOk;
    ResolveNext(nodes, parent, name);
  }

  lemma UnlinkedNames(nodes: seq<Node>, parent: seq<string>, d: nat, name: string)
    requires TreeOk(nodes) && Resolve(nodes, parent) == Some(d) && First(Names(nodes, d), name) < |nodes[d].children|
    ensures var names, k := Names(nodes, d), First(Names(nodes, d), name);
            TreeOk(Removed(nodes, d, k)) && NamesKept(nodes, Removed(nodes, d, k), parent, names, k)
  {
    hide First, Names, Removed, Overtakes, Resolve, TreeOk;
    var names, k := Names(nodes, d), First(Names(nodes, d), name);
    RemovedOk(nodes, d, k);
    var nodes' := Removed(nodes, d, k);
    forall x | x != names[k]
      ensures Resolve(nodes', parent + [x]) != Resolve(nodes, parent + [x]) <==> Overtakes(names, k, x)
    {
      UnlinkedName(nodes, parent, d, name, x);
    }
  }

  lemma UnlinkedOutside(nodes: seq<Node>, parent: seq<string>, d: nat, name: string)
    requires TreeOk(nodes) && Resolve(nodes, parent) == Some(d) && First(Names(nodes, d), name) < |nodes[d].children|
    ensures var k := First(Names(nodes, d), name);
            TreeOk(Removed(nodes, d, k)) && OutsideKept(nodes, Removed(nodes, d, k), parent)
  {
    hide First, Names, Removed, Overtakes, Resolve, TreeOk;
    var k := First(Names(nodes, d), name);
    RemovedOk(nodes, d, k);
    forall q | !(parent < q)
      ensures Resolve(Removed(nodes, d, k), q) == Resolve(nodes, q)
    {
      UnlinkResolves(nodes, parent, d, name, q);
    }
  }

  lemma UnlinkedName(nodes: seq<Node>, parent: seq<string>, d: nat, name: string, x: string)
    requires TreeOk(nodes) && Resolve(nodes, parent) == Some(d) && First(Names(nodes, d), name) < |nodes[d].children|
    ensures var names, k := Names(nodes, d), First(Names(nodes, d), name);
            var nodes' := Removed(nodes, d, k);
            && TreeOk(nodes')
            && (Resolve(nodes', parent + [name]).Some? <==> name in names[k + 1..])
            && (x != name ==>
                  (Resolve(nodes', parent + [x]) != Resolve(nodes, parent + [x]) <==> Overtakes(names, k, x)))
  {
    hide First, Names, Removed, Overtakes, Resolve, Child;
    var k := First(Names(nodes, d), name);
    RemovedOk(nodes, d, k);
    UnlinkResolves(nodes, parent, d, name, parent);
    RemovedChild(nodes, d, name, d, x);
    RemovedChild(nodes, d, name, d, name);
    ResolveNext(nodes, parent, x);
    ResolveNext(Removed(nodes, d, k), parent, x);
    ResolveNext(Removed(nodes, d, k), parent, name);
  }

  lemma {:induction false} RunPast(p: string, i: nat)
    requires i < |p| && i <= Run(p) && p[i] != '/'
    ensures i < Run(p) && '/' !in p[..i + 1]
  {
    assert p[..i] <= p[..Run(p)];
    assert p[..i + 1] == p[..i] + [p[i]];
  }

  lemma InRun(p: string, i: nat)
    requires i < Run(p)
    ensures p[i] != '/'
  {
    assert p[..Run(p)][i] == p[i];
  }

  lemma RunStops(p: string, i: nat)
    requires i <= |p| && i <= Run(p) && (i < |p| ==> p[i] == '/')
    ensures i == Run(p)
  {
    hide Run;
    if i < Run(p) {
      InRun(p, i);
    }
  }

  lemma RootMount(mounts: seq<string>, path: string, k: int)
    requires BestMount(mounts, path, k) && "/" in mounts && forall m | m in mounts && m != ""
             && m != "/" :: !(m <= path)
    ensures k >= 0 <==> path != "" && path[0] == '/'
    ensures k >= 0 ==> mounts[k] == "/"
  {
    var j :| 0 <= j < |mounts| && mounts[j] == "/";
    if path != "" {
      assert path[..1] == [path[0]];
    }
    if k >= 0 {
      assert mounts[k] in mounts;
    }
  }

  lemma ResolveRoot(nodes: seq<Node>)
    requires TreeOk(nodes)
    ensures Resolve(nodes, []) == Some(0)
  {}

  lemma NoComponents()
    ensures Components("") == []
  {}

  lemma ComponentsStep(p: string)
    requires p != ""
    ensures Components(p) == (if p[..Run(p)] == "" then [] else [p[..Run(p)]]) + Components(Rest(p)) && |Rest(p)| < |p|
  {}

  lemma ResolveStep(nodes: seq<Node>, done: seq<string>, x: string)
    requires TreeOk(nodes) && Resolve(nodes, done).Some?
    ensures Resolve(nodes, done + [x]) == Child(nodes, Resolve(nodes, done).value, x)
    ensures Child(nodes, Resolve(nodes, done).value, x) ==
            var d := Resolve(nodes, done).value;
            var k := First(Names(nodes, d), x);
            if k < |nodes[d].children| then Some(nodes[d].children[k]) else None
  {
    assert (done + [x])[..|done|] == done;
  }
}
