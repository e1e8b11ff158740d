/** The file tree that `ramfs_mount` and the boot in kernel/core/main.c make, and entries of one name in it. */
module VfsBoot {
  import opened Common
  import opened VfsSpec
  import opened VfsTree
  import opened Vfs
  import opened VfsRun

  const RAM_DIRS: seq<string> := ["bin", "dev", "etc", "tmp", "home", "proc", "var"]
  const BOOT_DIRS: seq<string> := ["root", "home", "etc", "tmp", "bin", "lib", "usr"]

  // ---- Calls at the top of the tree ----

  predicate IsName(name: string) {
    name != "" && '/' !in name
  }

  /** Leads to the entry of that name in the root. */
  ghost predicate ToTop(path: string, name: string) {
    Absolute(Meant(path)) && EndsInName(Meant(path)) && Target(path) == [name]
  }

  lemma TopPath(name: string)
    requires IsName(name)
    ensures ToTop("/" + name, name) && Meant("/" + name) == "/" + name
  {
    var path := "/" + name;
    assert path[0] in path && path[1..] == name;
    LeadingSlash(path);
    SingleComponent(name);
  }

  lemma BarePath(path: string)
    requires |path| > 1 && '/' !in path
    ensures ToTop(path, path[1..]) && !Absolute(path) && IsName(path[1..])
  {
    assert path[0] in path;
    TopPath(path[1..]);
  }

  lemma TopMake(fs: Fs, path: string, name: string, kind: Kind)
    requires ToTop(path, name) && fs.root.kind == Directory
    requires |fs.root.entries| < RAMFS_MAX_CHILDREN && fs.made < RAMFS_MAX_NODES
    ensures MakeStatus(fs, path) == Ok && Make(fs, path, kind) == Fs(WithEntry(fs.root, name, kind), fs.made + 1)
  {
    hide Components, Meant;
    assert Parent([name]) == [];
  }

  lemma TopRemove(fs: Fs, path: string, name: string)
    requires ToTop(path, name) && First(Labels(fs.root.entries), name) < |fs.root.entries|
    ensures Expected(fs, Remove(path)) == Ok && Next(fs, Remove(path)) == fs.(root := WithoutEntry(fs.root, name))
  {
    hide Components, Meant;
    assert Parent([name]) == [];
    EntryAt(fs.root, [name]);
  }

  lemma LabelsFilled(entries: seq<Entry>, k: nat)
    requires k < |entries|
    ensures Labels(Filled(entries, k)) == Filled(Labels(entries), k)
  {
    FilledIs(entries, k);
    FilledIs(Labels(entries), k);
  }

  /**
   * Unlinking an entry of the root leaves the path leading somewhere exactly if another entry has the name.
   */
  lemma RemoveLeaves(fs: Fs, path: string, name: string)
    requires ToTop(path, name) && First(Labels(fs.root.entries), name) < |fs.root.entries|
    ensures At(Next(fs, Remove(path)).root, [name]).Some? <==>
              name in Labels(fs.root.entries)[First(Labels(fs.root.entries), name) + 1..]
  {
    hide Components, Meant, First;
    var entries := fs.root.entries;
    var k := First(Labels(entries), name);
    TopRemove(fs, path, name);
    LabelsFilled(entries, k);
    FoundAgain(Labels(entries), k, name);
    EntryAt(WithoutEntry(fs.root, name), [name]);
    assert Parent([name]) == [];
  }

  /**
   * A name opened twice without any '/': neither open finds it, both leave an entry in the root, and after unlinking it
   * the path still leads somewhere.
   */
  lemma OpenTwice(fs: Fs, path: string)
    requires |path| > 1 && '/' !in path && fs.root.kind == Directory
    requires |fs.root.entries| + 2 <= RAMFS_MAX_CHILDREN && fs.made + 2 <= RAMFS_MAX_NODES
    ensures var name, fs1, fs2 := path[1..], After(fs, [Open(path)]), After(fs, [Open(path), Open(path)]);
            && Expected(fs, Open(path)) == NoEntry && Expected(fs1, Open(path)) == NoEntry
            && Labels(fs2.root.entries) == Labels(fs.root.entries) + [name, name]
            && Expected(fs2, Remove(path)) == Ok && At(Next(fs2, Remove(path)).root, [name]).Some?
  {
    hide Components, Meant, First, Make, MakeStatus;
    var name, labels := path[1..], Labels(fs.root.entries);
    BarePath(path);
    AfterNone(fs);
    AfterMore(fs, [], Open(path));
    AfterMore(fs, [Open(path)], Open(path));
    assert [] + [Open(path)] == [Open(path)] && [Open(path)] + [Open(path)] == [Open(path), Open(path)];
    var fs1 := Next(fs, Open(path));
    var fs2 := Next(fs1, Open(path));
    TopMake(fs, path, name, Regular);
    TopMake(fs1, path, name, Regular);
    assert Labels(fs2.root.entries) == labels + [name, name];
    var k := First(Labels(fs2.root.entries), name);
    assert Labels(fs2.root.entries)[|labels|] == name;
    assert Labels(fs2.root.entries)[|labels| + 1] == name;
    assert Labels(fs2.root.entries)[k + 1..][|labels| - k] == name;
    TopRemove(fs2, path, name);
    RemoveLeaves(fs2, path, name);
  }

  // ---- Mounting ----

  function Dirs(names: seq<string>): seq<Entry> {
    seq(|names|, i requires 0 <= i < |names| => Entry(names[i], Tree(Directory, [])))
  }

  /** What `ramfs_mount` makes: seven directories, and the host name's file. */
  function Mounted(): Fs {
    var hostname := Entry("hostname", Tree(Regular, []));
    Fs(Tree(Directory, Dirs(RAM_DIRS)[2 := Entry("etc", Tree(Directory, [hostname]))]), 9)
  }

  lemma DirsMore(names: seq<string>, name: string)
    ensures Dirs(names + [name]) == Dirs(names) + [Entry(name, Tree(Directory, []))]
    ensures |Dirs(names)| == |names| && Labels(Dirs(names)) == names
  {}

  lemma NewRoot(nodes: seq<Node>)
    requires nodes == [Node("/", Directory, [])]
    ensures TreeOk(nodes) && View(nodes) == Fs(Tree(Directory, Dirs([])), 1)
  {}

  /** A new node in the root, or in a directory in the root. */
  lemma Grows(nodes: seq<Node>, q: seq<string>, d: nat, name: string, kind: Kind)
    requires TreeOk(nodes) && Resolve(nodes, q) == Some(d)
    ensures TreeOk(Added(nodes, d, name, kind)) && At(View(nodes).root, q).Some?
    ensures View(Added(nodes, d, name, kind)) ==
            Fs(Put(View(nodes).root, q, WithEntry(At(View(nodes).root, q).value, name, kind)), |nodes| + 1)
    ensures |nodes[d].children| == |At(View(nodes).root, q).value.entries| && View(nodes).made == |nodes|
    ensures |Added(nodes, d, name, kind)| == |nodes| + 1
  {
    hide Abs, Put;
    AddedAbs(nodes, q, d, name, kind);
    AbsIs(nodes, d);
  }

  /** The directory "etc" is the third. */
  lemma EtcThere(nodes: seq<Node>)
    requires TreeOk(nodes) && View(nodes) == Fs(Tree(Directory, Dirs(RAM_DIRS)), 8)
    ensures First(Names(nodes, 0), "etc") == 2 < |nodes[0].children|
    ensures Resolve(nodes, ["etc"]) == Some(nodes[0].children[2])
    ensures var t := View(nodes).root;
            && At(t, ["etc"]) == Some(Tree(Directory, []))
            && Put(t, ["etc"], WithEntry(Tree(Directory, []), "hostname", Regular)) == Mounted().root
  {
    EtcThird();
    AbsIs(nodes, 0);
    hide Abs, First, At, Put, Dirs, Mounted, Names, Labels;
    ResolveRoot(nodes);
    ResolveNext(nodes, [], "etc");
    assert [] + ["etc"] == ["etc"];
  }

  lemma EtcThird()
    ensures var t := Tree(Directory, Dirs(RAM_DIRS));
            && First(Labels(t.entries), "etc") == 2 && |t.entries| == 7
            && At(t, ["etc"]) == Some(Tree(Directory, []))
            && Put(t, ["etc"], WithEntry(Tree(Directory, []), "hostname", Regular)) == Mounted().root
  {
    hide First;
    DirsMore(RAM_DIRS, "");
    assert RAM_DIRS[0][0] == 'b' && RAM_DIRS[1][0] == 'd';
    FirstIs(RAM_DIRS, "etc", 2);
    assert ["etc"][1..] == [];
    var hostname := Entry("hostname", Tree(Regular, []));
    assert [] + [hostname] == [hostname];
  }

  /** `ramfs_mount`. */
  method Mount(mounts: seq<string>) returns (tree: FileTree)
    requires "/" in mounts
    ensures fresh(tree) && tree.Valid() && tree.mounts == mounts && View(tree.nodes) == Mounted()
  {
    hide View, Added, Abs, First;
    tree := new FileTree(mounts);
    NewRoot(tree.nodes);
    for i := 0 to |RAM_DIRS|
      invariant fresh(tree) && tree.Valid() && tree.mounts == mounts && |tree.nodes| == i + 1
      invariant View(tree.nodes) == Fs(Tree(Directory, Dirs(RAM_DIRS[..i])), i + 1)
    {
      Grows(tree.nodes, [], 0, RAM_DIRS[i], Directory);
      DirsMore(RAM_DIRS[..i], RAM_DIRS[i]);
      assert RAM_DIRS[..i + 1] == RAM_DIRS[..i] + [RAM_DIRS[i]];
      var ok := tree.AddChild(0, RAM_DIRS[i], Directory);
    }
    EtcThere(tree.nodes);
    var k := tree.FindChild(0, "etc");
    if k < |tree.nodes[0].children| {
      Grows(tree.nodes, ["etc"], tree.nodes[0].children[k], "hostname", Regular);
      var ok := tree.AddChild(tree.nodes[0].children[k], "hostname", Regular);
    }
  }

  // ---- Booting ----

  function TopCreates(names: seq<string>): seq<Op> {
    seq(|names|, i requires 0 <= i < |names| => Create("/" + names[i], Directory))
  }

  /** The directories the boot makes; those for the disk only if there is one. */
  function BootOps(disk: bool): seq<Op> {
    (if disk then [Create("/mnt", Directory), Create("/mnt/disk", Directory)] else []) + TopCreates(BOOT_DIRS)
  }

  function DiskDirs(disk: bool): seq<Entry> {
    if disk then [Entry("mnt", Tree(Directory, Dirs(["disk"])))] else []
  }

  /** Every one of these calls succeeds. */
  ghost predicate AllOk(fs: Fs, ops: seq<Op>) {
    forall i | 0 <= i < |ops| :: Expected(After(fs, ops[..i]), ops[i]) == Ok
  }

  lemma AllOkMore(fs: Fs, ops: seq<Op>, op: Op)
    requires AllOk(fs, ops) && Expected(After(fs, ops), op) == Ok
    ensures AllOk(fs, ops + [op])
  {
    hide Expected, After;
    var all := ops + [op];
    forall i | 0 <= i < |all|
      ensures Expected(After(fs, all[..i]), all[i]) == Ok
    {
      if i < |ops| {
        assert all[..i] == ops[..i] && all[i] == ops[i];
      } else {
        assert all[..i] == ops;
      }
    }
  }

  lemma {:induction false} AllOkJoin(fs: Fs, ops: seq<Op>, more: seq<Op>)
    requires AllOk(fs, ops) && AllOk(After(fs, ops), more)
    ensures AllOk(fs, ops + more)
    decreases |more|
  {
    hide Expected, After;
    if more == [] {
      assert ops + more == ops;
    } else {
      var n := |more| - 1;
      var init := more[..n];
      assert forall i | 0 <= i < n :: init[..i] == more[..i] && init[i] == more[i];
      AllOkJoin(fs, ops, init);
      AfterJoin(fs, ops, init);
      assert Expected(After(After(fs, ops), more[..n]), more[n]) == Ok;
      AllOkMore(fs, ops + init, more[n]);
      assert ops + init + [more[n]] == ops + more;
    }
  }

  /** Creating directories in the root appends them, whatever is there. */
  lemma {:induction false} TopCreatesAfter(fs: Fs, names: seq<string>)
    requires fs.root.kind == Directory && forall i | 0 <= i < |names| :: IsName(names[i])
    requires |fs.root.entries| + |names| <= RAMFS_MAX_CHILDREN && fs.made + |names| <= RAMFS_MAX_NODES
    ensures After(fs, TopCreates(names)) ==
            Fs(fs.root.(entries := fs.root.entries + Dirs(names)), fs.made + |names|)
    ensures AllOk(fs, TopCreates(names))
  {
    hide After, AllOk, Dirs, IsName, TopCreates, Expected, Next;
    if names == [] {
      NothingCreated(fs);
    } else {
      var n := |names| - 1;
      var init, name := names[..n], names[n];
      assert names == init + [name];
      TopCreatesAfter(fs, init);
      TopCreateStep(fs, init, name);
      TopCreatesMore(init, name);
      AfterMore(fs, TopCreates(init), Create("/" + name, Directory));
      AllOkMore(fs, TopCreates(init), Create("/" + name, Directory));
    }
  }

  lemma NothingCreated(fs: Fs)
    ensures After(fs, TopCreates([])) == fs && AllOk(fs, TopCreates([]))
            && fs.root.entries + Dirs([]) == fs.root.entries
  {}

  lemma TopCreatesMore(names: seq<string>, name: string)
    ensures TopCreates(names + [name]) == TopCreates(names) + [Create("/" + name, Directory)]
  {}

  lemma TopCreateStep(fs: Fs, names: seq<string>, name: string)
    requires fs.root.kind == Directory && IsName(name)
    requires |fs.root.entries| + |names| < RAMFS_MAX_CHILDREN && fs.made + |names| < RAMFS_MAX_NODES
    ensures var fs1 := Fs(fs.root.(entries := fs.root.entries + Dirs(names)), fs.made + |names|);
            && Expected(fs1, Create("/" + name, Directory)) == Ok
            && Next(fs1, Create("/" + name, Directory)) ==
               Fs(fs.root.(entries := fs.root.entries + Dirs(names + [name])), fs.made + |names| + 1)
  {
    hide Components, Meant, MakeStatus, Make, Dirs, IsName;
    DirsMore(names, name);
    TopPath(name);
    var fs1 := Fs(fs.root.(entries := fs.root.entries + Dirs(names)), fs.made + |names|);
    TopMake(fs1, "/" + name, name, Directory);
  }

  /** The tree after the boot. */
  function Booted(disk: bool): Fs {
    var made := if disk then 18 else 16;
    Fs(Tree(Directory, Mounted().root.entries + DiskDirs(disk) + Dirs(BOOT_DIRS)), made)
  }

  /** The directories for the disk, in a tree that has none of that name. */
  lemma DiskAfter(fs: Fs)
    requires fs.root.kind == Directory && First(Labels(fs.root.entries), "mnt") == |fs.root.entries|
    requires |fs.root.entries| < RAMFS_MAX_CHILDREN && fs.made + 2 <= RAMFS_MAX_NODES
    ensures var ops := [Create("/mnt", Directory), Create("/mnt/disk", Directory)];
            && After(fs, ops) == Fs(fs.root.(entries := fs.root.entries + DiskDirs(true)), fs.made + 2)
            && AllOk(fs, ops)
  {
    hide Components, Meant, MakeStatus, Make, First;
    var op, op' := Create("/mnt", Directory), Create("/mnt/disk", Directory);
    var fs1 := Next(fs, op);
    TopPath("mnt");
    assert "/" + "mnt" == "/mnt";
    TopMake(fs, "/mnt", "mnt", Directory);
    DiskMake(fs, fs1);
    AfterNone(fs);
    AfterMore(fs, [], op);
    AfterMore(fs, [op], op');
    assert [] + [op] == [op] && [op] + [op'] == [op, op'];
    AllOkMore(fs, [], op);
    AllOkMore(fs, [op], op');
  }

  lemma DiskMake(fs: Fs, fs1: Fs)
    requires First(Labels(fs.root.entries), "mnt") == |fs.root.entries|
             && fs1.root == WithEntry(fs.root, "mnt", Directory)
    requires fs1.made < RAMFS_MAX_NODES
    ensures MakeStatus(fs1, "/mnt/disk") == Ok
    ensures Make(fs1, "/mnt/disk", Directory) ==
            Fs(fs.root.(entries := fs.root.entries + DiskDirs(true)), fs1.made + 1)
  {
    hide First, Components, Meant;
    var n, t, u := |fs.root.entries|, Tree(Directory, []), Tree(Directory, Dirs(["disk"]));
    DiskPath();
    assert Parent(["mnt", "disk"]) == ["mnt"];
    LastEntry(fs.root, "mnt", t, u);
    assert WithEntry(t, "disk", Directory).entries == Dirs(["disk"]);
    hide At, Put, Dirs;
  }

  lemma DiskPath()
    ensures var path := "/mnt/disk";
            Target(path) == ["mnt", "disk"] && Absolute(Meant(path)) && EndsInName(Meant(path))
  {
    hide Components;
    var path := "/mnt/disk";
    assert path == "/mnt" + ("/" + "disk") && "/mnt" == "/" + "mnt" && path[0] in path;
    TopPath("mnt");
    LastComponent("/mnt", "disk");
  }

  /** An entry added last, of a new name, is found, and can be replaced. */
  lemma LastEntry(t: Tree, name: string, u: Tree, u': Tree)
    requires First(Labels(t.entries), name) == |t.entries|
    ensures var t1 := t.(entries := t.entries + [Entry(name, u)]);
            && At(t1, [name]) == Some(u)
            && Put(t1, [name], u') == t.(entries := t.entries + [Entry(name, u')])
  {
    hide First;
    var n, t1 := |t.entries|, t.(entries := t.entries + [Entry(name, u)]);
    assert Labels(t1.entries) == Labels(t.entries) + [name];
    FirstIs(Labels(t1.entries), name, n);
    assert [name][1..] == [];
    assert t1.entries[n := Entry(name, u')] == t.entries + [Entry(name, u')];
  }

  lemma BootAfter(disk: bool)
    ensures After(Mounted(), BootOps(disk)) == Booted(disk) && AllOk(Mounted(), BootOps(disk))
  {
    hide Components, Meant, MakeStatus, Make, First, After, AllOk;
    var fs := Mounted();
    var ops := if disk then [Create("/mnt", Directory), Create("/mnt/disk", Directory)] else [];
    AfterNone(fs);
    NoneOk(fs);
    if disk {
      NoMnt();
      DiskAfter(fs);
    }
    var fs1 := After(fs, ops);
    assert fs1 == Fs(Tree(Directory, fs.root.entries + DiskDirs(disk)), if disk then 11 else 9);
    BootNames();
    TopCreatesAfter(fs1, BOOT_DIRS);
    AfterJoin(fs, ops, TopCreates(BOOT_DIRS));
    AllOkJoin(fs, ops, TopCreates(BOOT_DIRS));
  }

  lemma NoneOk(fs: Fs)
    ensures AllOk(fs, [])
  {}

  lemma BootNames()
    ensures forall i | 0 <= i < |BOOT_DIRS| :: IsName(BOOT_DIRS[i])
  {}

  lemma NoMnt()
    ensures First(Labels(Mounted().root.entries), "mnt") == |Mounted().root.entries| == 7
  {
    hide First;
    MountedLabels();
    FirstIs(RAM_DIRS, "mnt", 7);
  }

  lemma MountedLabels()
    ensures Labels(Mounted().root.entries) == RAM_DIRS
  {
    DirsMore(RAM_DIRS, "");
  }

  /** From nothing to the tree the first process sees. */
  method Boot(disk: bool) returns (tree: FileTree, statuses: seq<Status>)
    ensures fresh(tree) && tree.Valid() && View(tree.nodes) == Booted(disk)
    ensures statuses == seq(|BootOps(disk)|, _ => Ok)
  {
    hide View, Booted, Mounted, After, Expected;
    tree := Mount(["/", "/proc"]);
    BootAfter(disk);
    BootOurs(tree, disk);
    statuses := VfsRun.Run(tree, BootOps(disk));
  }

  lemma BootOurs(tree: FileTree, disk: bool)
    requires tree.mounts == ["/", "/proc"]
    ensures forall i | 0 <= i < |BootOps(disk)| :: tree.Ours(BootOps(disk)[i].path) && |BootOps(disk)[i].path| < 255
  {
    forall i | 0 <= i < |BootOps(disk)|
      ensures tree.Ours(BootOps(disk)[i].path) && |BootOps(disk)[i].path| < 255
    {
      var path := BootOps(disk)[i].path;
      assert path == "/mnt" || path == "/mnt/disk" || exists j | 0 <= j < |BOOT_DIRS| :: path == "/" + BOOT_DIRS[j];
      assert |path| < 3 || path[1] != 'p';
    }
  }

  /**
   * So after the boot names are not distinct: home, etc, tmp and bin are there twice. Unlinking "/etc" removes the
   * directory with the host name's file and uncovers the other, which is empty.
   */
  lemma BootDoubles(disk: bool)
    ensures !Distinct(Booted(disk).root)
    ensures var fs := Next(Booted(disk), Remove("/etc"));
            && At(Booted(disk).root, ["etc", "hostname"]).Some? && Expected(Booted(disk), Remove("/etc")) == Ok
            && At(fs.root, ["etc"]) == Some(Tree(Directory, []))
  {
    hide First, Components, Meant;
    var fs := Booted(disk);
    BootEtc(disk);
    var labels := Labels(fs.root.entries);
    assert labels[2] == labels[if disk then 10 else 9];
    TopPath("etc");
    assert "/" + "etc" == "/etc";
    TopRemove(fs, "/etc", "etc");
    assert ["etc"][1..] == [] && ["etc", "hostname"][1..] == ["hostname"] && ["hostname"][1..] == [];
  }

  function BootNamesOf(disk: bool): seq<string> {
    RAM_DIRS + (if disk then ["mnt"] else []) + BOOT_DIRS
  }

  lemma BootLabels(disk: bool)
    ensures Labels(Booted(disk).root.entries) == BootNamesOf(disk)
  {
    MountedLabels();
    DirsMore(BOOT_DIRS, "");
    assert Labels(DiskDirs(disk)) == if disk then ["mnt"] else [];
  }

  lemma NotEtc(disk: bool)
    ensures var names, k := BootNamesOf(disk), if disk then 10 else 9;
            && names[2] == names[k] == Filled(names, 2)[k] == "etc"
            && (forall i | 0 <= i < 2 :: names[i] != "etc") && (forall i | 0 <= i < k :: Filled(names, 2)[i] != "etc")
  {
    var names, k := BootNamesOf(disk), if disk then 10 else 9;
    forall i | 0 <= i < k
      ensures Filled(names, 2)[i][0] != 'e' && (i < 2 ==> names[i][0] != 'e')
    {}
  }

  /** The first "etc" is the third entry, the second comes from the boot. */
  lemma BootEtc(disk: bool)
    ensures var entries, k := Booted(disk).root.entries, if disk then 10 else 9;
            && First(Labels(entries), "etc") == 2 < k < |entries| && First(Labels(Filled(entries, 2)), "etc") == k
            && entries[k] == Filled(entries, 2)[k] == Entry("etc", Tree(Directory, []))
            && entries[2].tree.entries != [] && Labels(entries[2].tree.entries)[0] == "hostname"
  {
    hide First;
    var entries, k := Booted(disk).root.entries, if disk then 10 else 9;
    BootLabels(disk);
    LabelsFilled(entries, 2);
    NotEtc(disk);
    FirstIs(Labels(entries), "etc", 2);
    FirstIs(Filled(Labels(entries), 2), "etc", k);
  }
}
