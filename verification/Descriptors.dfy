/**
 * Descriptor life cycle across kernel/proc/process.c, kernel/syscall/syscall.c, kernel/fs/vfs.c and kernel/ipc/pipe.c.
 */
module Descriptors {
  import opened SchedSpec
  import opened FdSpec

  // ---- What each system call does ----

  /** All of the kernel's state that matters here; `next` is where the next object is allocated. */
  datatype View = View(table: Table, states: seq<PState>, files: Files, pipes: Pipes, cur: nat, next: nat)

  ghost predicate ViewOk(v: View) {
    TableOk(v.table) && |v.states| == MAX_PROCS && v.cur < MAX_PROCS
  }

  function Booted(): View {
    View(seq(MAX_PROCS, _ => seq(MAX_FDS, _ => -1)), seq(MAX_PROCS, _ => Unused)[0 := Running], map[], map[], 0, 0)
  }

  /** The current process exists and has not exited. */
  ghost predicate InProgress(v: View)
    requires ViewOk(v)
  {
    v.states[v.cur] != Unused && v.states[v.cur] != Zombie
  }

  /** The lowest empty descriptor at or above i, or -1. */
  ghost function LowestEmpty(fds: seq<int>, i: nat): (k: int)
    requires i <= |fds| && forall j | 0 <= j < i :: fds[j] >= 0
    ensures -1 <= k < |fds|
    ensures k >= 0 ==> fds[k] < 0 && forall j | 0 <= j < k :: fds[j] >= 0
    ensures k < 0 ==> forall j | 0 <= j < |fds| :: fds[j] >= 0
    decreases |fds| - i
  {
    if i == |fds| then -1 else if fds[i] < 0 then i else LowestEmpty(fds, i + 1)
  }

  /** A new file with one reference, in the lowest empty descriptor of the current process if there is one. */
  ghost function Placed(v: View, end: End): (v': View)
    requires ViewOk(v)
    ensures ViewOk(v')
  {
    var fd := LowestEmpty(v.table[v.cur], 0);
    v.(table := if fd < 0 then v.table else Put(v.table, v.cur, fd, v.next),
       files := v.files[v.next as int := File(1, end)], next := v.next + 1)
  }

  /** `sys_open` of a path that resolves: without an empty descriptor the new file is closed again. */
  ghost function Opened(v: View): (v': View)
    requires ViewOk(v)
    ensures ViewOk(v')
  {
    if LowestEmpty(v.table[v.cur], 0) < 0 then v else Placed(v, Regular)
  }

  /** `sys_close`. */
  ghost function Closed(v: View, fd: int): (v': View)
    requires ViewOk(v)
    ensures ViewOk(v')
  {
    if !(0 <= fd < MAX_FDS) || v.table[v.cur][fd] !in v.files then v else
    var f := v.table[v.cur][fd];
    var t := Put(v.table, v.cur, fd, -1);
    if v.files[f].refcount > 1 then v.(table := t,
        files := v.files[f := v.files[f].(refcount := v.files[f].refcount - 1)])
    else if OpenIn(v.files[f].end, v.pipes) then v.(table := t, files := v.files - {f},
        pipes := AfterClose(v.pipes, v.files[f].end))
    else v
  }

  /** `pipe_create`; without memory for the files the pipe stays behind. */
  ghost function Piped(v: View, memory: bool): (v': View)
    requires ViewOk(v)
    ensures ViewOk(v')
  {
    var v1 := v.(pipes := v.pipes[v.next := PipeObject(2, false, false)], next := v.next + 1);
    if memory then Placed(Placed(v1, ReadEnd(v.next)), WriteEnd(v.next)) else v1
  }

  /** The two lowest empty descriptors, the first one taken by file f; -1 for what there is not. */
  ghost function PipeFds(fds: seq<int>, f: nat): (int, int) {
    var r := LowestEmpty(fds, 0);
    (r, if r < 0 then -1 else LowestEmpty(fds[r := f], 0))
  }

  /** One more reference to every file among these descriptors. */
  ghost function Shared(files: Files, fds: seq<int>): Files {
    map f | f in files :: if f in fds then files[f].(refcount := files[f].refcount + 1) else files[f]
  }

  /** `sys_fork`; a table entry whose memory is missing stays ready without descriptors. */
  ghost function Forked(v: View, cloned: bool, memory: bool): (v': View)
    requires ViewOk(v)
    ensures ViewOk(v')
  {
    var c := LowestUnused(v.states, 1);
    if !cloned || c < 0 then v else
    var v1 := v.(states := v.states[c := Ready]);
    if memory then v1.(table := v.table[c := v.table[v.cur]], files := Shared(v.files, v.table[v.cur])) else v1
  }

  /** `proc_exit`: the descriptors go, their references stay. */
  ghost function Exited(v: View): (v': View)
    requires ViewOk(v)
    ensures ViewOk(v')
  {
    v.(states := v.states[v.cur := Zombie], table := v.table[v.cur := seq(MAX_FDS, _ => -1)])
  }

  /** `sys_wait4` on a process that has exited. */
  ghost function Waited(v: View, p: nat): (v': View)
    requires ViewOk(v) && p < MAX_PROCS
    ensures ViewOk(v')
  {
    if v.states[p] == Zombie then v.(states := v.states[p := Unused]) else v
  }

  /** System calls of the current process, and switches to another one. */
  datatype Call =
    | OpenCall(found: bool) | CloseCall(fd: int) | PipeCall(memory: bool) | ForkCall(cloned: bool, memory: bool)
    | ExitCall | WaitCall(p: nat) | SwitchTo(p: nat)

  /** A process that has exited makes no calls. */
  ghost function Called(v: View, call: Call): (v': View)
    requires ViewOk(v)
    ensures ViewOk(v')
  {
    match call
    case SwitchTo(p) => if p < MAX_PROCS then v.(cur := p) else v
    case WaitCall(p) => if InProgress(v) && p < MAX_PROCS then Waited(v, p) else v
    case OpenCall(found) => if InProgress(v) && found then Opened(v) else v
    case CloseCall(fd) => if InProgress(v) then Closed(v, fd) else v
    case PipeCall(memory) => if InProgress(v) then Piped(v, memory) else v
    case ForkCall(cloned, memory) => if InProgress(v) then Forked(v, cloned, memory) else v
    case ExitCall => if InProgress(v) then Exited(v) else v
  }

  ghost function AfterCalls(v: View, calls: seq<Call>): (v': View)
    requires ViewOk(v)
    ensures ViewOk(v')
  {
    if calls == [] then v else Called(AfterCalls(v, calls[..|calls| - 1]), calls[|calls| - 1])
  }

  // ---- The same, descriptor by descriptor ----

  /** Only descriptor i of process p may have changed, to f. */
  ghost predicate OnlyAt(t: Table, t': Table, p: nat, i: int, f: int)
    requires TableOk(t) && TableOk(t')
  {
    forall q, j | 0 <= q < MAX_PROCS && 0 <= j < MAX_FDS :: t'[q][j] == if q == p && j == i then f else t[q][j]
  }

  /** After an open that got a descriptor: there, and nowhere else, is a new regular file with one reference. */
  ghost predicate OpenResult(v: View, v': View, fd: int)
    requires ViewOk(v) && ViewOk(v')
  {
    && v'.states == v.states && v'.pipes == v.pipes && v'.cur == v.cur
    && (fd < 0 ==> v' == v && forall i | 0 <= i < MAX_FDS :: v.table[v.cur][i] >= 0)
    && (fd >= 0 ==> fd < MAX_FDS && v.table[v.cur][fd] < 0
                    && OnlyAt(v.table, v'.table, v.cur, fd, v.next)
                    && v'.files == v.files[v.next as int := File(1, Regular)])
  }

  /** After a pipe was made with both descriptors: the first is its read end, the second its write end. */
  ghost predicate PipeResult(v: View, v': View, rfd: int, wfd: int)
    requires ViewOk(v) && ViewOk(v')
  {
    && v'.states == v.states && v'.cur == v.cur && v'.pipes == v.pipes[v.next := PipeObject(2, false, false)]
    && (rfd >= 0 && wfd >= 0 ==>
          && rfd < MAX_FDS && wfd < MAX_FDS && rfd != wfd && v.table[v.cur][rfd] < 0 && v.table[v.cur][wfd] < 0
          && (forall q, j | 0 <= q < MAX_PROCS && 0 <= j < MAX_FDS && !(q == v.cur && (j == rfd || j == wfd)) ::
                v'.table[q][j] == v.table[q][j])
          && (var r, w := v'.table[v.cur][rfd], v'.table[v.cur][wfd];
              r != w && v'.files == v.files[r := File(1, ReadEnd(v.next))][w := File(1, WriteEnd(v.next))]))
  }

  /** After a fork that made a child: its descriptors are the parent's, and just their files have one reference more. */
  ghost predicate ForkResult(v: View, v': View, c: int)
    requires ViewOk(v) && ViewOk(v')
  {
    && v'.pipes == v.pipes && v'.cur == v.cur && (c < 0 ==> v'.table == v.table && v'.files == v.files)
    && (c >= 0 ==>
          && c < MAX_PROCS && v.states[c] == Unused && v'.states == v.states[c := Ready]
          && (forall q, j | 0 <= q < MAX_PROCS && 0 <= j < MAX_FDS ::
                v'.table[q][j] == if q == c then v.table[v.cur][j] else v.table[q][j])
          && v'.files.Keys == v.files.Keys
          && (forall f | f in v.files :: v'.files[f].end == v.files[f].end
                && v'.files[f].refcount == v.files[f].refcount + if f in v.table[v.cur] then 1 else 0))
  }

  /** After an exit: a zombie with no descriptor, all else as before, the counts of its files too. */
  ghost predicate ExitResult(v: View, v': View)
    requires ViewOk(v) && ViewOk(v')
  {
    && v'.files == v.files && v'.pipes == v.pipes && v'.cur == v.cur && v'.states == v.states[v.cur := Zombie]
    && forall q, j | 0 <= q < MAX_PROCS && 0 <= j < MAX_FDS ::
         v'.table[q][j] == if q == v.cur then -1 else v.table[q][j]
  }

  /** The state of process p after a call: only exits, waits and forks change any. */
  ghost predicate StateIs(v: View, call: Call, v': View, p: nat)
    requires ViewOk(v) && ViewOk(v') && p < MAX_PROCS
  {
    v'.states[p] ==
    if !InProgress(v) then v.states[p]
    else if call.ExitCall? && p == v.cur then Zombie
    else if call.WaitCall? && p == call.p && v.states[p] == Zombie then Unused
    else if call.ForkCall? && call.cloned && p > 0 && v.states[p] == Unused
        && (forall q | 0 < q < p :: v.states[q] != Unused) then Ready
    else v.states[p]
  }

  lemma StateAfter(v: View, call: Call, p: nat)
    requires ViewOk(v) && p < MAX_PROCS
    ensures StateIs(v, call, Called(v, call), p)
    ensures Called(v, call).cur == if call.SwitchTo? && call.p < MAX_PROCS then call.p else v.cur
    ensures call.WaitCall? || call.SwitchTo? ==>
              var v' := Called(v, call); v'.table == v.table && v'.files == v.files && v'.pipes == v.pipes
  {
    hide LowestEmpty;
  }

  lemma OpenedIs(v: View)
    requires ViewOk(v)
    ensures OpenResult(v, Opened(v), LowestEmpty(v.table[v.cur], 0))
  {
    hide LowestEmpty;
  }

  lemma PipedIs(v: View)
    requires ViewOk(v)
    ensures var fds := PipeFds(v.table[v.cur], v.next + 1); PipeResult(v, Piped(v, true), fds.0, fds.1)
  {
    hide LowestEmpty;
  }

  lemma ForkedIs(v: View)
    requires ViewOk(v)
    ensures ForkResult(v, Forked(v, true, true), LowestUnused(v.states, 1))
  {
    hide LowestUnused;
  }

  lemma ExitedIs(v: View)
    requires ViewOk(v)
    ensures ExitResult(v, Exited(v))
  {}

  /** Opening a file and closing it again leaves everything as it was. */
  lemma OpenThenClose(v: View)
    requires ViewOk(v) && v.next !in v.files && (forall i | 0 <= i < MAX_FDS :: v.table[v.cur][i] >= -1)
    ensures var fd := LowestEmpty(v.table[v.cur], 0);
            fd >= 0 ==> Closed(Opened(v), fd) == v.(next := v.next + 1)
  {
    hide LowestEmpty;
    var fd := LowestEmpty(v.table[v.cur], 0);
    if fd >= 0 {
      var v1 := Opened(v);
      assert v1.table[v.cur][fd] == v.next;
      assert v1.files - {v.next as int} == v.files;
      assert v1.table[v.cur][fd := -1] == v.table[v.cur];
      assert Put(v1.table, v.cur, fd, -1) == v.table;
    }
  }

  // ---- The kernel ----

  /** A process that has exited, or none at all, has nothing open. */
  ghost predicate GoneHaveNone(t: Table, states: seq<PState>)
    requires TableOk(t) && |states| == MAX_PROCS
  {
    forall p, i | 0 <= p < MAX_PROCS && 0 <= i < MAX_FDS
        && (states[p] == Unused || states[p] == Zombie) :: t[p][i] == -1
  }

  ghost predicate Bounded(files: Files, next: nat, forks: nat) {
    forall f | f in files :: f < next && files[f].refcount <= 1 + forks
  }

  ghost predicate PipesBelow(pipes: Pipes, next: nat) {
    forall q | q in pipes :: q < next
  }

  class Kernel {
    var table: Table
    var states: seq<PState>
    var files: Files
    var pipes: Pipes
    var cur: nat

    /** Where the next object is allocated. */
    var next: nat

    /** References that no descriptor holds any more and nothing will drop. */
    ghost var lost: map<int, nat>

    /** How often a process was forked. */
    ghost var forks: nat

    ghost predicate Valid()
      reads this
    {
      && Consistent(table, files, lost, pipes)
      && |states| == MAX_PROCS && cur < MAX_PROCS
      && GoneHaveNone(table, states)
      && Bounded(files, next, forks) && PipesBelow(pipes, next)
    }

    /** The current process exists and has not exited. */
    predicate Alive()
      requires cur < |states|
      reads this
    {
      states[cur] != Unused && states[cur] != Zombie
    }

    ghost function Now(): View
      reads this
    {
      View(table, states, files, pipes, cur, next)
    }

    constructor ()
      ensures Valid() && Now() == Booted() && forks == 0
    {
      table := seq(MAX_PROCS, _ => seq(MAX_FDS, _ => -1));
      states := seq(MAX_PROCS, _ => Unused)[0 := Running];
      files, pipes, cur, next, lost, forks := map[], map[], 0, 0, map[], 0;
    }

    /** `proc_alloc_fd`: the lowest empty descriptor, or -1. */
    method FindFd() returns (fd: int)
      requires TableOk(table) && cur < MAX_PROCS
      ensures fd == LowestEmpty(table[cur], 0)
    {
      for i := 0 to MAX_FDS
        invariant forall j | 0 <= j < i :: table[cur][j] >= 0
      {
        if table[cur][i] < 0 {
          return i;
        }
      }
      return -1;
    }

    /** `sys_open`, once the path has been resolved. */
    method Open() returns (fd: int)
      requires Valid() && Alive()
      modifies this
      ensures Valid() && forks == old(forks)
      ensures ViewOk(old(Now())) && Now() == Opened(old(Now())) && fd == LowestEmpty(old(table)[cur], 0)
      ensures OpenResult(old(Now()), Now(), fd)
    {
      hide Consistent, LowestEmpty, OpenResult;
      Shape(table, files, lost, pipes);
      OpenedIs(Now());
      Shape(table, files, lost, pipes);
      fd := FindFd();
      if fd < 0 {
        return;
      }
      FreshFile(files, next, forks);
      AddRegular(files, pipes, lost, table, next);
      OpenStep(table, files, lost, pipes, cur, fd, next, Regular, pipes);
      table := Put(table, cur, fd, next);
      files := files[next as int := File(1, Regular)];
      lost := lost[next as int := 0];
      next := next + 1;
    }

    /** `vfs_close`: one reference dropped, and with the last one the file released and its pipe end closed. */
    method DropReference(f: int)
      requires f in files && OpenIn(files[f].end, pipes)
      modifies this`files, this`pipes
      ensures old(files[f].refcount) > 1 ==>
              files == old(files)[f := old(files)[f].(refcount := old(files[f].refcount) - 1)] && pipes == old(pipes)
      ensures old(files[f].refcount) <= 1 ==>
                && files == old(files) - {f}
                && pipes == AfterClose(old(pipes), old(files[f].end))
    {
      var file := files[f];
      if file.refcount - 1 > 0 {
        files := files[f := file.(refcount := file.refcount - 1)];
        return;
      }
      ClosePipeEnd(file.end);
      files := files - {f};
    }

    /** `pipe_close`. */
    method ClosePipeEnd(end: End)
      requires OpenIn(end, pipes)
      modifies this`pipes
      ensures pipes == AfterClose(old(pipes), end)
    {
      if end.Regular? {
        return;
      }
      var q := end.pipe;
      if end.WriteEnd? {
        pipes := pipes[q := pipes[q].(writeClosed := true)];
      } else {
        pipes := pipes[q := pipes[q].(readClosed := true)];
      }
      pipes := pipes[q := pipes[q].(refcount := pipes[q].refcount - 1)];
      if pipes[q].refcount <= 0 {
        pipes := pipes - {q};
      }
    }

    /**
     * `sys_close`: the file is released exactly when this was the only descriptor for it anywhere and no reference was
     * lost.
     */
    method Close(fd: int) returns (ok: bool)
      requires Valid() && Alive()
      modifies this
      ensures Valid() && forks == old(forks)
      ensures ViewOk(old(Now())) && Now() == Closed(old(Now()), fd)
      ensures ok <==> 0 <= fd < MAX_FDS && old(table)[cur][fd] >= 0
      ensures states == old(states) && TableOk(table)
              && if ok then OnlyAt(old(table), table, cur, fd, -1) else table == old(table)
      ensures ok ==> var f := old(table)[cur][fd];
                f in old(files) && f in old(lost)
                    && (f !in files <==> Slots(old(table), f) == {(cur, fd)} && old(lost)[f] == 0)
    {
      hide Consistent, Slots;
      Shape(table, files, lost, pipes);
      if fd < 0 || fd >= MAX_FDS || table[cur][fd] < 0 {
        return false;
      }
      var f := table[cur][fd];
      CloseStep(table, files, lost, pipes, cur, fd);
      DropReference(f);
      table := Put(table, cur, fd, -1);
      if f !in files {
        lost := lost - {f};
      }
      ok := true;
    }

    /**
     * `pipe_create`, by what it manages to allocate: the pipe alone, or all five objects. A file without a descriptor
     * keeps its reference.
     */
    method MakePipe(memory: bool) returns (rfd: int, wfd: int)
      requires Valid() && Alive()
      modifies this
      ensures Valid() && forks == old(forks)
      ensures ViewOk(old(Now())) && Now() == Piped(old(Now()), memory)
      ensures (rfd, wfd) == if memory then PipeFds(old(table)[cur], old(next) + 1) else (-1, -1)
      ensures memory ==> PipeResult(old(Now()), Now(), rfd, wfd)
    {
      hide Consistent, Slots, PipesOk, LowestEmpty, GoneHaveNone, Bounded, PipesBelow, PipeResult;
      Shape(table, files, lost, pipes);
      PipedIs(Now());
      var q := next;
      RoomAbove(files, pipes, next, forks);
      PipeAdded(table, files, lost, pipes, q);
      pipes := pipes[q := PipeObject(2, false, false)];
      next := next + 1;
      rfd, wfd := -1, -1;
      if !memory {
        return;
      }
      EndsFree(table, files, lost, old(pipes), q);
      EndAdded(table, files, lost, pipes, next, ReadEnd(q));
      rfd := PlaceFile(ReadEnd(q));
      Shape(table, files, lost, pipes);
      EndAdded(table, files, lost, pipes, next, WriteEnd(q));
      wfd := PlaceFile(WriteEnd(q));
    }

    /** A new file, with a descriptor if there is one left. */
    method PlaceFile(end: End) returns (fd: int)
      requires Valid() && Alive() && PipesOk(files[next as int := File(1, end)], pipes)
      modifies this`table, this`files, this`lost, this`next
      ensures Valid() && old(next) !in old(files)
      ensures ViewOk(old(Now())) && Now() == Placed(old(Now()), end) && fd == LowestEmpty(old(table)[cur], 0)
    {
      hide Consistent, PipesOk, LowestEmpty;
      Shape(table, files, lost, pipes);
      FreshFile(files, next, forks);
      fd := FindFd();
      if fd >= 0 {
        OpenStep(table, files, lost, pipes, cur, fd, next, end, pipes);
        table := Put(table, cur, fd, next);
        lost := lost[next as int := 0];
      } else {
        LostStep(table, files, lost, pipes, next, end, pipes);
        lost := lost[next as int := 1];
      }
      files := files[next as int := File(1, end)];
      next := next + 1;
    }

    /**
     * `proc_create`, as far as the table goes: the lowest unused entry becomes ready, even when the memory for it is
     * then missing.
     */
    method CreateProcess(memory: bool) returns (c: int)
      requires Valid() && Alive()
      modifies this`states
      ensures Valid() && Alive()
      ensures var u := LowestUnused(old(states), 1);
              && c == (if memory then u else -1)
              && states == if u < 0 then old(states) else old(states)[u := Ready]
      ensures c >= 0 ==> c != cur && TableOk(table) && forall i | 0 <= i < MAX_FDS :: table[c][i] == -1
    {
      hide Consistent;
      Shape(table, files, lost, pipes);
      for i := 1 to MAX_PROCS
        invariant states == old(states) && LowestUnused(states, 1) == LowestUnused(states, i)
      {
        if states[i] == Unused {
          states := states[i := Ready];
          if !memory {
            return -1;
          }
          return i;
        }
      }
      return -1;
    }

    /** The inheriting loop of `sys_fork`. */
    method Inherit(c: nat)
      requires Valid() && Alive() && c < MAX_PROCS && c != cur && states[c] == Ready && forks < INT_MAX - 1
      requires TableOk(table) && forall i | 0 <= i < MAX_FDS :: table[c][i] == -1
      modifies this`table, this`files, this`forks
      ensures Valid() && Alive() && forks == old(forks) + 1
      ensures table == old(table)[c := old(table)[cur]] && files == Shared(old(files), old(table)[cur])
    {
      hide Consistent, Slots;
      ghost var t0, files0 := table, files;
      for i := 0 to MAX_FDS
        invariant TableOk(table) && InheritedUpTo(t0, table, cur, c, i) && forks == old(forks)
        invariant Consistent(table, files, lost, pipes) && GoneHaveNone(table, states)
        invariant files.Keys == files0.Keys && forall f | f in files :: GrownBy(files0[f], files[f], f in t0[cur][..i])
      {
        Shape(table, files, lost, pipes);
        var f := table[cur][i];
        if f >= 0 {
          NotYet(t0, table, files, lost, pipes, cur, c, i);
          InheritStep(table, files, lost, pipes, cur, c, i);
          assert files[f].refcount + 1 <= INT_MAX;
          files := files[f := files[f].(refcount := files[f].refcount + 1)];
        }
        InheritedMore(t0, table, cur, c, i, f);
        table := Put(table, c, i, f);
      }
      forks := forks + 1;
      InheritedAll(t0, table, cur, c);
      SharedAll(files0, files, t0[cur]);
    }

    /** `sys_fork`: the child has the parent's descriptors, each counted. */
    method Fork(cloned: bool, memory: bool) returns (c: int)
      requires Valid() && Alive() && forks < INT_MAX - 1
      modifies this
      ensures Valid() && old(forks) <= forks <= old(forks) + 1
      ensures ViewOk(old(Now())) && Now() == Forked(old(Now()), cloned, memory)
      ensures c == if cloned && memory then LowestUnused(old(states), 1) else -1
      ensures ForkResult(old(Now()), Now(), c)
    {
      if !cloned {
        return -1;
      }
      c := CreateProcess(memory);
      if c >= 0 {
        Inherit(c);
      }
    }

    /** `proc_exit`: every descriptor is emptied, and no reference is dropped. */
    method Exit()
      requires Valid() && Alive()
      modifies this`states, this`table, this`lost
      ensures Valid() && ViewOk(old(Now())) && Now() == Exited(old(Now())) && ExitResult(old(Now()), Now())
    {
      hide Consistent, Slots;
      ghost var t0 := table;
      Shape(table, files, lost, pipes);
      for i := 0 to MAX_FDS
        invariant TableOk(table) && ClearedUpTo(t0, table, cur, i) && states == old(states)
        invariant Consistent(table, files, lost, pipes) && GoneHaveNone(table, states)
      {
        Shape(table, files, lost, pipes);
        if table[cur][i] >= 0 {
          ForgetStep(table, files, lost, pipes, cur, i);
          lost := lost[table[cur][i] := lost[table[cur][i]] + 1];
          table := Put(table, cur, i, -1);
        }
      }
      states := states[cur := Zombie];
      ClearedAll(t0, table, cur);
    }

    /** `sys_wait4` on a process that has exited. */
    method Wait(p: nat)
      requires Valid() && p < MAX_PROCS
      modifies this`states
      ensures Valid() && ViewOk(old(Now())) && Now() == Waited(old(Now()), p)
    {
      if states[p] == Zombie {
        states := states[p := Unused];
      }
    }
  }

  /** Descriptors 0 .. i-1 of the parent are the child's too. */
  ghost predicate InheritedUpTo(t0: Table, t: Table, p: nat, c: nat, i: nat)
    requires TableOk(t0) && TableOk(t) && p < MAX_PROCS && c < MAX_PROCS && i <= MAX_FDS
  {
    && (forall q | 0 <= q < MAX_PROCS && q != c :: t[q] == t0[q])
    && (forall j | 0 <= j < i :: t[c][j] == t0[p][j])
    && (forall j | i <= j < MAX_FDS :: t[c][j] == -1)
  }

  ghost predicate GrownBy(f: File, f': File, one: bool) {
    f' == f.(refcount := f.refcount + (if one then 1 else 0))
  }

  lemma NotYet(t0: Table, t: Table, files: Files, lost: map<int, nat>, pipes: Pipes, p: nat, c: nat, i: nat)
    requires TableOk(t0) && Consistent(t, files, lost, pipes) && p < MAX_PROCS && c < MAX_PROCS && p != c && i < MAX_FDS
    requires InheritedUpTo(t0, t, p, c, i) && t[p][i] >= 0
    ensures t[p][i] !in t[c] && t[c][i] == -1 && t[p][i] !in t0[p][..i]
  {
    hide PipesOk, Slots;
    assert t[p] == t0[p];
    forall j | 0 <= j < MAX_FDS
      ensures t[c][j] != t[p][i]
    {
      if j < i {
        assert t[c][j] == t[p][j];
      }
    }
  }

  lemma InheritedMore(t0: Table, t: Table, p: nat, c: nat, i: nat, f: int)
    requires TableOk(t0) && TableOk(t) && p < MAX_PROCS && c < MAX_PROCS && p != c && i < MAX_FDS
    requires InheritedUpTo(t0, t, p, c, i) && f == t[p][i]
    ensures InheritedUpTo(t0, Put(t, c, i, f), p, c, i + 1)
    ensures forall g :: g in t0[p][..i + 1] <==> g in t0[p][..i] || g == f
    ensures forall q, j | 0 <= q < MAX_PROCS && q != c && 0 <= j < MAX_FDS :: Put(t, c, i, f)[q][j] == t[q][j]
    ensures f == -1 ==> Put(t, c, i, f) == t
  {
    assert t[p] == t0[p];
    assert t0[p][..i + 1] == t0[p][..i] + [f];
    if f == -1 {
      assert t[c][i := -1] == t[c];
    }
  }

  lemma SharedAll(files: Files, files': Files, fds: seq<int>)
    requires |fds| == MAX_FDS && files'.Keys == files.Keys
             && forall f | f in files' :: GrownBy(files[f], files'[f], f in fds[..MAX_FDS])
    ensures files' == Shared(files, fds)
  {
    assert fds[..MAX_FDS] == fds;
    forall f | f in files'
      ensures files'[f] == Shared(files, fds)[f]
    {
      assert GrownBy(files[f], files'[f], f in fds);
    }
  }

  lemma InheritedAll(t0: Table, t: Table, p: nat, c: nat)
    requires TableOk(t0) && TableOk(t) && p < MAX_PROCS && c < MAX_PROCS && InheritedUpTo(t0, t, p, c, MAX_FDS)
    ensures t == t0[c := t0[p]]
  {
    assert t[c] == t0[p];
  }

  ghost predicate ClearedUpTo(t0: Table, t: Table, p: nat, i: nat)
    requires TableOk(t0) && TableOk(t) && p < MAX_PROCS && i <= MAX_FDS
  {
    && (forall q | 0 <= q < MAX_PROCS && q != p :: t[q] == t0[q])
    && (forall j | 0 <= j < i :: t[p][j] == -1)
    && (forall j | i <= j < MAX_FDS :: t[p][j] == t0[p][j])
  }

  lemma ClearedAll(t0: Table, t: Table, p: nat)
    requires TableOk(t0) && TableOk(t) && p < MAX_PROCS && ClearedUpTo(t0, t, p, MAX_FDS)
    ensures t == t0[p := seq(MAX_FDS, _ => -1)]
  {
    assert t[p] == seq(MAX_FDS, _ => -1);
  }

  lemma Shape(t: Table, files: Files, lost: map<int, nat>, pipes: Pipes)
    requires Consistent(t, files, lost, pipes)
    ensures TableOk(t) && lost.Keys == files.Keys && forall f | f in files :: f >= 0
    ensures forall p, i | 0 <= p < MAX_PROCS && 0 <= i < MAX_FDS :: t[p][i] == -1 || (t[p][i] >= 0 && t[p][i] in files)
  {
    hide PipesOk, Slots;
  }

  lemma FreshFile(files: Files, next: nat, forks: nat)
    requires Bounded(files, next, forks)
    ensures next !in files
  {}

  lemma AddRegular(files: Files, pipes: Pipes, lost: map<int, nat>, t: Table, f: nat)
    requires Consistent(t, files, lost, pipes) && f !in files
    ensures PipesOk(files[f := File(1, Regular)], pipes)
  {}

  lemma RoomAbove(files: Files, pipes: Pipes, next: nat, forks: nat)
    requires Bounded(files, next, forks) && PipesBelow(pipes, next)
    ensures next !in files && next + 1 !in files && next !in pipes
    ensures Bounded(files, next + 1, forks) && PipesBelow(pipes[next := PipeObject(2, false, false)], next + 1)
  {}

  lemma PipeAdded(t: Table, files: Files, lost: map<int, nat>, pipes: Pipes, q: nat)
    requires Consistent(t, files, lost, pipes) && q !in pipes
    ensures Consistent(t, files, lost, pipes[q := PipeObject(2, false, false)])
  {
    hide Slots;
  }

  /** No file is an end of this pipe. */
  ghost predicate NoEnd(files: Files, q: nat, write: bool) {
    forall f | f in files :: files[f].end != if write then WriteEnd(q) else ReadEnd(q)
  }

  lemma EndsFree(t: Table, files: Files, lost: map<int, nat>, pipes: Pipes, q: nat)
    requires Consistent(t, files, lost, pipes) && q !in pipes
    ensures NoEnd(files, q, true) && NoEnd(files, q, false)
  {
    hide Slots;
  }

  lemma EndAdded(t: Table, files: Files, lost: map<int, nat>, pipes: Pipes, f: nat, end: End)
    requires Consistent(t, files, lost, pipes) && f !in files && !end.Regular? && OpenIn(end, pipes)
             && NoEnd(files, end.pipe, end.WriteEnd?)
    ensures PipesOk(files[f as int := File(1, end)], pipes)
  {
    hide Slots;
  }

  // ---- Runs ----

  ghost function ForkCount(calls: seq<Call>): nat {
    if calls == [] then 0 else ForkCount(calls[..|calls| - 1]) + (if calls[|calls| - 1].ForkCall? then 1 else 0)
  }

  /**
   * Every descriptor refers to a file that is there, whose count covers all descriptors for it, and whose pipe, if any,
   * is there with this end open.
   */
  ghost predicate Safe(t: Table, files: Files, pipes: Pipes) {
    && TableOk(t)
    && forall p, i | 0 <= p < MAX_PROCS && 0 <= i < MAX_FDS && t[p][i] != -1 ::
         && t[p][i] in files && |Slots(t, t[p][i])| <= files[t[p][i]].refcount
         && OpenIn(files[t[p][i]].end, pipes)
  }

  lemma ConsistentSafe(t: Table, files: Files, lost: map<int, nat>, pipes: Pipes)
    requires Consistent(t, files, lost, pipes)
    ensures Safe(t, files, pipes)
  {
    hide Slots;
  }

  method DoCall(k: Kernel, call: Call)
    requires k.Valid() && (call.ForkCall? ==> k.forks < INT_MAX - 1)
    modifies k
    ensures k.Valid() && old(k.forks) <= k.forks <= old(k.forks) + (if call.ForkCall? then 1 else 0)
    ensures ViewOk(old(k.Now())) && k.Now() == Called(old(k.Now()), call)
  {
    hide Consistent, GoneHaveNone, Bounded, PipesBelow;
    Shape(k.table, k.files, k.lost, k.pipes);
    match call {
      case SwitchTo(p) =>
        if p < MAX_PROCS {
          k.cur := p;
        }
      case WaitCall(p) =>
        if k.Alive() && p < MAX_PROCS {
          k.Wait(p);
        }
      case OpenCall(found) =>
        if k.Alive() && found {
          var _ := k.Open();
        }
      case CloseCall(fd) =>
        if k.Alive() {
          var _ := k.Close(fd);
        }
      case PipeCall(memory) =>
        if k.Alive() {
          var _, _ := k.MakePipe(memory);
        }
      case ForkCall(cloned, memory) =>
        if k.Alive() {
          var _ := k.Fork(cloned, memory);
        }
      case ExitCall =>
        if k.Alive() {
          k.Exit();
        }
    }
  }

  /**
   * After any run, and so between any two system calls, no descriptor of any process refers to a released file or pipe.
   */
  method Run(calls: seq<Call>) returns (k: Kernel)
    requires ForkCount(calls) < INT_MAX - 1
    ensures fresh(k) && k.Valid() && k.Now() == AfterCalls(Booted(), calls) && Safe(k.table, k.files, k.pipes)
  {
    hide Consistent, Safe;
    k := new Kernel();
    for i := 0 to |calls|
      invariant fresh(k) && k.Valid() && k.forks <= ForkCount(calls[..i]) && k.Now() == AfterCalls(Booted(), calls[..i])
    {
      assert calls[..i + 1][..i] == calls[..i];
      ForksBelow(calls, i + 1);
      DoCall(k, calls[i]);
    }
    assert calls[..|calls|] == calls;
    ConsistentSafe(k.table, k.files, k.lost, k.pipes);
  }

  lemma {:induction false} ForksBelow(calls: seq<Call>, i: nat)
    requires i <= |calls|
    ensures ForkCount(calls[..i]) <= ForkCount(calls)
    decreases |calls| - i
  {
    if i < |calls| {
      ForksBelow(calls, i + 1);
      assert calls[..i + 1][..i] == calls[..i];
    } else {
      assert calls[..i] == calls;
    }
  }
}
