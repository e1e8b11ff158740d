/**
 * Open files on values: descriptor tables, reference counts and pipe ends, and the invariant that ties them together.
 */
module FdSpec {
  const MAX_PROCS: nat := 256
  const MAX_FDS: nat := 64
  const INT_MAX: int := 0x7fff_ffff

  /** A file is regular or one end of a pipe. */
  datatype End = Regular | ReadEnd(pipe: nat) | WriteEnd(pipe: nat)

  datatype File = File(refcount: int, end: End)

  datatype PipeObject = PipeObject(refcount: int, readClosed: bool, writeClosed: bool)

  /** Per process, per descriptor: the file, or -1 for NULL. */
  type Table = seq<seq<int>>

  type Files = map<int, File>

  type Pipes = map<nat, PipeObject>

  ghost predicate TableOk(t: Table) {
    |t| == MAX_PROCS && forall p | 0 <= p < MAX_PROCS :: |t[p]| == MAX_FDS
  }

  function Put(t: Table, p: nat, i: nat, f: int): (t': Table)
    requires TableOk(t) && p < MAX_PROCS && i < MAX_FDS
    ensures TableOk(t')
  {
    t[p := t[p][i := f]]
  }

  /** The descriptors that refer to file f: process and number. */
  ghost function Slots(t: Table, f: int): set<(int, int)>
    requires TableOk(t)
  {
    set p, i | 0 <= p < MAX_PROCS && 0 <= i < MAX_FDS && t[p][i] == f :: (p, i)
  }

  lemma PutSlots(t: Table, p: nat, i: nat, g: int, f: int)
    requires TableOk(t) && p < MAX_PROCS && i < MAX_FDS
    ensures Slots(Put(t, p, i, g), f) == if g == f then Slots(t, f) + {(p, i)} else Slots(t, f) - {(p, i)}
    ensures (p, i) in Slots(t, f) <==> t[p][i] == f
    ensures |Slots(Put(t, p, i, g), f)| ==
            |Slots(t, f)| + (if g == f then 1 else 0) - (if t[p][i] == f then 1 else 0)
  {
    var t', a, b := Put(t, p, i, g), Slots(t, f), Slots(Put(t, p, i, g), f);
    forall q, j
      ensures (q, j) in a <==> 0 <= q < MAX_PROCS && 0 <= j < MAX_FDS && t[q][j] == f
      ensures (q, j) in b <==> if (q, j) == (p, i) then g == f else (q, j) in a
    {
      assert 0 <= q < MAX_PROCS && 0 <= j < MAX_FDS ==> t'[q][j] == if (q, j) == (p, i) then g else t[q][j];
    }
    hide Slots;
    assert b == if g == f then a + {(p, i)} else a - {(p, i)};
  }

  /** No descriptor refers to a file that is not there. */
  ghost predicate NoDangling(t: Table, files: Files)
    requires TableOk(t)
  {
    forall p, i | 0 <= p < MAX_PROCS && 0 <= i < MAX_FDS :: t[p][i] == -1 || (t[p][i] >= 0 && t[p][i] in files)
  }

  /** A count is the number of descriptors, plus the references given up without being dropped. */
  ghost predicate Counted(t: Table, files: Files, lost: map<int, nat>)
    requires TableOk(t)
  {
    && lost.Keys == files.Keys
    && forall f | f in files :: f >= 0 && files[f].refcount >= 1 && files[f].refcount == |Slots(t, f)| + lost[f]
  }

  /** No process has a file open twice. */
  ghost predicate OneEach(t: Table)
    requires TableOk(t)
  {
    forall p, i, j | 0 <= p < MAX_PROCS && 0 <= i < MAX_FDS && 0 <= j < MAX_FDS && i != j
        && t[p][i] >= 0 :: t[p][i] != t[p][j]
  }

  // ---- Pipes ----

  ghost predicate OpenIn(end: End, pipes: Pipes) {
    match end
    case Regular => true
    case ReadEnd(q) => q in pipes && !pipes[q].readClosed
    case WriteEnd(q) => q in pipes && !pipes[q].writeClosed
  }

  /** Every pipe end in use is open in its pipe, is one file, and counts. */
  ghost predicate PipesOk(files: Files, pipes: Pipes) {
    && (forall f | f in files :: OpenIn(files[f].end, pipes))
    && (forall f, g | f in files && g in files && f != g && !files[f].end.Regular? :: files[f].end != files[g].end)
    && (forall q | q in pipes :: pipes[q].refcount == OpenEnds(pipes[q]) >= 1)
  }

  function OpenEnds(p: PipeObject): nat {
    (if p.readClosed then 0 else 1) + (if p.writeClosed then 0 else 1)
  }

  /** `pipe_close`. */
  function AfterClose(pipes: Pipes, end: End): Pipes
    requires OpenIn(end, pipes)
  {
    if end.Regular? then pipes else
    var p := pipes[end.pipe];
    var p' := if end.WriteEnd? then p.(writeClosed := true, refcount := p.refcount - 1)
        else p.(readClosed := true, refcount := p.refcount - 1);
    if p'.refcount <= 0 then pipes - {end.pipe} else pipes[end.pipe := p']
  }

  /** The file is released. */
  lemma FileGone(files: Files, pipes: Pipes, f: int)
    requires PipesOk(files, pipes) && f in files
    ensures PipesOk(files - {f}, AfterClose(pipes, files[f].end))
  {
    var files', pipes' := files - {f}, AfterClose(pipes, files[f].end);
    forall g | g in files'
      ensures OpenIn(files'[g].end, pipes')
    {
      assert OpenIn(files[g].end, pipes) && OpenIn(files[f].end, pipes);
    }
  }

  /** A pipe is released by closing one end exactly when the other is closed already; and then no file refers to it. */
  lemma PipeReleased(files: Files, pipes: Pipes, f: int)
    requires PipesOk(files, pipes) && f in files && !files[f].end.Regular?
    ensures var q := files[f].end.pipe;
            && q in pipes
            && (q !in AfterClose(pipes, files[f].end) <==> if files[f].end.WriteEnd? then pipes[q].readClosed
               else pipes[q].writeClosed)
            && (q !in AfterClose(pipes, files[f].end) ==>
                  forall g | g in files && g != f && !files[g].end.Regular? :: files[g].end.pipe != q)
  {
    assert OpenIn(files[f].end, pipes);
    var q := files[f].end.pipe;
    if q !in AfterClose(pipes, files[f].end) {
      forall g | g in files && g != f && !files[g].end.Regular?
        ensures files[g].end.pipe != q
      {
        assert OpenIn(files[g].end, pipes);
      }
    }
  }

  // ---- Steps on one descriptor ----

  ghost predicate Consistent(t: Table, files: Files, lost: map<int, nat>, pipes: Pipes) {
    TableOk(t) && NoDangling(t, files) && Counted(t, files, lost) && OneEach(t) && PipesOk(files, pipes)
  }

  /** A new file with one reference goes into an empty descriptor. */
  lemma OpenStep(t: Table, files: Files, lost: map<int, nat>, pipes: Pipes, p: nat, i: nat, f: nat, end: End,
                 pipes': Pipes)
    requires Consistent(t, files, lost, pipes) && p < MAX_PROCS && i < MAX_FDS && t[p][i] == -1 && f !in files
    requires PipesOk(files[f := File(1, end)], pipes')
    ensures Consistent(Put(t, p, i, f), files[f := File(1, end)], lost[f := 0], pipes')
  {
    hide PipesOk, Slots;
    NoSlots(t, files, f);
    forall g
      ensures |Slots(Put(t, p, i, f), g)| == |Slots(t, g)| + (if f == g then 1 else 0) - (if t[p][i] == g then 1 else 0)
    {
      PutSlots(t, p, i, f, g);
    }
  }

  lemma NoSlots(t: Table, files: Files, f: nat)
    requires TableOk(t) && NoDangling(t, files) && f !in files
    ensures |Slots(t, f)| == 0 && forall p, i | 0 <= p < MAX_PROCS && 0 <= i < MAX_FDS :: t[p][i] != f
  {
    assert Slots(t, f) == {};
  }

  /** A new file that found no descriptor: its reference is lost. */
  lemma LostStep(t: Table, files: Files, lost: map<int, nat>, pipes: Pipes, f: nat, end: End, pipes': Pipes)
    requires Consistent(t, files, lost, pipes) && f !in files && PipesOk(files[f := File(1, end)], pipes')
    ensures Consistent(t, files[f := File(1, end)], lost[f := 1], pipes')
  {
    hide PipesOk, Slots;
    NoSlots(t, files, f);
  }

  /** A descriptor emptied without dropping its reference. */
  lemma ForgetStep(t: Table, files: Files, lost: map<int, nat>, pipes: Pipes, p: nat, i: nat)
    requires Consistent(t, files, lost, pipes) && p < MAX_PROCS && i < MAX_FDS && t[p][i] >= 0
    ensures t[p][i] in files && Consistent(Put(t, p, i, -1), files, lost[t[p][i] := lost[t[p][i]] + 1], pipes)
  {
    hide PipesOk, Slots;
    forall g
      ensures |Slots(Put(t, p, i, -1), g)| == |Slots(t, g)|
              + (if g == -1 then 1 else 0) - (if t[p][i] == g then 1 else 0)
    {
      PutSlots(t, p, i, -1, g);
    }
  }

  /** A descriptor copied into an empty one of another process. */
  lemma InheritStep(t: Table, files: Files, lost: map<int, nat>, pipes: Pipes, p: nat, c: nat, i: nat)
    requires Consistent(t, files, lost, pipes) && p < MAX_PROCS && c < MAX_PROCS && i < MAX_FDS && t[p][i] >= 0
             && t[c][i] == -1
    requires t[p][i] !in t[c]
    ensures t[p][i] in files
    ensures Consistent(Put(t, c, i, t[p][i]),
            files[t[p][i] := files[t[p][i]].(refcount := files[t[p][i]].refcount + 1)], lost, pipes)
  {
    hide Slots, OpenIn;
    var f := t[p][i];
    forall g
      ensures |Slots(Put(t, c, i, f), g)| == |Slots(t, g)| + (if f == g then 1 else 0) - (if t[c][i] == g then 1 else 0)
    {
      PutSlots(t, c, i, f, g);
    }
  }

  /** A descriptor closed: the file goes exactly when this was its only one and no reference to it was lost. */
  lemma CloseStep(t: Table, files: Files, lost: map<int, nat>, pipes: Pipes, p: nat, i: nat)
    requires Consistent(t, files, lost, pipes) && p < MAX_PROCS && i < MAX_FDS && t[p][i] >= 0
    ensures var f := t[p][i];
            && f in files && OpenIn(files[f].end, pipes)
            && (files[f].refcount > 1 ==>
               Consistent(Put(t, p, i, -1), files[f := files[f].(refcount := files[f].refcount - 1)], lost, pipes))
            && (files[f].refcount <= 1 ==>
               Consistent(Put(t, p, i, -1), files - {f}, lost - {f}, AfterClose(pipes, files[f].end)))
            && (files[f].refcount <= 1 <==> Slots(t, f) == {(p, i)} && lost[f] == 0)
  {
    hide Slots, OpenIn, AfterClose;
    var f := t[p][i];
    forall g
      ensures |Slots(Put(t, p, i, -1), g)| == |Slots(t, g)|
              + (if g == -1 then 1 else 0) - (if t[p][i] == g then 1 else 0)
    {
      PutSlots(t, p, i, -1, g);
    }
    assert f in files;
    FileGone(files, pipes, f);
    OnlySlot(t, p, i, f);
    assert files[f].refcount <= 1 ==> |Slots(Put(t, p, i, -1), f)| == 0;
    NoSlotsLeft(Put(t, p, i, -1), f);
  }

  lemma OnlySlot(t: Table, p: nat, i: nat, f: int)
    requires TableOk(t) && p < MAX_PROCS && i < MAX_FDS && t[p][i] == f
    ensures |Slots(t, f)| == 1 <==> Slots(t, f) == {(p, i)}
    ensures |Slots(t, f)| >= 1
  {
    assert (p, i) in Slots(t, f);
    var rest := Slots(t, f) - {(p, i)};
    assert |rest| == |Slots(t, f)| - 1;
    if |Slots(t, f)| == 1 {
      assert rest == {};
    }
  }

  lemma NoSlotsLeft(t: Table, f: int)
    requires TableOk(t)
    ensures |Slots(t, f)| == 0 ==> forall p, i | 0 <= p < MAX_PROCS && 0 <= i < MAX_FDS :: t[p][i] != f
  {
    if |Slots(t, f)| == 0 {
      forall p, i | 0 <= p < MAX_PROCS && 0 <= i < MAX_FDS
        ensures t[p][i] != f
      {
        assert (p, i) !in Slots(t, f);
      }
    }
  }
}
