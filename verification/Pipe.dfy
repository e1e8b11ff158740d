/** kernel/ipc/pipe.c: the ring buffer, and reads and writes in progress on any number of threads. */
module Pipe {
  const PIPE_BUF_SIZE: nat := 4096

  // ---- The ring ----

  datatype Ring = Ring(buf: seq<nat>, head: nat, tail: nat, count: nat)

  /** The cell i places after cell `from`, going round. */
  function Cell(from: nat, i: nat): (c: nat)
    ensures c < PIPE_BUF_SIZE
  {
    (from + i) % PIPE_BUF_SIZE
  }

  /** `count` says how far the head is ahead of the tail. */
  ghost predicate RingOk(r: Ring) {
    && |r.buf| == PIPE_BUF_SIZE && r.tail < PIPE_BUF_SIZE && r.count <= PIPE_BUF_SIZE
    && r.head == Cell(r.tail, r.count)
  }

  /** The bytes waiting to be read, oldest first. */
  ghost function Contents(r: Ring): (c: seq<nat>)
    requires RingOk(r)
    ensures |c| == r.count
  {
    seq<nat>(r.count, i requires 0 <= i < r.count => r.buf[Cell(r.tail, i)])
  }

  function Put(r: Ring, b: nat): Ring
    requires r.head < |r.buf|
  {
    Ring(r.buf[r.head := b], Cell(r.head, 1), r.tail, r.count + 1)
  }

  function Drop(r: Ring): Ring
    requires r.count > 0
  {
    r.(tail := Cell(r.tail, 1), count := r.count - 1)
  }

  /** Different offsets below the size name different cells. */
  lemma CellsDiffer(tail: nat, i: nat, j: nat)
    requires tail < PIPE_BUF_SIZE && i < j < PIPE_BUF_SIZE
    ensures Cell(tail, i) != Cell(tail, j)
  {}

  lemma Wraps(from: nat, i: nat, j: nat)
    ensures Cell(Cell(from, i), j) == Cell(from, i + j) < PIPE_BUF_SIZE
  {}

  lemma CellHere(from: nat)
    requires from < PIPE_BUF_SIZE
    ensures Cell(from, 0) == from
  {}

  lemma PutAppends(r: Ring, b: nat)
    requires RingOk(r) && r.count < PIPE_BUF_SIZE
    ensures r.head < |r.buf| && RingOk(Put(r, b)) && Contents(Put(r, b)) == Contents(r) + [b]
  {
    hide Cell;
    var r' := Put(r, b);
    Wraps(r.tail, r.count, 1);
    Wraps(r.tail, 0, r.count);
    forall i | 0 <= i < r.count
      ensures Contents(r')[i] == Contents(r)[i]
    {
      CellsDiffer(r.tail, i, r.count);
    }
  }

  lemma DropRemoves(r: Ring)
    requires RingOk(r) && r.count > 0
    ensures RingOk(Drop(r)) && r.tail < |r.buf| && r.buf[r.tail] == Contents(r)[0]
            && Contents(Drop(r)) == Contents(r)[1..]
  {
    hide Cell;
    var r' := Drop(r);
    Wraps(r.tail, 1, r.count - 1);
    CellHere(r.tail);
    forall i | 0 <= i < r.count - 1
      ensures Contents(r')[i] == Contents(r)[i + 1]
    {
      Wraps(r.tail, 1, i);
    }
  }

  class PipeBuffer {
    const buf: array<nat>
    var head: nat
    var tail: nat
    var count: nat

    ghost function View(): Ring
      reads this, buf
    {
      Ring(buf[..], head, tail, count)
    }

    constructor ()
      ensures RingOk(View()) && Contents(View()) == [] && fresh(buf)
    {
      buf := new nat[PIPE_BUF_SIZE](_ => 0);
      head, tail, count := 0, 0, 0;
    }

    /** The copying loop of `pipe_read`, uninterrupted: as much as there is, at most n. */
    method CopyOut(n: nat) returns (data: seq<nat>)
      requires RingOk(View())
      modifies this`tail, this`count
      ensures RingOk(View()) && data + Contents(View()) == old(Contents(View()))
      ensures |data| == if n < old(count) then n else old(count)
    {
      hide Contents, Drop, RingOk, Cell;
      data := [];
      while |data| < n && count > 0
        invariant RingOk(View()) && |data| <= n && |data| + count == old(count)
        invariant data + Contents(View()) == old(Contents(View()))
      {
        DropRemoves(View());
        ghost var r, before := View(), data;
        data := data + [buf[tail]];
        tail := Cell(tail, 1);
        count := count - 1;
        assert View() == Drop(r) by {
          DropIs(r, View());
        }
        FirstMoves(before, Contents(r));
      }
    }

    /** The copying loop of `pipe_write`, uninterrupted: as much as fits; the rest waits for a reader. */
    method CopyIn(src: seq<nat>) returns (written: nat)
      requires RingOk(View())
      modifies this`head, this`count, buf
      ensures RingOk(View()) && written <= |src| && Contents(View()) == old(Contents(View())) + src[..written]
      ensures written < |src| ==> count == PIPE_BUF_SIZE
    {
      hide Contents, Put, RingOk, Cell;
      written := 0;
      while written < |src| && count < PIPE_BUF_SIZE
        invariant RingOk(View()) && written <= |src|
        invariant Contents(View()) == old(Contents(View())) + src[..written]
      {
        ghost var r := View();
        PutAppends(r, src[written]);
        buf[head] := src[written];
        head := Cell(head, 1);
        count := count + 1;
        assert View() == Put(r, src[written]) by {
          PutIs(r, src[written], View());
        }
        assert src[..written + 1] == src[..written] + [src[written]];
        written := written + 1;
      }
      RingShape(View());
    }
  }

  lemma DropIs(r: Ring, r': Ring)
    requires r.count > 0 && r' == r.(tail := Cell(r.tail, 1), count := r.count - 1)
    ensures r' == Drop(r)
  {}

  lemma PutIs(r: Ring, b: nat, r': Ring)
    requires r.head < |r.buf| && r' == Ring(r.buf[r.head := b], Cell(r.head, 1), r.tail, r.count + 1)
    ensures r' == Put(r, b)
  {}

  // ---- Reads and writes in progress ----

  /**
   * Where a thread is in its call. A finished read holds what it returned; a refused write is the one that gets
   * SIGPIPE.
   */
  datatype Call =
    | Idle
    | ReadWait(n: nat) | ReadCheck(n: nat, mark: nat) | ReadCopy(n: nat, got: seq<nat>)
        | ReadDone(n: nat, got: seq<nat>)
    | WriteCopy(src: seq<nat>, pos: nat) | WriteDone(n: nat) | WriteRefused

  datatype Choice = StartRead(n: nat) | StartWrite(src: seq<nat>) | CloseRead | CloseWrite | Return

  /** The pipe, the threads, and all bytes ever put in and taken out, in order. */
  datatype System = System(ring: Ring, readClosed: bool, writeClosed: bool, calls: seq<Call>,
                           written: seq<nat>, taken: seq<nat>)

  function Set(s: System, c: nat, call: Call): System
    requires c < |s.calls|
  {
    s.(calls := s.calls[c := call])
  }

  /** One step of thread c: one test of a wait, or one byte with the test before it. */
  function Step(s: System, c: nat, choice: Choice): System
    requires c < |s.calls| && s.ring.head < |s.ring.buf| && s.ring.tail < |s.ring.buf|
  {
    match s.calls[c]
    case Idle => (
      match choice
      case StartRead(n) => Set(s, c, ReadWait(n))
      case StartWrite(src) => Set(s, c, if s.readClosed then WriteRefused else WriteCopy(src, 0))
      case CloseRead => s.(readClosed := true)
      case CloseWrite => s.(writeClosed := true)
      case Return => s)
    case ReadWait(n) => Set(s, c, if s.ring.count > 0 then ReadCopy(n, []) else ReadCheck(n, |s.written|))
    case ReadCheck(n, _) => Set(s, c, if s.writeClosed then ReadDone(n, []) else ReadWait(n))
    case ReadCopy(n, got) =>
      if |got| < n && s.ring.count > 0 then
        var b := s.ring.buf[s.ring.tail];
        Set(s, c, ReadCopy(n, got + [b])).(ring := Drop(s.ring), taken := s.taken + [b])
      else Set(s, c, ReadDone(n, got))
    case WriteCopy(src, pos) =>
      if pos >= |src| then Set(s, c, WriteDone(pos))
      else if s.ring.count >= PIPE_BUF_SIZE then s
      else Set(s, c, WriteCopy(src, pos + 1)).(ring := Put(s.ring, src[pos]), written := s.written + [src[pos]])
    case _ => if choice.Return? then Set(s, c, Idle) else s
  }

  ghost predicate Inv(s: System) {
    RingOk(s.ring) && s.taken + Contents(s.ring) == s.written
  }

  lemma StepKeeps(s: System, c: nat, choice: Choice)
    requires Inv(s) && c < |s.calls|
    ensures s.ring.head < |s.ring.buf| && s.ring.tail < |s.ring.buf|
    ensures Inv(Step(s, c, choice)) && |Step(s, c, choice).calls| == |s.calls|
  {
    hide Contents, Put, Drop, RingOk, Cell;
    RingShape(s.ring);
    match s.calls[c] {
      case ReadCopy(n, got) =>
        if |got| < n && s.ring.count > 0 {
          DropRemoves(s.ring);
          FirstMoves(s.taken, Contents(s.ring));
        }
      case WriteCopy(src, pos) =>
        if pos < |src| && s.ring.count < PIPE_BUF_SIZE {
          PutAppends(s.ring, src[pos]);
        }
      case _ =>
    }
  }

  lemma FirstMoves(a: seq<nat>, b: seq<nat>)
    requires b != []
    ensures a + [b[0]] + b[1..] == a + b
  {}

  lemma RingShape(r: Ring)
    requires RingOk(r)
    ensures r.head < |r.buf| && r.tail < |r.buf| && r.count <= PIPE_BUF_SIZE
  {}

  ghost function Run(s: System, schedule: seq<(nat, Choice)>): (s': System)
    requires Inv(s)
    ensures Inv(s') && |s'.calls| == |s.calls|
    decreases |schedule|
  {
    if schedule == [] then s
    else if schedule[0].0 >= |s.calls| then Run(s, schedule[1..])
    else
      StepKeeps(s, schedule[0].0, schedule[0].1);
      Run(Step(s, schedule[0].0, schedule[0].1), schedule[1..])
  }

  function Fresh(threads: nat): System {
    System(Ring(seq(PIPE_BUF_SIZE, _ => 0), 0, 0, 0), false, false, seq(threads, _ => Idle), [], [])
  }

  lemma FreshHolds(threads: nat)
    ensures Inv(Fresh(threads))
  {
    assert Contents(Fresh(threads).ring) == [];
  }

  /**
   * In every run, what has been read, followed by what is buffered, is what has been written; the counter matches head
   * and tail.
   */
  lemma Fifo(threads: nat, schedule: seq<(nat, Choice)>)
    ensures Inv(Fresh(threads))
    ensures var s := Run(Fresh(threads), schedule);
            && RingOk(s.ring) && s.taken + Contents(s.ring) == s.written
            && s.ring.count == |s.written| - |s.taken| <= 4096
            && s.ring.head == (s.ring.tail + s.ring.count) % 4096
  {
    hide Run;
    FreshHolds(threads);
  }

  // ---- End of file ----

  predicate InRead(call: Call) {
    call.ReadWait? || call.ReadCheck? || call.ReadCopy?
  }

  /** At most one read is in progress. */
  ghost predicate OneReader(s: System) {
    forall i, j | 0 <= i < |s.calls| && 0 <= j < |s.calls| && InRead(s.calls[i]) && InRead(s.calls[j]) :: i == j
  }

  /**
   * A read that has passed its wait and has nothing yet still finds the byte it saw; for one that saw an empty buffer,
   * what had been put in by then has been taken, and no more.
   */
  ghost predicate Fed(s: System) {
    forall i | 0 <= i < |s.calls| :: CallFed(s.calls[i], s.ring.count, |s.taken|)
  }

  ghost predicate CallFed(call: Call, count: nat, taken: nat) {
    match call
    case ReadCopy(n, got) => n > 0 && got == [] ==> count > 0
    case ReadCheck(_, mark) => taken == mark
    case _ => true
  }

  lemma FedStep(s: System, c: nat, choice: Choice)
    requires Inv(s) && c < |s.calls| && OneReader(s) && Fed(s)
    ensures s.ring.head < |s.ring.buf| && s.ring.tail < |s.ring.buf|
    ensures Fed(Step(s, c, choice))
  {
    hide RingOk, Cell;
    RingShape(s.ring);
    var s' := Step(s, c, choice);
    assert CallFed(s.calls[c], s.ring.count, |s.taken|);
    forall i | 0 <= i < |s'.calls|
      ensures CallFed(s'.calls[i], s'.ring.count, |s'.taken|)
    {
      if i != c {
        assert s'.calls[i] == s.calls[i] && CallFed(s.calls[i], s.ring.count, |s.taken|);
        assert InRead(s.calls[i]) ==> !InRead(s.calls[c]);
      }
    }
  }

  /** At most one read is in progress in any state of the run. */
  ghost predicate OneReaderThroughout(s: System, schedule: seq<(nat, Choice)>)
    requires Inv(s)
    decreases |schedule|
  {
    && OneReader(s)
    && (schedule != [] ==>
          if schedule[0].0 >= |s.calls| then OneReaderThroughout(s, schedule[1..])
          else
            StepKeeps(s, schedule[0].0, schedule[0].1);
            OneReaderThroughout(Step(s, schedule[0].0, schedule[0].1), schedule[1..]))
  }

  lemma {:induction false} FedRun(s: System, schedule: seq<(nat, Choice)>)
    requires Inv(s) && Fed(s) && OneReaderThroughout(s, schedule)
    ensures Fed(Run(s, schedule)) && OneReader(Run(s, schedule))
    decreases |schedule|
  {
    hide Inv, Step, Fed, OneReader;
    if schedule != [] {
      var c, choice := schedule[0].0, schedule[0].1;
      if c < |s.calls| {
        StepKeeps(s, c, choice);
        FedStep(s, c, choice);
        FedRun(Step(s, c, choice), schedule[1..]);
      } else {
        FedRun(s, schedule[1..]);
      }
    }
  }

  /**
   * When the next step of a read ends it with 0 bytes: it saw the buffer empty and now the write end closed, or it is
   * past its wait and was overtaken.
   */
  lemma ZeroRead(s: System, c: nat, choice: Choice)
    requires Inv(s) && c < |s.calls| && InRead(s.calls[c]) && s.calls[c].n > 0
    ensures s.ring.head < |s.ring.buf| && s.ring.tail < |s.ring.buf|
    ensures var call := Step(s, c, choice).calls[c];
            call.ReadDone? && call.got == [] <==>
              || (s.calls[c].ReadCheck? && s.writeClosed)
              || (s.calls[c].ReadCopy? && s.calls[c].got == [] && s.ring.count == 0)
  {
    hide Contents;
    RingShape(s.ring);
  }

  /**
   * In every run with one reader at a time, a read of n > 0 bytes returns 0 exactly when, having seen the buffer empty,
   * it sees the write end closed; and by then every byte written has been read exactly if none was put in between.
   */
  lemma EndOfFile(threads: nat, schedule: seq<(nat, Choice)>, c: nat, choice: Choice)
    requires Inv(Fresh(threads)) && OneReaderThroughout(Fresh(threads), schedule)
    requires var s := Run(Fresh(threads), schedule); c < |s.calls| && InRead(s.calls[c]) && s.calls[c].n > 0
    ensures var s := Run(Fresh(threads), schedule);
            && s.ring.head < |s.ring.buf| && s.ring.tail < |s.ring.buf|
            && var call := Step(s, c, choice).calls[c];
               && (call.ReadDone? && call.got == [] <==> s.calls[c].ReadCheck? && s.writeClosed)
               && (s.calls[c].ReadCheck? ==> (s.taken == s.written <==> |s.written| == s.calls[c].mark))
  {
    hide Run, Contents, OneReaderThroughout;
    FedRun(Fresh(threads), schedule);
    var s := Run(Fresh(threads), schedule);
    ZeroRead(s, c, choice);
    assert CallFed(s.calls[c], s.ring.count, |s.taken|);
  }

  lemma RunStep(s: System, c: nat, choice: Choice, rest: seq<(nat, Choice)>)
    requires Inv(s) && c < |s.calls|
    ensures s.ring.head < |s.ring.buf| && s.ring.tail < |s.ring.buf| && Inv(Step(s, c, choice))
    ensures Run(s, [(c, choice)] + rest) == Run(Step(s, c, choice), rest)
  {
    hide Step, Inv;
    StepKeeps(s, c, choice);
    assert ([(c, choice)] + rest)[1..] == rest;
  }

  /** Thread 1 does not read, so at most one read is in progress. */
  lemma FirstReads(s: System, c: nat, choice: Choice, rest: seq<(nat, Choice)>)
    requires Inv(s) && |s.calls| == 2 && c < 2 && !InRead(s.calls[1])
    ensures s.ring.head < |s.ring.buf| && s.ring.tail < |s.ring.buf| && Inv(Step(s, c, choice))
    ensures Run(s, [(c, choice)] + rest) == Run(Step(s, c, choice), rest)
    ensures OneReaderThroughout(s, [(c, choice)] + rest) <==> OneReaderThroughout(Step(s, c, choice), rest)
  {
    hide Step, Inv, Run;
    RunStep(s, c, choice, rest);
    assert ([(c, choice)] + rest)[1..] == rest;
  }

  /** The reader has seen the buffer empty, and a byte is there. */
  lemma SawEmpty(b: nat, rest: seq<(nat, Choice)>) returns (s: System)
    ensures Inv(Fresh(2)) && Inv(s) && s.calls == [ReadCheck(1, 0), WriteCopy([b], 1)]
    ensures s.ring.count == 1 && s.written == [b] && s.taken == []
    ensures var r := [(0, StartRead(1)), (0, Return), (1, StartWrite([b])), (1, Return)] + rest;
            && Run(Fresh(2), r) == Run(s, rest)
            && (OneReaderThroughout(Fresh(2), r) <==> OneReaderThroughout(s, rest))
  {
    hide Run, OneReaderThroughout, Contents, RingOk, Inv, Cell;
    FreshHolds(2);
    var r := [(0, StartRead(1)), (0, Return), (1, StartWrite([b])), (1, Return)];
    assert r + rest == [r[0]] + (r[1..] + rest) && r[1..] + rest == [r[1]] + (r[2..] + rest);
    assert r[2..] + rest == [r[2]] + (r[3..] + rest) && r[3..] + rest == [r[3]] + rest;
    FirstReads(Fresh(2), 0, r[0].1, r[1..] + rest);
    s := Step(Fresh(2), 0, r[0].1);
    FirstReads(s, 0, r[1].1, r[2..] + rest);
    s := Step(s, 0, r[1].1);
    FirstReads(s, 1, r[2].1, r[3..] + rest);
    s := Step(s, 1, r[2].1);
    FirstReads(s, 1, r[3].1, rest);
    s := Step(s, 1, r[3].1);
  }

  /** The writer returns and closes, and the reader returns 0. */
  lemma SeesClosed(s: System, b: nat)
    requires Inv(s) && s.calls == [ReadCheck(1, 0), WriteCopy([b], 1)]
    ensures var r := [(1, Return), (1, Return), (1, CloseWrite), (0, Return)];
            && OneReaderThroughout(s, r)
            && var s' := Run(s, r);
               s'.calls[0] == ReadDone(1, []) && s'.ring == s.ring && s'.written == s.written && s'.taken == s.taken
  {
    hide Run, OneReaderThroughout, Contents, RingOk, Inv, Cell;
    var r: seq<(nat, Choice)> := [(1, Return), (1, Return), (1, CloseWrite), (0, Return)];
    assert r == [r[0]] + r[1..] && r[1..] == [r[1]] + r[2..] && r[2..] == [r[2]] + r[3..] && r[3..] == [r[3]] + [];
    FirstReads(s, 1, r[0].1, r[1..]);
    var s1 := Step(s, 1, r[0].1);
    FirstReads(s1, 1, r[1].1, r[2..]);
    var s2 := Step(s1, 1, r[1].1);
    FirstReads(s2, 1, r[2].1, r[3..]);
    var s3 := Step(s2, 1, r[2].1);
    FirstReads(s3, 0, r[3].1, []);
    OneAtEnd(Step(s3, 0, r[3].1));
  }

  lemma OneAtEnd(s: System)
    requires Inv(s) && |s.calls| == 2 && !InRead(s.calls[1])
    ensures Run(s, []) == s && OneReaderThroughout(s, [])
  {}

  /**
   * A run with one reader, which sees the buffer empty; a byte is put in and the write end closed; then the read
   * returns 0 and the byte stays behind.
   */
  lemma LateByte(b: nat)
    ensures Inv(Fresh(2))
    ensures var schedule := [(0, StartRead(1)), (0, Return), (1, StartWrite([b])), (1, Return),
                             (1, Return), (1, Return), (1, CloseWrite), (0, Return)];
            && OneReaderThroughout(Fresh(2), schedule)
            && var s := Run(Fresh(2), schedule);
               s.calls[0] == ReadDone(1, []) && s.ring.count == 1 && s.written == [b] && s.taken == []
  {
    hide Run, OneReaderThroughout, Inv, Step;
    var rest: seq<(nat, Choice)> := [(1, Return), (1, Return), (1, CloseWrite), (0, Return)];
    var s := SawEmpty(b, rest);
    SeesClosed(s, b);
    assert [(0, StartRead(1)), (0, Return), (1, StartWrite([b])), (1, Return)] + rest ==
           [(0, StartRead(1)), (0, Return), (1, StartWrite([b])), (1, Return),
            (1, Return), (1, Return), (1, CloseWrite), (0, Return)];
  }

  /** Two readers that both see the one byte there is before either takes it: the second returns 0. */
  lemma Overtaken(s: System, c: nat, d: nat)
    requires Inv(s) && c < |s.calls| && d < |s.calls| && c != d
    requires s.calls[c] == ReadWait(1) && s.calls[d] == ReadWait(1) && s.ring.count == 1
    ensures var s' := Run(s, [(c, Return), (d, Return), (c, Return), (d, Return)]);
            && s'.calls[c].ReadCopy? && |s'.calls[c].got| == 1
            && s'.calls[d] == ReadDone(1, []) && s'.writeClosed == s.writeClosed
  {
    hide Run, Contents, RingOk, Inv, Cell;
    var r: seq<(nat, Choice)> := [(c, Return), (d, Return), (c, Return), (d, Return)];
    assert r == [(c, Return)] + [(d, Return), (c, Return), (d, Return)];
    assert [(d, Return), (c, Return), (d, Return)] == [(d, Return)] + [(c, Return), (d, Return)];
    assert [(c, Return), (d, Return)] == [(c, Return)] + [(d, Return)] && [(d, Return)] == [(d, Return)] + [];
    RunStep(s, c, Return, [(d, Return), (c, Return), (d, Return)]);
    var s1 := Step(s, c, Return);
    RunStep(s1, d, Return, [(c, Return), (d, Return)]);
    var s2 := Step(s1, d, Return);
    RunStep(s2, c, Return, [(d, Return)]);
    var s3 := Step(s2, c, Return);
    RunStep(s3, d, Return, []);
    RunNone(Step(s3, d, Return));
  }

  lemma RunNone(s: System)
    requires Inv(s)
    ensures Run(s, []) == s
  {}

  /** One byte written and two readers waiting, from a fresh pipe. */
  lemma BothWait(b: nat, rest: seq<(nat, Choice)>)
    returns (s: System)
    ensures Inv(Fresh(3)) && Inv(s) && |s.calls| == 3 && s.ring.count == 1 && !s.writeClosed
    ensures s.calls[0] == ReadWait(1) && s.calls[1] == ReadWait(1)
    ensures Run(Fresh(3), [(2, StartWrite([b])), (0, StartRead(1)), (1, StartRead(1)), (2, Return)] + rest) ==
            Run(s, rest)
  {
    hide Run, Contents, RingOk, Inv, Cell;
    FreshHolds(3);
    var r := [(2, StartWrite([b])), (0, StartRead(1)), (1, StartRead(1)), (2, Return)];
    assert r + rest == [r[0]] + (r[1..] + rest) && r[1..] + rest == [r[1]] + (r[2..] + rest);
    assert r[2..] + rest == [r[2]] + (r[3..] + rest) && r[3..] + rest == [r[3]] + rest;
    RunStep(Fresh(3), 2, r[0].1, r[1..] + rest);
    s := Step(Fresh(3), 2, r[0].1);
    RunStep(s, 0, r[1].1, r[2..] + rest);
    s := Step(s, 0, r[1].1);
    RunStep(s, 1, r[2].1, r[3..] + rest);
    s := Step(s, 1, r[2].1);
    RunStep(s, 2, r[3].1, rest);
    s := Step(s, 2, r[3].1);
  }

  /** With two readers there is a run in which a read of 1 byte returns 0 while the write end is open. */
  lemma TwoReaders(b: nat)
    ensures Inv(Fresh(3))
    ensures var s := Run(Fresh(3), [(2, StartWrite([b])), (0, StartRead(1)), (1, StartRead(1)), (2, Return),
                                    (0, Return), (1, Return), (0, Return), (1, Return)]);
            s.calls[1] == ReadDone(1, []) && !s.writeClosed
  {
    hide Run, Inv, Step;
    var rest: seq<(nat, Choice)> := [(0, Return), (1, Return), (0, Return), (1, Return)];
    var s := BothWait(b, rest);
    Overtaken(s, 0, 1);
    assert [(2, StartWrite([b])), (0, StartRead(1)), (1, StartRead(1)), (2, Return)] + rest ==
           [(2, StartWrite([b])), (0, StartRead(1)), (1, StartRead(1)), (2, Return),
            (0, Return), (1, Return), (0, Return), (1, Return)];
  }

  // ---- One reader and one writer ----

  /** At most one write is in progress. */
  ghost predicate OneWriter(s: System) {
    forall i, j | 0 <= i < |s.calls| && 0 <= j < |s.calls| && s.calls[i].WriteCopy? && s.calls[j].WriteCopy? :: i == j
  }

  predicate EndsWith(a: seq<nat>, b: seq<nat>) {
    |b| <= |a| && a[|a| - |b|..] == b
  }

  /**
   * What a read in progress has got is the latest taken, and what a write in progress has put in is the latest written.
   */
  ghost predicate Contiguous(s: System) {
    forall i | 0 <= i < |s.calls| :: Latest(s.calls[i], s.written, s.taken)
  }

  ghost predicate Latest(call: Call, written: seq<nat>, taken: seq<nat>) {
    match call
    case ReadCopy(n, got) => |got| <= n && EndsWith(taken, got)
    case WriteCopy(src, pos) => pos <= |src| && EndsWith(written, src[..pos])
    case _ => true
  }

  lemma EndsMore(a: seq<nat>, b: seq<nat>, x: nat)
    requires EndsWith(a, b)
    ensures EndsWith(a + [x], b + [x])
  {
    assert (a + [x])[|a + [x]| - |b + [x]|..] == a[|a| - |b|..] + [x];
  }

  /** Each call moves one piece of the stream, with nothing of another call in between. */
  lemma ContiguousStep(s: System, c: nat, choice: Choice)
    requires Inv(s) && c < |s.calls| && OneReader(s) && OneWriter(s) && Contiguous(s)
    ensures s.ring.head < |s.ring.buf| && s.ring.tail < |s.ring.buf|
    ensures Contiguous(Step(s, c, choice))
  {
    hide Contents, RingOk, Cell, Latest, Step;
    RingShape(s.ring);
    OwnLatest(s, c, choice);
    forall i | 0 <= i < |Step(s, c, choice).calls|
      ensures Latest(Step(s, c, choice).calls[i], Step(s, c, choice).written, Step(s, c, choice).taken)
    {
      if i != c {
        OtherLatest(s, c, choice, i);
      }
    }
  }

  lemma OwnLatest(s: System, c: nat, choice: Choice)
    requires Inv(s) && c < |s.calls| && Latest(s.calls[c], s.written, s.taken)
    ensures s.ring.head < |s.ring.buf| && s.ring.tail < |s.ring.buf|
    ensures var s' := Step(s, c, choice); |s'.calls| == |s.calls| && Latest(s'.calls[c], s'.written, s'.taken)
  {
    hide Contents, RingOk, Cell, EndsWith;
    RingShape(s.ring);
    match s.calls[c] {
      case ReadCopy(n, got) =>
        if |got| < n && s.ring.count > 0 {
          EndsMore(s.taken, got, s.ring.buf[s.ring.tail]);
        }
      case WriteCopy(src, pos) =>
        if pos < |src| {
          EndsMore(s.written, src[..pos], src[pos]);
          assert src[..pos] + [src[pos]] == src[..pos + 1];
        }
      case _ =>
        NothingYet(s.written, s.taken);
    }
  }

  lemma OtherLatest(s: System, c: nat, choice: Choice, i: nat)
    requires Inv(s) && c < |s.calls| && OneReader(s) && OneWriter(s) && i < |s.calls| && i != c
    requires Latest(s.calls[i], s.written, s.taken)
    ensures s.ring.head < |s.ring.buf| && s.ring.tail < |s.ring.buf|
    ensures var s' := Step(s, c, choice); |s'.calls| == |s.calls| && Latest(s'.calls[i], s'.written, s'.taken)
  {
    hide Contents, RingOk, Cell, EndsWith;
    RingShape(s.ring);
    assert s.calls[c].ReadCopy? ==> InRead(s.calls[c]) && !InRead(s.calls[i]);
  }

  lemma NothingYet(written: seq<nat>, taken: seq<nat>)
    ensures EndsWith(taken, []) && forall src: seq<nat> :: EndsWith(written, src[..0])
  {}

  /** At most one read and one write are in progress in any state of the run. */
  ghost predicate OrderlyThroughout(s: System, schedule: seq<(nat, Choice)>)
    requires Inv(s)
    decreases |schedule|
  {
    && OneReader(s) && OneWriter(s)
    && (schedule != [] ==>
          if schedule[0].0 >= |s.calls| then OrderlyThroughout(s, schedule[1..])
          else
            StepKeeps(s, schedule[0].0, schedule[0].1);
            OrderlyThroughout(Step(s, schedule[0].0, schedule[0].1), schedule[1..]))
  }

  lemma {:induction false} ContiguousRun(s: System, schedule: seq<(nat, Choice)>)
    requires Inv(s) && Contiguous(s) && OrderlyThroughout(s, schedule)
    ensures Contiguous(Run(s, schedule))
    decreases |schedule|
  {
    hide Inv, Step, Contiguous, OneReader, OneWriter;
    if schedule != [] {
      var c, choice := schedule[0].0, schedule[0].1;
      if c < |s.calls| {
        StepKeeps(s, c, choice);
        ContiguousStep(s, c, choice);
        ContiguousRun(Step(s, c, choice), schedule[1..]);
      } else {
        ContiguousRun(s, schedule[1..]);
      }
    }
  }

  /**
   * With one reader and one writer at a time, a finished write has put in all of its bytes, and they are the latest.
   */
  lemma WholeWrite(threads: nat, schedule: seq<(nat, Choice)>, c: nat, choice: Choice)
    requires Inv(Fresh(threads)) && OrderlyThroughout(Fresh(threads), schedule)
    requires var s := Run(Fresh(threads), schedule); c < |s.calls| && s.calls[c].WriteCopy?
    ensures var s := Run(Fresh(threads), schedule);
            && s.ring.head < |s.ring.buf| && s.ring.tail < |s.ring.buf|
            && var call, src := Step(s, c, choice).calls[c], s.calls[c].src;
               call.WriteDone? ==> call.n == |src| && EndsWith(s.written, src)
  {
    hide Run, Contents, OrderlyThroughout;
    ContiguousRun(Fresh(threads), schedule);
    var s := Run(Fresh(threads), schedule);
    RingShape(s.ring);
    var src := s.calls[c].src;
    assert Latest(s.calls[c], s.written, s.taken);
    assert src[..|src|] == src;
  }
}
