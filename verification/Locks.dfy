/**
 * arch/x86_64/smp/lock.c as state machines over any number of CPUs. One step is one access to shared memory by one
 * CPU; a schedule names the CPU of each step and, for a CPU at liberty to choose, what it does. `data` stands for
 * whatever the lock protects, and `snap[c]` for what CPU c last read or wrote there in its critical section.
 */
module Spinlock {
  /** A CPU about to exchange, to record itself as owner, inside, about to clear the owner, about to clear the word. */
  datatype Pc = Idle | Swap(trying: bool) | Own | Held | Disown | Unlock

  datatype State = State(locked: nat, owner: int, pc: seq<Pc>, data: int, snap: seq<int>)

  datatype Choice = Acquire | TryAcquire | Write(v: int) | Release

  predicate Past(p: Pc) {
    p.Own? || p.Held? || p.Disown? || p.Unlock?
  }

  function Init(n: nat, data: int): State {
    State(0, -1, seq(n, _ => Idle), data, seq(n, _ => 0))
  }

  /** One step of CPU c. */
  function Step(s: State, c: nat, choice: Choice): State
    requires c < |s.pc| == |s.snap|
  {
    match s.pc[c]
    case Idle =>
      if choice.Acquire? then s.(pc := s.pc[c := Swap(false)])
      else if choice.TryAcquire? then s.(pc := s.pc[c := Swap(true)])
      else s
    case Swap(trying) =>
      if s.locked == 0 then s.(locked := 1, pc := s.pc[c := Own])
      else s.(locked := 1, pc := s.pc[c := if trying then Idle else Swap(false)])
    case Own => s.(owner := c, pc := s.pc[c := Held], snap := s.snap[c := s.data])
    case Held =>
      if choice.Write? then s.(data := choice.v, snap := s.snap[c := choice.v])
      else if choice.Release? then s.(pc := s.pc[c := Disown])
      else s
    case Disown => s.(owner := -1, pc := s.pc[c := Unlock])
    case Unlock => s.(locked := 0, pc := s.pc[c := Idle])
  }

  /** The state after a schedule; entries for CPUs that do not exist are skipped. */
  function Run(s: State, schedule: seq<(nat, Choice)>): State
    requires |s.pc| == |s.snap|
    decreases |schedule|
  {
    if schedule == [] then s
    else if schedule[0].0 >= |s.pc| then Run(s, schedule[1..])
    else Run(Step(s, schedule[0].0, schedule[0].1), schedule[1..])
  }

  /** CPU h, and no other, is past the exchange; -1 stands for none. */
  ghost predicate HolderIs(s: State, h: int) {
    && |s.snap| == |s.pc| && -1 <= h < |s.pc|
    && s.locked == (if h == -1 then 0 else 1)
    && (forall i | 0 <= i < |s.pc| :: Past(s.pc[i]) <==> i == h)
    && s.owner == (if h != -1 && (s.pc[h].Held? || s.pc[h].Disown?) then h else -1)
    && (h != -1 && s.pc[h].Held? ==> s.snap[h] == s.data)
  }

  lemma StepKeeps(s: State, h: int, c: nat, choice: Choice) returns (h': int)
    requires HolderIs(s, h) && c < |s.pc|
    ensures HolderIs(Step(s, c, choice), h')
  {
    h' := if Past(Step(s, c, choice).pc[c]) then c else if h == c then -1 else h;
  }

  lemma {:induction false} RunKeeps(s: State, h: int, schedule: seq<(nat, Choice)>) returns (h': int)
    requires HolderIs(s, h)
    ensures HolderIs(Run(s, schedule), h') && |Run(s, schedule).pc| == |s.pc|
    decreases |schedule|
  {
    h' := h;
    if schedule != [] {
      var s', h1 := s, h;
      if schedule[0].0 < |s.pc| {
        h1 := StepKeeps(s, h, schedule[0].0, schedule[0].1);
        s' := Step(s, schedule[0].0, schedule[0].1);
      }
      h' := RunKeeps(s', h1, schedule[1..]);
    }
  }

  /** In every run at most one CPU is inside, `owner_cpu` names it, and the data does not change under it. */
  lemma MutualExclusion(n: nat, data: int, schedule: seq<(nat, Choice)>)
    ensures var s := Run(Init(n, data), schedule);
            && |s.pc| == |s.snap| == n
            && (forall i | 0 <= i < n && s.pc[i].Held? :: s.locked == 1 && s.owner == i && s.snap[i] == s.data)
            && (forall i, j | 0 <= i < n && 0 <= j < n && Past(s.pc[i]) && Past(s.pc[j]) :: i == j)
  {
    var _ := RunKeeps(Init(n, data), -1, schedule);
  }

  /** In every run, a `try` fails exactly when another CPU is past the exchange, and then only ends the attempt. */
  lemma TryFails(n: nat, data: int, schedule: seq<(nat, Choice)>, c: nat, choice: Choice)
    requires c < n && |Run(Init(n, data), schedule).pc| == |Run(Init(n, data), schedule).snap| == n
    requires Run(Init(n, data), schedule).pc[c] == Swap(true)
    ensures var s := Run(Init(n, data), schedule);
            var s' := Step(s, c, choice);
            && (s' == s.(pc := s.pc[c := Idle]) <==> exists i | 0 <= i < n :: i != c && Past(s.pc[i]))
            && (s' == s.(pc := s.pc[c := Idle]) || s' == s.(locked := 1, pc := s.pc[c := Own]))
  {
    var s := Run(Init(n, data), schedule);
    var h := RunKeeps(Init(n, data), -1, schedule);
    if h != -1 {
      assert Past(s.pc[h]) && h != c;
    } else {
      assert s.locked == 0;
    }
  }

  /** In every run, an exchange takes the lock exactly when no other CPU is past its own, and then the CPU gets in. */
  lemma FreeIsTaken(n: nat, data: int, schedule: seq<(nat, Choice)>, c: nat, x: Choice, y: Choice)
    requires c < n && |Run(Init(n, data), schedule).pc| == |Run(Init(n, data), schedule).snap| == n
    requires Run(Init(n, data), schedule).pc[c].Swap?
    ensures var s := Run(Init(n, data), schedule);
            && (Step(s, c, x).pc[c] == Own <==> forall i | 0 <= i < n :: !Past(s.pc[i]))
            && (Step(s, c, x).pc[c] == Own ==>
                  var s' := Step(Step(s, c, x), c, y);
                  s'.pc[c] == Held && s'.owner == c && s'.snap[c] == s'.data == s.data)
  {
    var s := Run(Init(n, data), schedule);
    var h := RunKeeps(Init(n, data), -1, schedule);
    if h != -1 {
      assert Past(s.pc[h]);
    }
  }

  /** In every run, a CPU inside that releases is out, and the lock free, after two more steps of its own. */
  lemma ReleaseFrees(n: nat, data: int, schedule: seq<(nat, Choice)>, c: nat, x: Choice, y: Choice)
    requires c < n && |Run(Init(n, data), schedule).pc| == |Run(Init(n, data), schedule).snap| == n
    requires Run(Init(n, data), schedule).pc[c] == Held
    ensures var s := Run(Init(n, data), schedule);
            var s' := Step(Step(Step(s, c, Release), c, x), c, y);
            && s'.pc[c] == Idle && s'.locked == 0 && s'.owner == -1 && s'.data == s.data
            && forall i | 0 <= i < n :: !Past(s'.pc[i])
  {
    var s := Run(Init(n, data), schedule);
    var h := RunKeeps(Init(n, data), -1, schedule);
    var h1 := StepKeeps(s, h, c, Release);
    var h2 := StepKeeps(Step(s, c, Release), h1, c, x);
    var h3 := StepKeeps(Step(Step(s, c, Release), c, x), h2, c, y);
  }

  /** An idle CPU that asks gets as far as the exchange, and what other CPUs do moves it neither forward nor back. */
  lemma Asks(s: State, c: nat, d: nat, choice: Choice)
    requires c < |s.pc| == |s.snap| && d < |s.pc|
    ensures s.pc[c] == Idle ==> Step(s, c, Acquire).pc[c] == Swap(false) && Step(s, c, TryAcquire).pc[c] == Swap(true)
    ensures d != c ==> Step(s, d, choice).pc[c] == s.pc[c]
    ensures s.pc[c] == Held && choice.Write? ==>
              Step(s, c, choice) == s.(data := choice.v, snap := s.snap[c := choice.v])
    ensures s.pc[c] == Held && !choice.Write? && !choice.Release? ==> Step(s, c, choice) == s
  {}
}

module Mutex {
  /** The fast exchange, the slow path's load and exchange, then as for the spinlock. */
  datatype Pc = Idle | Fast | Look | Slow | Own | Held | Disown | Unlock

  datatype State = State(count: nat, owner: int, pc: seq<Pc>, data: int, snap: seq<int>)

  datatype Choice = Acquire | Write(v: int) | Release

  predicate Past(p: Pc) {
    p.Own? || p.Held? || p.Disown? || p.Unlock?
  }

  function Init(n: nat, data: int): State {
    State(1, -1, seq(n, _ => Idle), data, seq(n, _ => 0))
  }

  function Step(s: State, c: nat, choice: Choice): State
    requires c < |s.pc| == |s.snap|
  {
    match s.pc[c]
    case Idle => if choice.Acquire? then s.(pc := s.pc[c := Fast]) else s
    case Fast => if s.count == 1 then s.(count := 0, pc := s.pc[c := Own]) else s.(pc := s.pc[c := Look])
    case Look => if s.count == 1 then s.(pc := s.pc[c := Slow]) else s
    case Slow => if s.count == 1 then s.(count := 0, pc := s.pc[c := Own]) else s.(pc := s.pc[c := Look])
    case Own => s.(owner := c, pc := s.pc[c := Held], snap := s.snap[c := s.data])
    case Held =>
      if choice.Write? then s.(data := choice.v, snap := s.snap[c := choice.v])
      else if choice.Release? then s.(pc := s.pc[c := Disown])
      else s
    case Disown => s.(owner := -1, pc := s.pc[c := Unlock])
    case Unlock => s.(count := 1, pc := s.pc[c := Idle])
  }

  function Run(s: State, schedule: seq<(nat, Choice)>): State
    requires |s.pc| == |s.snap|
    decreases |schedule|
  {
    if schedule == [] then s
    else if schedule[0].0 >= |s.pc| then Run(s, schedule[1..])
    else Run(Step(s, schedule[0].0, schedule[0].1), schedule[1..])
  }

  ghost predicate HolderIs(s: State, h: int) {
    && |s.snap| == |s.pc| && -1 <= h < |s.pc|
    && s.count == (if h == -1 then 1 else 0)
    && (forall i | 0 <= i < |s.pc| :: Past(s.pc[i]) <==> i == h)
    && s.owner == (if h != -1 && (s.pc[h].Held? || s.pc[h].Disown?) then h else -1)
    && (h != -1 && s.pc[h].Held? ==> s.snap[h] == s.data)
  }

  lemma StepKeeps(s: State, h: int, c: nat, choice: Choice) returns (h': int)
    requires HolderIs(s, h) && c < |s.pc|
    ensures HolderIs(Step(s, c, choice), h')
  {
    h' := if Past(Step(s, c, choice).pc[c]) then c else if h == c then -1 else h;
  }

  lemma {:induction false} RunKeeps(s: State, h: int, schedule: seq<(nat, Choice)>) returns (h': int)
    requires HolderIs(s, h)
    ensures HolderIs(Run(s, schedule), h') && |Run(s, schedule).pc| == |s.pc|
    decreases |schedule|
  {
    h' := h;
    if schedule != [] {
      var s', h1 := s, h;
      if schedule[0].0 < |s.pc| {
        h1 := StepKeeps(s, h, schedule[0].0, schedule[0].1);
        s' := Step(s, schedule[0].0, schedule[0].1);
      }
      h' := RunKeeps(s', h1, schedule[1..]);
    }
  }

  lemma MutualExclusion(n: nat, data: int, schedule: seq<(nat, Choice)>)
    ensures var s := Run(Init(n, data), schedule);
            && |s.pc| == |s.snap| == n
            && (forall i | 0 <= i < n && s.pc[i].Held? :: s.count == 0 && s.owner == i && s.snap[i] == s.data)
            && (forall i, j | 0 <= i < n && 0 <= j < n && Past(s.pc[i]) && Past(s.pc[j]) :: i == j)
  {
    var _ := RunKeeps(Init(n, data), -1, schedule);
  }

  /**
   * In every run, either exchange takes the lock exactly when no other CPU is past its own, and then the CPU gets in;
   * and the slow path goes on to its exchange exactly when it sees the lock free.
   */
  lemma FreeIsTaken(n: nat, data: int, schedule: seq<(nat, Choice)>, c: nat, x: Choice, y: Choice)
    requires c < n && |Run(Init(n, data), schedule).pc| == |Run(Init(n, data), schedule).snap| == n
    ensures var s := Run(Init(n, data), schedule);
            var s1 := Step(s, c, x);
            var free := forall i | 0 <= i < n :: !Past(s.pc[i]);
            && (s.pc[c].Fast? || s.pc[c].Slow? ==> s1.pc[c] == if free then Own else Look)
            && (s.pc[c].Look? ==> s1.pc[c] == if free then Slow else Look)
            && (s1.pc[c] == Own ==>
                  var s' := Step(s1, c, y);
                  s'.pc[c] == Held && s'.owner == c && s'.snap[c] == s'.data == s.data)
  {
    var s := Run(Init(n, data), schedule);
    var h := RunKeeps(Init(n, data), -1, schedule);
    if h != -1 {
      assert Past(s.pc[h]);
    }
  }

  /** In every run, a CPU inside that releases is out, and the lock free, after two more steps of its own. */
  lemma ReleaseFrees(n: nat, data: int, schedule: seq<(nat, Choice)>, c: nat, x: Choice, y: Choice)
    requires c < n && |Run(Init(n, data), schedule).pc| == |Run(Init(n, data), schedule).snap| == n
    requires Run(Init(n, data), schedule).pc[c] == Held
    ensures var s := Run(Init(n, data), schedule);
            var s' := Step(Step(Step(s, c, Release), c, x), c, y);
            && s'.pc[c] == Idle && s'.count == 1 && s'.owner == -1 && s'.data == s.data
            && forall i | 0 <= i < n :: !Past(s'.pc[i])
  {
    var s := Run(Init(n, data), schedule);
    var h := RunKeeps(Init(n, data), -1, schedule);
    var h1 := StepKeeps(s, h, c, Release);
    var h2 := StepKeeps(Step(s, c, Release), h1, c, x);
    var h3 := StepKeeps(Step(Step(s, c, Release), c, x), h2, c, y);
  }

  /** An idle CPU that asks gets as far as the fast exchange; other CPUs move it neither forward nor back. */
  lemma Asks(s: State, c: nat, d: nat, choice: Choice)
    requires c < |s.pc| == |s.snap| && d < |s.pc|
    ensures s.pc[c] == Idle ==> Step(s, c, Acquire).pc[c] == Fast
    ensures d != c ==> Step(s, d, choice).pc[c] == s.pc[c]
    ensures s.pc[c] == Held && choice.Write? ==>
              Step(s, c, choice) == s.(data := choice.v, snap := s.snap[c := choice.v])
    ensures s.pc[c] == Held && !choice.Write? && !choice.Release? ==> Step(s, c, choice) == s
  {}
}

module RwLock {
  /**
   * Readers: about to look at the flag, to increment, to look again, to give up by decrementing; inside.
   * Writers: about to exchange, to look at the counter, to record themselves; inside; about to clear the flag.
   */
  datatype Pc = Idle
    | Look | Enter | Recheck | Back | Reading
    | Swap | Drain | Own | Writing | Unlock

  /** `readers` and `writers` are 32-bit words. */
  datatype State = State(readers: nat, writers: nat, writerCpu: int, pc: seq<Pc>, data: int, snap: seq<int>)

  datatype Choice = ReadAcquire | WriteAcquire | Write(v: int) | Release

  const WORD: nat := 0x1_0000_0000

  function Init(n: nat, data: int): State {
    State(0, 0, -1, seq(n, _ => Idle), data, seq(n, _ => 0))
  }

  function Step(s: State, c: nat, choice: Choice): State
    requires c < |s.pc| == |s.snap|
  {
    match s.pc[c]
    case Idle =>
      if choice.ReadAcquire? then s.(pc := s.pc[c := Look])
      else if choice.WriteAcquire? then s.(pc := s.pc[c := Swap])
      else s
    case Look => if s.writers > 0 then s else s.(pc := s.pc[c := Enter])
    case Enter => s.(readers := (s.readers + 1) % WORD, pc := s.pc[c := Recheck])
    case Recheck =>
      if s.writers > 0 then s.(pc := s.pc[c := Back])
      else s.(pc := s.pc[c := Reading], snap := s.snap[c := s.data])
    case Back => s.(readers := (s.readers + WORD - 1) % WORD, pc := s.pc[c := Look])
    case Reading =>
      if choice.Release? then s.(readers := (s.readers + WORD - 1) % WORD, pc := s.pc[c := Idle]) else s
    case Swap => if s.writers == 0 then s.(writers := 1, pc := s.pc[c := Drain]) else s.(writers := 1)
    case Drain => if s.readers > 0 then s else s.(pc := s.pc[c := Own])
    case Own => s.(writerCpu := c, pc := s.pc[c := Writing], snap := s.snap[c := s.data])
    case Writing =>
      if choice.Write? then s.(data := choice.v, snap := s.snap[c := choice.v])
      else if choice.Release? then s.(writerCpu := -1, pc := s.pc[c := Unlock])
      else s
    case Unlock => s.(writers := 0, pc := s.pc[c := Idle])
  }

  function Run(s: State, schedule: seq<(nat, Choice)>): State
    requires |s.pc| == |s.snap|
    decreases |schedule|
  {
    if schedule == [] then s
    else if schedule[0].0 >= |s.pc| then Run(s, schedule[1..])
    else Run(Step(s, schedule[0].0, schedule[0].1), schedule[1..])
  }

  predicate Flagged(p: Pc) {
    p.Drain? || p.Own? || p.Writing? || p.Unlock?
  }

  /** Between its increment and its decrement. */
  predicate Counted(p: Pc) {
    p.Recheck? || p.Back? || p.Reading?
  }

  // ---- Counting CPUs ----

  /** The sum of a weight over all CPUs. */
  ghost function Total(w: Pc -> nat, pc: seq<Pc>): nat {
    if pc == [] then 0 else Total(w, pc[..|pc| - 1]) + w(pc[|pc| - 1])
  }

  lemma {:induction false} TotalUpdate(w: Pc -> nat, pc: seq<Pc>, c: nat, p: Pc)
    requires c < |pc|
    ensures Total(w, pc[c := p]) + w(pc[c]) == Total(w, pc) + w(p)
  {
    var k := |pc| - 1;
    if c < k {
      TotalUpdate(w, pc[..k], c, p);
      assert pc[c := p][..k] == pc[..k][c := p];
    } else {
      assert pc[c := p][..k] == pc[..k];
    }
  }

  lemma {:induction false} TotalBound(w: Pc -> nat, pc: seq<Pc>, bound: nat)
    requires forall p :: w(p) <= bound
    ensures Total(w, pc) <= bound * |pc|
  {
    if pc != [] {
      TotalBound(w, pc[..|pc| - 1], bound);
    }
  }

  lemma {:induction false} TotalZero(w: Pc -> nat, pc: seq<Pc>)
    ensures Total(w, pc) == 0 <==> forall i | 0 <= i < |pc| :: w(pc[i]) == 0
  {
    if pc != [] {
      TotalZero(w, pc[..|pc| - 1]);
    }
  }

  ghost function CountedWeight(): Pc -> nat {
    (p: Pc) => if Counted(p) then 1 else 0
  }

  // ---- The invariant ----

  /**
   * CPU h, and no other, has the flag (-1 for none). The counter is the number of CPUs between increment and decrement.
   * Once h has seen it at 0, none of them is inside.
   */
  ghost predicate FlagIs(s: State, h: int) {
    && |s.snap| == |s.pc| < WORD && -1 <= h < |s.pc|
    && s.writers == (if h == -1 then 0 else 1)
    && (forall i | 0 <= i < |s.pc| :: Flagged(s.pc[i]) <==> i == h)
    && s.readers == Total(CountedWeight(), s.pc)
    && (h != -1 && !s.pc[h].Drain? ==> forall i | 0 <= i < |s.pc| :: !s.pc[i].Reading?)
    && s.writerCpu == (if h != -1 && s.pc[h].Writing? then h else -1)
    && (forall i | 0 <= i < |s.pc| && (s.pc[i].Reading? || s.pc[i].Writing?) :: s.snap[i] == s.data)
  }

  lemma Wrap(r: nat)
    ensures r + 1 < WORD ==> (r + 1) % WORD == r + 1
    ensures 0 < r < WORD ==> (r + WORD - 1) % WORD == r - 1
  {
    if 0 < r < WORD {
      assert r + WORD - 1 == WORD + (r - 1);
    }
  }

  /** A step moves one CPU, and the counter by one if that CPU starts or stops being counted. */
  lemma StepShape(s: State, c: nat, choice: Choice)
    requires c < |s.pc| == |s.snap| && s.readers < WORD
    requires !Counted(s.pc[c]) ==> s.readers + 1 < WORD
    requires Counted(s.pc[c]) ==> s.readers > 0
    ensures var s' := Step(s, c, choice);
            var w := CountedWeight();
            s'.pc == s.pc[c := s'.pc[c]] && s'.readers + w(s.pc[c]) == s.readers + w(s'.pc[c])
  {
    Wrap(s.readers);
  }

  /** The counter stays exact, without wrapping. */
  lemma CounterStep(s: State, h: int, c: nat, choice: Choice)
    requires FlagIs(s, h) && c < |s.pc|
    ensures Step(s, c, choice).readers == Total(CountedWeight(), Step(s, c, choice).pc)
  {
    hide Total, Step;
    var w := CountedWeight();
    TotalBound(w, s.pc, 1);
    TotalUpdate(w, s.pc, c, Enter);
    TotalBound(w, s.pc[c := Enter], 1);
    TotalUpdate(w, s.pc, c, Recheck);
    TotalBound(w, s.pc[c := Recheck], 1);
    StepShape(s, c, choice);
    TotalUpdate(w, s.pc, c, Step(s, c, choice).pc[c]);
  }

  /** A counter at 0 means nobody is counted. */
  lemma NobodyCounted(s: State, h: int)
    requires FlagIs(s, h) && s.readers == 0
    ensures forall i | 0 <= i < |s.pc| :: !Counted(s.pc[i])
  {
    TotalZero(CountedWeight(), s.pc);
  }

  lemma StepKeeps(s: State, h: int, c: nat, choice: Choice) returns (h': int)
    requires FlagIs(s, h) && c < |s.pc|
    ensures FlagIs(Step(s, c, choice), h')
  {
    hide Total;
    h' := if Flagged(Step(s, c, choice).pc[c]) then c else if h == c then -1 else h;
    CounterStep(s, h, c, choice);
    if s.readers == 0 {
      NobodyCounted(s, h);
    }
  }

  lemma {:induction false} RunKeeps(s: State, h: int, schedule: seq<(nat, Choice)>) returns (h': int)
    requires FlagIs(s, h)
    ensures FlagIs(Run(s, schedule), h') && |Run(s, schedule).pc| == |s.pc|
    decreases |schedule|
  {
    h' := h;
    if schedule != [] {
      var s', h1 := s, h;
      if schedule[0].0 < |s.pc| {
        h1 := StepKeeps(s, h, schedule[0].0, schedule[0].1);
        s' := Step(s, schedule[0].0, schedule[0].1);
      }
      h' := RunKeeps(s', h1, schedule[1..]);
    }
  }

  lemma InitHolds(n: nat, data: int)
    requires n < WORD
    ensures FlagIs(Init(n, data), -1)
  {
    TotalZero(CountedWeight(), Init(n, data).pc);
  }

  ghost function ReadersInside(s: State): set<nat> {
    set i: nat | i < |s.pc| && s.pc[i].Reading?
  }

  /**
   * In every run: never a writer inside together with a reader or another writer; the counter is exact; `writer_cpu`
   * names the writer inside; and what a CPU inside has read or written stays the current data.
   */
  lemma Exclusion(n: nat, data: int, schedule: seq<(nat, Choice)>)
    requires n < WORD
    ensures var s := Run(Init(n, data), schedule);
            && |s.pc| == |s.snap| == n && s.readers == Total(CountedWeight(), s.pc)
            && (forall i, j | 0 <= i < n && 0 <= j < n && s.pc[i].Writing?
               && (s.pc[j].Writing? || s.pc[j].Reading?) :: i == j)
            && (forall i | 0 <= i < n && s.pc[i].Writing? :: s.writers == 1 && s.writerCpu == i)
            && (forall i | 0 <= i < n && (s.pc[i].Reading? || s.pc[i].Writing?) :: s.snap[i] == s.data)
  {
    InitHolds(n, data);
    var h := RunKeeps(Init(n, data), -1, schedule);
    var s := Run(Init(n, data), schedule);
    assert forall i | 0 <= i < n && s.pc[i].Writing? :: Flagged(s.pc[i]);
  }

  // ---- Writer preference ----

  /** The flag is up in every state of this run before its last. */
  ghost predicate FlagStays(s: State, schedule: seq<(nat, Choice)>)
    requires |s.pc| == |s.snap|
    decreases |schedule|
  {
    schedule != [] ==>
      s.writers > 0
          && FlagStays(if schedule[0].0 < |s.pc| then Step(s, schedule[0].0, schedule[0].1) else s, schedule[1..])
  }

  /** How many counter updates a reader may still make while the flag is up. */
  ghost function Owed(): Pc -> nat {
    (p: Pc) => if p.Enter? then 2 else if Counted(p) then 1 else 0
  }

  /** The number of steps of the run that update the counter. */
  ghost function CounterUpdates(s: State, schedule: seq<(nat, Choice)>): nat
    requires |s.pc| == |s.snap|
    decreases |schedule|
  {
    if schedule == [] then 0
    else if schedule[0].0 >= |s.pc| then CounterUpdates(s, schedule[1..])
    else
      var s' := Step(s, schedule[0].0, schedule[0].1);
      (if s'.readers != s.readers then 1 else 0) + CounterUpdates(s', schedule[1..])
  }

  lemma OwedStep(s: State, h: int, c: nat, choice: Choice)
    requires FlagIs(s, h) && c < |s.pc| && s.writers > 0
    ensures var s' := Step(s, c, choice);
            && ReadersInside(s') <= ReadersInside(s)
            && Total(Owed(), s'.pc) + (if s'.readers != s.readers then 1 else 0) <= Total(Owed(), s.pc)
  {
    hide Total;
    var s' := Step(s, c, choice);
    TotalUpdate(Owed(), s.pc, c, s'.pc[c]);
    assert s'.pc == s.pc[c := s'.pc[c]];
  }

  /**
   * While a writer's flag is up no new reader gets in, and the counter changes at most twice more per CPU,
   * so the writer's wait for it to reach 0 ends once the readers inside leave and those in between finish.
   */
  lemma {:induction false} NoNewReaders(s: State, h: int, schedule: seq<(nat, Choice)>)
    requires FlagIs(s, h) && FlagStays(s, schedule)
    ensures ReadersInside(Run(s, schedule)) <= ReadersInside(s)
    ensures CounterUpdates(s, schedule) + Total(Owed(), Run(s, schedule).pc) <= Total(Owed(), s.pc) <= 2 * |s.pc|
    decreases |schedule|
  {
    TotalBound(Owed(), s.pc, 2);
    if schedule != [] {
      var c, choice := schedule[0].0, schedule[0].1;
      if c < |s.pc| {
        OwedStep(s, h, c, choice);
        var h' := StepKeeps(s, h, c, choice);
        NoNewReaders(Step(s, c, choice), h', schedule[1..]);
      } else {
        NoNewReaders(s, h, schedule[1..]);
      }
    }
  }

  /** With nothing owed the counter is 0 and the waiting writer's next look lets it in. */
  lemma DrainEnds(s: State, h: nat, choice: Choice)
    requires FlagIs(s, h) && s.pc[h].Drain? && Total(Owed(), s.pc) == 0
    ensures s.readers == 0 && Step(s, h, choice).pc[h] == Own
  {
    TotalZero(Owed(), s.pc);
    TotalZero(CountedWeight(), s.pc);
  }

  // ---- Getting in and out ----

  /**
   * In every run: a reader goes on, at either look, exactly when no CPU has the flag; a writer's exchange takes the
   * flag exactly when no CPU has it; and the writer goes in exactly when no CPU is between increment and decrement.
   */
  lemma Admits(n: nat, data: int, schedule: seq<(nat, Choice)>, c: nat, choice: Choice)
    requires n < WORD && c < n
    requires |Run(Init(n, data), schedule).pc| == |Run(Init(n, data), schedule).snap| == n
    ensures var s := Run(Init(n, data), schedule);
            var s' := Step(s, c, choice);
            var unflagged := forall i | 0 <= i < n :: !Flagged(s.pc[i]);
            && (s.pc[c].Look? ==> s'.pc[c] == if unflagged then Enter else Look)
            && (s.pc[c].Recheck? ==> s'.pc[c] == if unflagged then Reading else Back)
            && (s.pc[c].Swap? ==> s'.pc[c] == if unflagged then Drain else Swap)
            && (s.pc[c].Drain? ==> s'.pc[c] == if forall i | 0 <= i < n :: !Counted(s.pc[i]) then Own else Drain)
            && ((s.pc[c].Recheck? && unflagged) || s.pc[c].Own? ==> s'.snap[c] == s.data)
  {
    hide Total;
    var s := Run(Init(n, data), schedule);
    InitHolds(n, data);
    var h := RunKeeps(Init(n, data), -1, schedule);
    if h != -1 {
      assert Flagged(s.pc[h]);
    }
    TotalZero(CountedWeight(), s.pc);
  }

  /** The flag is down in every state of this run before its last. */
  ghost predicate FlagDown(s: State, schedule: seq<(nat, Choice)>)
    requires |s.pc| == |s.snap|
    decreases |schedule|
  {
    schedule != [] ==>
      s.writers == 0
          && FlagDown(if schedule[0].0 < |s.pc| then Step(s, schedule[0].0, schedule[0].1) else s, schedule[1..])
  }

  /** What CPU c chooses at its steps, in order. */
  ghost function Choices(schedule: seq<(nat, Choice)>, c: nat): seq<Choice> {
    if schedule == [] then []
    else (if schedule[0].0 == c then [schedule[0].1] else []) + Choices(schedule[1..], c)
  }

  /** How many steps a reader on its way in still has to make. */
  ghost function ToGo(p: Pc): nat {
    match p
    case Look => 3
    case Enter => 2
    case Recheck => 1
    case _ => 0
  }

  lemma {:induction false} ReaderAdvances(s: State, schedule: seq<(nat, Choice)>, c: nat)
    requires |s.pc| == |s.snap| && c < |s.pc| && FlagDown(s, schedule)
    requires s.pc[c].Look? || s.pc[c].Enter? || s.pc[c].Recheck? || s.pc[c].Reading?
    requires |Choices(schedule, c)| == ToGo(s.pc[c])
    ensures |Run(s, schedule).pc| == |s.pc| && Run(s, schedule).pc[c] == Reading
    decreases |schedule|
  {
    if schedule != [] {
      var d, choice := schedule[0].0, schedule[0].1;
      ReaderAdvances(if d < |s.pc| then Step(s, d, choice) else s, schedule[1..], c);
    }
  }

  /**
   * In every run, whatever the other CPUs do: while the flag stays down, an idle CPU that asks to read is reading after
   * its fourth step.
   */
  lemma {:induction false} ReaderGetsIn(s: State, schedule: seq<(nat, Choice)>, c: nat)
    requires |s.pc| == |s.snap| && c < |s.pc| && FlagDown(s, schedule) && s.pc[c] == Idle
    requires |Choices(schedule, c)| == 4 && Choices(schedule, c)[0] == ReadAcquire
    ensures |Run(s, schedule).pc| == |s.pc| && Run(s, schedule).pc[c] == Reading
    decreases |schedule|
  {
    var d, choice := schedule[0].0, schedule[0].1;
    var s' := if d < |s.pc| then Step(s, d, choice) else s;
    if d == c {
      ReaderAdvances(s', schedule[1..], c);
    } else {
      ReaderGetsIn(s', schedule[1..], c);
    }
  }

  lemma {:induction false} RunOn(s: State, first: seq<(nat, Choice)>, rest: seq<(nat, Choice)>)
    requires |s.pc| == |s.snap|
    ensures |Run(s, first).pc| == |Run(s, first).snap| && Run(s, first + rest) == Run(Run(s, first), rest)
    decreases |first|
  {
    if first == [] {
      assert first + rest == rest;
    } else {
      assert (first + rest)[0] == first[0] && (first + rest)[1..] == first[1..] + rest;
      RunOn(if first[0].0 < |s.pc| then Step(s, first[0].0, first[0].1) else s, first[1..], rest);
    }
  }

  /** Readers do share the lock: a run leads to a state in which any number of CPUs are reading at once. */
  lemma {:induction false} ReadersShare(n: nat, data: int, k: nat) returns (schedule: seq<(nat, Choice)>)
    requires k <= n < WORD
    ensures var s := Run(Init(n, data), schedule);
            && |s.pc| == |s.snap| == n && s.writers == 0
            && forall i | 0 <= i < n :: s.pc[i] == if i < k then Reading else Idle
  {
    schedule := [];
    if k > 0 {
      var first := ReadersShare(n, data, k - 1);
      var c := k - 1;
      var steps: seq<(nat, Choice)> := [(c, ReadAcquire), (c, Release), (c, Release), (c, Release)];
      schedule := first + steps;
      RunOn(Init(n, data), first, steps);
      FourSteps(Run(Init(n, data), first), c);
    }
  }

  lemma FourSteps(s: State, c: nat)
    requires |s.pc| == |s.snap| && c < |s.pc| && s.pc[c] == Idle && s.writers == 0
    ensures var steps: seq<(nat, Choice)> := [(c, ReadAcquire), (c, Release), (c, Release), (c, Release)];
            var s' := Run(s, steps);
            && |s'.pc| == |s'.snap| && s'.pc == s.pc[c := Reading] && s'.writers == 0
  {
    var steps: seq<(nat, Choice)> := [(c, ReadAcquire), (c, Release), (c, Release), (c, Release)];
    var s1 := Step(s, c, ReadAcquire);
    var s2 := Step(s1, c, Release);
    var s3 := Step(s2, c, Release);
    var s4 := Step(s3, c, Release);
    assert s4.pc == s.pc[c := Reading];
    assert steps[1..] == [(c, Release), (c, Release), (c, Release)];
    assert steps[1..][1..] == [(c, Release), (c, Release)];
    assert steps[1..][1..][1..] == [(c, Release)];
    assert Run(s, steps) == Run(s1, steps[1..]) == Run(s2, steps[1..][1..]) == Run(s3, steps[1..][1..][1..])
           == Run(s4, steps[1..][1..][1..][1..]);
  }

  /** An idle CPU that asks is on its way; other CPUs move it neither forward nor back; only a writer inside writes. */
  lemma Asks(s: State, c: nat, d: nat, choice: Choice)
    requires c < |s.pc| == |s.snap| && d < |s.pc|
    ensures s.pc[c] == Idle ==> Step(s, c, ReadAcquire).pc[c] == Look && Step(s, c, WriteAcquire).pc[c] == Swap
    ensures d != c ==> Step(s, d, choice).pc[c] == s.pc[c]
    ensures Step(s, c, choice).data == if s.pc[c] == Writing && choice.Write? then choice.v else s.data
    ensures (s.pc[c] == Reading && !choice.Release?) || (s.pc[c] == Writing && !choice.Write? && !choice.Release?) ==>
              Step(s, c, choice) == s
  {}

  /** In every run, a writer asking for a lock with no reader and no flag is writing after four steps of its own. */
  lemma WriterGetsIn(s: State, c: nat, x: Choice, y: Choice, z: Choice)
    requires |s.pc| == |s.snap| && c < |s.pc| && s.pc[c] == Idle && s.writers == 0 && s.readers == 0
    ensures var s' := Step(Step(Step(Step(s, c, WriteAcquire), c, x), c, y), c, z);
            s'.pc[c] == Writing && s'.writerCpu == c && s'.snap[c] == s'.data == s.data
  {}

  /** In every run, a reader that releases is out at once, and a writer after one more step, with the flag down. */
  lemma ReleaseFrees(n: nat, data: int, schedule: seq<(nat, Choice)>, c: nat, x: Choice)
    requires n < WORD && c < n
    requires |Run(Init(n, data), schedule).pc| == |Run(Init(n, data), schedule).snap| == n
    ensures var s := Run(Init(n, data), schedule);
            var s1 := Step(s, c, Release);
            && (s.pc[c] == Reading ==> s.readers > 0 && s1 == s.(readers := s.readers - 1, pc := s.pc[c := Idle]))
            && (s.pc[c] == Writing ==>
                  Step(s1, c, x) == s.(writers := 0, writerCpu := -1, pc := s.pc[c := Idle])
                  && forall i | 0 <= i < n && i != c :: !Flagged(s.pc[i]) && !s.pc[i].Reading?)
  {
    hide Total;
    var s := Run(Init(n, data), schedule);
    InitHolds(n, data);
    var h := RunKeeps(Init(n, data), -1, schedule);
    TotalZero(CountedWeight(), s.pc);
    TotalBound(CountedWeight(), s.pc, 1);
    if s.pc[c] == Reading {
      assert CountedWeight()(s.pc[c]) == 1;
      Wrap(s.readers);
    }
    if s.pc[c] == Writing {
      assert Flagged(s.pc[c]);
    }
  }
}
