/**
 * kernel/proc/scheduler.c on values: what each operation does to the queue and to the processes' states, and what holds
 * over every run.
 */
module SchedSpec {
  import opened Common

  const QUEUE_SIZE: nat := 256
  const TIMESLICE: int := 5
  const PIT_HZ: nat := 1000
  datatype PState = Unused | Running | Ready | Sleeping | Zombie | Waiting

  /** Processes are numbers; -1 in the queue is NULL. */
  datatype Sched = Sched(queue: seq<int>, head: nat, tail: nat, count: int,
                         states: seq<PState>, slice: seq<int>, wakeAt: seq<nat>, cur: nat)

  ghost predicate Shaped(s: Sched) {
    && |s.queue| == QUEUE_SIZE && s.head < QUEUE_SIZE && s.tail < QUEUE_SIZE
    && |s.slice| == |s.wakeAt| == |s.states| && s.cur < |s.states|
    && forall i | 0 <= i < QUEUE_SIZE :: -1 <= s.queue[i] < |s.states|
  }

  /** The process in slot i is there and ready. */
  ghost predicate ReadyAt(s: Sched, i: nat)
    requires Shaped(s) && i < QUEUE_SIZE
  {
    s.queue[i] >= 0 && s.states[s.queue[i]] == Ready
  }

  /** How far slot i lies past the head, going round. */
  function Dist(head: nat, i: nat): (d: nat)
    requires head < QUEUE_SIZE && i < QUEUE_SIZE
    ensures d < QUEUE_SIZE
  {
    if i >= head then i - head else i + QUEUE_SIZE - head
  }

  /** Slot i is the ready slot nearest past the head. */
  ghost predicate IsNext(s: Sched, i: nat)
    requires Shaped(s) && i < QUEUE_SIZE
  {
    ReadyAt(s, i) && forall j: nat | j < QUEUE_SIZE && ReadyAt(s, j) :: Dist(s.head, i) <= Dist(s.head, j)
  }

  /** That slot, or -1 if no slot is ready. */
  ghost function Next(s: Sched): (i: int)
    requires Shaped(s)
    ensures -1 <= i < QUEUE_SIZE
    ensures i >= 0 ==> IsNext(s, i)
    ensures i < 0 ==> forall j: nat | j < QUEUE_SIZE :: !ReadyAt(s, j)
  {
    NextFrom(s, 0)
  }

  ghost function NextFrom(s: Sched, d: nat): (i: int)
    requires Shaped(s) && d <= QUEUE_SIZE
    requires forall j: nat | j < QUEUE_SIZE && ReadyAt(s, j) :: d <= Dist(s.head, j)
    ensures -1 <= i < QUEUE_SIZE
    ensures i >= 0 ==> IsNext(s, i)
    ensures i < 0 ==> forall j: nat | j < QUEUE_SIZE :: !ReadyAt(s, j)
    decreases QUEUE_SIZE - d
  {
    if d == QUEUE_SIZE then
      assert forall j: nat | j < QUEUE_SIZE :: Dist(s.head, j) < QUEUE_SIZE;
      -1
    else
    var i := if s.head + d < QUEUE_SIZE then s.head + d else s.head + d - QUEUE_SIZE;
    if ReadyAt(s, i) then i else NextFrom(s, d + 1)
  }

  lemma NextUnique(s: Sched, i: nat)
    requires Shaped(s) && i < QUEUE_SIZE && IsNext(s, i)
    ensures Next(s) == i
  {}

  // ---- The operations ----

  /** `next_ready` moves the head just past the slot it picks. */
  ghost function AfterPick(s: Sched): (s': Sched)
    requires Shaped(s)
    ensures Shaped(s')
  {
    if Next(s) < 0 then s else s.(head := (Next(s) + 1) % QUEUE_SIZE)
  }

  function Switch(s: Sched, to: nat): Sched
    requires s.cur < |s.states| == |s.slice| && to < |s.states|
  {
    if s.cur == to then s else
    var demoted := if s.states[s.cur] == Running then s.states[s.cur := Ready] else s.states;
    s.(states := demoted[to := Running], slice := s.slice[to := TIMESLICE], cur := to)
  }

  /** `sched_yield`. */
  ghost function Yield(s: Sched): (s': Sched)
    requires Shaped(s)
    ensures Shaped(s')
  {
    var i := Next(s);
    var s1 := AfterPick(s);
    if i < 0 || s.queue[i] == s.cur then
      if s.states[s.cur] == Running then s1.(slice := s1.slice[s.cur := TIMESLICE]) else s1
    else Switch(s1, s.queue[i])
  }

  /**
   * What a yield does, said of the states alone. The ready slot nearest past the head is passed; its process, unless it
   * is the current one, becomes current and running with a full slice, and the former one, if it was running, ready.
   * With no slot ready, a running process goes on with a full slice.
   */
  ghost predicate Yielded(s: Sched, s': Sched)
    requires Shaped(s)
  {
    && s'.queue == s.queue && s'.tail == s.tail && s'.count == s.count && s'.wakeAt == s.wakeAt
    && |s'.states| == |s'.slice| == |s.states| && s'.cur < |s.states|
    && (forall i: nat | i < QUEUE_SIZE && IsNext(s, i) :: s'.head == (i + 1) % 256 && Given(s, s', s.queue[i]))
    && ((forall i: nat | i < QUEUE_SIZE :: !ReadyAt(s, i)) ==> s'.head == s.head && Given(s, s', s.cur))
  }

  /** The processor goes to process p, or stays with it. */
  ghost predicate Given(s: Sched, s': Sched, p: nat)
    requires Shaped(s) && p < |s.states| == |s'.states| == |s'.slice|
  {
    && s'.cur == p
    && (forall q | 0 <= q < |s.states| ::
          s'.states[q] == if s.cur == p then s.states[q]
                          else if q == p then Running
                          else if q == s.cur && s.states[q] == Running then Ready else s.states[q])
    && (forall q | 0 <= q < |s.states| ::
          s'.slice[q] == if q == p && (s.cur != p || s.states[p] == Running) then 5 else s.slice[q])
  }

  lemma YieldIs(s: Sched)
    requires Shaped(s)
    ensures Yielded(s, Yield(s))
  {
    hide NextFrom, Dist;
    forall i: nat | i < QUEUE_SIZE && IsNext(s, i)
      ensures Next(s) == i
    {
      OneNext(s, i, Next(s));
    }
  }

  lemma OneNext(s: Sched, i: nat, j: int)
    requires Shaped(s) && i < QUEUE_SIZE && IsNext(s, i) && j < QUEUE_SIZE
    requires j >= 0 ==> IsNext(s, j)
    requires j < 0 ==> forall k: nat | k < QUEUE_SIZE :: !ReadyAt(s, k)
    ensures i == j
  {}

  /** The sleepers in the queue whose time has come are ready. */
  ghost function Woken(s: Sched, now: nat): (s': Sched)
    requires Shaped(s)
    ensures Shaped(s') && |s'.states| == |s.states|
  {
    s.(states := seq(|s.states|, p requires 0 <= p < |s.states| =>
      if p in s.queue && s.states[p] == Sleeping && now >= s.wakeAt[p] then Ready else s.states[p]))
  }

  /** `sched_tick`, up to the decision to yield. */
  ghost function Ticked(s: Sched, now: nat): (s': Sched)
    requires Shaped(s)
    ensures Shaped(s')
  {
    var s1 := Woken(s, now);
    s1.(slice := s1.slice[s.cur := s1.slice[s.cur] - 1])
  }

  ghost function Tick(s: Sched, now: nat): (s': Sched)
    requires Shaped(s)
    ensures Shaped(s')
  {
    var s1 := Ticked(s, now);
    if s1.slice[s.cur] > 0 then s1 else Yield(s1)
  }

  /** The current process gives up the processor in another state: asleep, waiting or gone. */
  function Parked(s: Sched, state: PState): Sched
    requires s.cur < |s.states|
  {
    s.(states := s.states[s.cur := state])
  }

  function Deadline(now: nat, ms: nat): nat {
    (now + ms * PIT_HZ % TWO64 / 1000) % TWO64
  }

  /** `sched_sleep`. */
  ghost function Sleep(s: Sched, now: nat, ms: nat): (s': Sched)
    requires Shaped(s)
    ensures Shaped(s')
  {
    Yield(Parked(s.(wakeAt := s.wakeAt[s.cur := Deadline(now, ms)]), Sleeping))
  }

  /** `sched_wake`. */
  function Wake(s: Sched, p: nat): Sched
    requires p < |s.states|
  {
    if s.states[p] == Sleeping || s.states[p] == Waiting then s.(states := s.states[p := Ready]) else s
  }

  /** `sched_add`. */
  function Add(s: Sched, p: nat): Sched
    requires s.tail < |s.queue|
  {
    if s.count >= QUEUE_SIZE then s
    else s.(queue := s.queue[s.tail := p], tail := (s.tail + 1) % QUEUE_SIZE, count := s.count + 1)
  }

  /** The lowest unused entry of the process table at or above i, or -1. */
  ghost function LowestUnused(states: seq<PState>, i: nat): (c: int)
    requires i <= |states|
    ensures -1 <= c < |states|
    ensures c >= 0 ==> i <= c && states[c] == Unused && forall k | i <= k < c :: states[k] != Unused
    ensures c < 0 ==> forall k | i <= k < |states| :: states[k] != Unused
    decreases |states| - i
  {
    if i == |states| then -1 else if states[i] == Unused then i else LowestUnused(states, i + 1)
  }

  /** `proc_create`: the lowest unused table entry but the first becomes a ready process. */
  ghost function Create(s: Sched): (s': Sched)
    requires Shaped(s)
    ensures Shaped(s')
  {
    var p := LowestUnused(s.states, 1);
    if p < 0 then s
    else s.(states := s.states[p := Ready], slice := s.slice[p := TIMESLICE], wakeAt := s.wakeAt[p := 0])
  }

  /** The start of the first program gives up a process it has just made: ready, and not queued yet. */
  function Discard(s: Sched, p: nat): Sched
    requires p < |s.states|
  {
    if s.states[p] == Ready && p !in s.queue && p != s.cur then s.(states := s.states[p := Unused]) else s
  }

  /** `wait4`, called by the current process, on a process that has exited; a process that has exited calls nothing. */
  function Reap(s: Sched, p: nat): Sched
    requires p < |s.states| && s.cur < |s.states|
  {
    if s.states[p] == Zombie && s.states[s.cur] != Zombie then s.(states := s.states[p := Unused]) else s
  }

  // ---- Runs ----

  /** Everything that changes a process's state; `Park` is an exit, a wait or a stop signal. */
  datatype Event =
    | TickEvent(now: nat) | YieldEvent | SleepEvent(now: nat, ms: nat) | Park(state: PState)
    | WakeEvent(p: nat) | AddEvent(p: nat) | CreateEvent | ReapEvent(p: nat) | DiscardEvent(p: nat)

  ghost predicate Sensible(e: Event, n: nat) {
    match e
    case Park(state) => state == Zombie || state == Waiting || state == Sleeping
    case WakeEvent(p) => p < n
    case AddEvent(p) => p < n
    case ReapEvent(p) => p < n
    case DiscardEvent(p) => p < n
    case _ => true
  }

  ghost function Do(s: Sched, e: Event): (s': Sched)
    requires Shaped(s) && Sensible(e, |s.states|)
    ensures Shaped(s') && |s'.states| == |s.states|
  {
    match e
    case TickEvent(now) => Tick(s, now)
    case YieldEvent => Yield(s)
    case SleepEvent(now, ms) => Sleep(s, now, ms)
    case Park(state) => Yield(Parked(s, state))
    case WakeEvent(p) => Wake(s, p)
    case AddEvent(p) => Add(s, p)
    case CreateEvent => Create(s)
    case ReapEvent(p) => Reap(s, p)
    case DiscardEvent(p) => Discard(s, p)
  }

  /** A running process is the current one, which is in use and has at most a full slice left. */
  ghost predicate Inv(s: Sched) {
    && Shaped(s)
    && (forall p | 0 <= p < |s.states| && s.states[p] == Running :: p == s.cur)
    && s.slice[s.cur] <= TIMESLICE && s.states[s.cur] != Unused
  }

  lemma YieldKeeps(s: Sched)
    requires Inv(s)
    ensures Inv(Yield(s))
  {
    hide Next;
  }

  lemma TickedKeeps(s: Sched, now: nat)
    requires Inv(s)
    ensures Inv(Ticked(s, now))
  {}

  lemma DoKeeps(s: Sched, e: Event)
    requires Inv(s) && Sensible(e, |s.states|)
    ensures Inv(Do(s, e))
  {
    hide Yield, Ticked;
    match e {
      case TickEvent(now) =>
        TickedKeeps(s, now);
        YieldKeeps(Ticked(s, now));
      case YieldEvent =>
        YieldKeeps(s);
      case SleepEvent(now, ms) =>
        YieldKeeps(Parked(s.(wakeAt := s.wakeAt[s.cur := Deadline(now, ms)]), Sleeping));
      case Park(state) =>
        YieldKeeps(Parked(s, state));
      case _ =>
    }
  }

  ghost predicate AllSensible(events: seq<Event>, n: nat) {
    forall k | 0 <= k < |events| :: Sensible(events[k], n)
  }

  ghost function Run(s: Sched, events: seq<Event>): (s': Sched)
    requires Shaped(s) && AllSensible(events, |s.states|)
    ensures Shaped(s') && |s'.states| == |s.states|
    decreases |events|
  {
    if events == [] then s else Run(Do(s, events[0]), events[1..])
  }

  /** In every reachable state a running process is the current one. */
  lemma {:induction false} OnlyCurrentRuns(s: Sched, events: seq<Event>)
    requires Inv(s) && AllSensible(events, |s.states|)
    ensures Inv(Run(s, events))
    decreases |events|
  {
    if events != [] {
      DoKeeps(s, events[0]);
      OnlyCurrentRuns(Do(s, events[0]), events[1..]);
    }
  }

  /** `proc_init` and `sched_init`. */
  function Boot(n: nat): Sched
    requires n > 0
  {
    Sched(seq(QUEUE_SIZE, _ => -1), 0, 0, 0, seq(n, _ => Unused)[0 := Running], seq(n, _ => 0)[0 := TIMESLICE],
        seq(n, _ => 0), 0)
  }

  lemma BootHolds(n: nat)
    requires n > 0
    ensures Inv(Boot(n)) && Packed(Boot(n)) && |Boot(n).states| == n
  {}

  // ---- What each event does to each process ----

  /** The processor may have changed hands: p's state after that, when it was `state` before. */
  ghost predicate Moves(s: Sched, s': Sched, state: PState, p: nat)
    requires p < |s'.states|
  {
    s'.states[p] == if s'.cur == s.cur then state
                    else if p == s'.cur then Running
                    else if p == s.cur && state == Running then Ready else state
  }

  ghost predicate StateIs(s: Sched, e: Event, s': Sched, p: nat)
    requires Shaped(s) && p < |s.states| == |s'.states|
  {
    match e
    case TickEvent(now) =>
      Moves(s, s', if p in s.queue && s.states[p] == Sleeping && now >= s.wakeAt[p] then Ready else s.states[p], p)
    case YieldEvent => Moves(s, s', s.states[p], p)
    case SleepEvent(_, _) => Moves(s, s', if p == s.cur then Sleeping else s.states[p], p)
    case Park(state) => Moves(s, s', if p == s.cur then state else s.states[p], p)
    case WakeEvent(q) =>
      s'.states[p] == if p == q && (s.states[p] == Sleeping || s.states[p] == Waiting) then Ready else s.states[p]
    case AddEvent(_) => s'.states[p] == s.states[p]
    case CreateEvent =>
      s'.states[p] == if p > 0 && s.states[p] == Unused && (forall q | 0 < q < p :: s.states[q] != Unused) then Ready
                      else s.states[p]
    case ReapEvent(q) =>
      s'.states[p] == if p == q && s.states[p] == Zombie && s.states[s.cur] != Zombie then Unused else s.states[p]
    case DiscardEvent(q) =>
      s'.states[p] == if p == q && s.states[p] == Ready && p !in s.queue && p != s.cur then Unused else s.states[p]
  }

  /** Every event, and every process: the state after it, and the deadline. */
  lemma StateAfter(s: Sched, e: Event, p: nat)
    requires Inv(s) && Sensible(e, |s.states|) && p < |s.states|
    ensures StateIs(s, e, Do(s, e), p)
    ensures Do(s, e).wakeAt[p] == if e.SleepEvent? && p == s.cur then Deadline(e.now, e.ms)
              else if e.CreateEvent? && Do(s, e).states[p] != s.states[p] then 0 else s.wakeAt[p]
    ensures !Calls(s, e) ==> Do(s, e).cur == s.cur && (e.TickEvent? || Do(s, e).slice[s.cur] == s.slice[s.cur])
    ensures Calls(s, e) ==> Yielded(CallState(s, e), Do(s, e))
  {
    hide Next, Yield, Yielded;
    if Calls(s, e) {
      CallStateKeeps(s, e);
      YieldIs(CallState(s, e));
      YieldMoves(CallState(s, e), p);
    }
  }

  lemma YieldMoves(s: Sched, p: nat)
    requires Shaped(s) && p < |s.states|
    ensures Moves(s, Yield(s), s.states[p], p) && Yield(s).wakeAt == s.wakeAt
  {
    hide Next, Yield;
    YieldIs(s);
    var i := Next(s);
    assert i >= 0 ==> IsNext(s, i);
  }

  // ---- Sleeping ----

  /** The event is no wake-up for process p, due at `due`. */
  predicate Undisturbed(e: Event, p: nat, due: nat) {
    match e
    case TickEvent(now) => now < due
    case WakeEvent(q) => q != p
    case _ => true
  }

  /** A sleeper that has given up the processor sleeps on until a wake-up or a tick at its time. */
  lemma {:induction false} SleepsUntil(s: Sched, events: seq<Event>, p: nat)
    requires Inv(s) && AllSensible(events, |s.states|) && p < |s.states|
    requires s.cur != p && s.states[p] == Sleeping
    requires forall k | 0 <= k < |events| :: Undisturbed(events[k], p, s.wakeAt[p])
    ensures var s' := Run(s, events); s'.cur != p && s'.states[p] == Sleeping && s'.wakeAt[p] == s.wakeAt[p]
    decreases |events|
  {
    hide Do, Calls, CallState;
    if events != [] {
      DoKeeps(s, events[0]);
      assert Undisturbed(events[0], p, s.wakeAt[p]);
      SleepsOn(s, events[0], p);
      SleepsUntil(Do(s, events[0]), events[1..], p);
    }
  }

  lemma SleepsOn(s: Sched, e: Event, p: nat)
    requires Inv(s) && Sensible(e, |s.states|) && p < |s.states| && Undisturbed(e, p, s.wakeAt[p])
    requires s.cur != p && s.states[p] == Sleeping
    ensures var s' := Do(s, e); s'.cur != p && s'.states[p] == Sleeping && s'.wakeAt[p] == s.wakeAt[p]
  {
    hide Yielded;
    StateAfter(s, e, p);
    NotChosen(s, e, p);
  }

  /** Only a process that is ready when `next_ready` looks becomes current. */
  lemma NotChosen(s: Sched, e: Event, p: nat)
    requires Inv(s) && Sensible(e, |s.states|) && p < |s.states| && s.cur != p
    requires Calls(s, e) ==> CallState(s, e).states[p] != Ready
    ensures Do(s, e).cur != p
  {
    hide Next, Yield;
    if Calls(s, e) {
      var s1 := CallState(s, e);
      CallStateKeeps(s, e);
      YieldIs(s1);
      var i := Next(s1);
      assert i >= 0 ==> IsNext(s1, i);
    }
  }

  /** `sched_sleep` gives up the processor exactly when another process is ready; asleep the caller is in any case. */
  lemma SleepIs(s: Sched, now: nat, ms: nat)
    requires Inv(s)
    ensures var s' := Do(s, SleepEvent(now, ms));
            && s'.states[s.cur] == Sleeping && s'.wakeAt[s.cur] == Deadline(now, ms)
            && (s'.cur != s.cur <==> exists i: nat | i < QUEUE_SIZE :: ReadyAt(s, i) && s.queue[i] != s.cur)
  {
    hide Next, Yield, Dist;
    var e := SleepEvent(now, ms);
    StateAfter(s, e, s.cur);
    var s1 := CallState(s, e);
    forall i: nat | i < QUEUE_SIZE
      ensures ReadyAt(s1, i) <==> ReadyAt(s, i) && s.queue[i] != s.cur
    {}
    var i := Next(s1);
    assert i >= 0 ==> IsNext(s1, i);
  }

  // ---- Time slices ----

  /** The current process is not giving up the processor by itself. */
  predicate Keeps(e: Event) {
    !e.YieldEvent? && !e.SleepEvent? && !e.Park?
  }

  /** A running process keeps the processor for every tick of its slice, whatever else happens, but for the last. */
  lemma {:induction false} FullSlice(s: Sched, events: seq<Event>)
    requires Inv(s) && AllSensible(events, |s.states|) && s.states[s.cur] == Running
    requires (forall k | 0 <= k < |events| :: Keeps(events[k])) && Ticks(events) < s.slice[s.cur]
    ensures var s' := Run(s, events);
            s'.cur == s.cur && s'.states[s.cur] == Running && s'.slice[s.cur] == s.slice[s.cur] - Ticks(events)
    decreases |events|
  {
    hide Do;
    if events != [] {
      assert Keeps(events[0]);
      DoKeeps(s, events[0]);
      OneTick(s, events[0]);
      FullSlice(Do(s, events[0]), events[1..]);
    }
  }

  lemma OneTick(s: Sched, e: Event)
    requires Inv(s) && Sensible(e, |s.states|) && s.states[s.cur] == Running && Keeps(e)
    requires e.TickEvent? ==> s.slice[s.cur] > 1
    ensures var s' := Do(s, e);
            && s'.cur == s.cur && s'.states[s.cur] == Running
            && s'.slice[s.cur] == s.slice[s.cur] - (if e.TickEvent? then 1 else 0)
  {
    hide Yield, Next;
  }

  /** With that tick it is at the disposal of `next_ready`. */
  lemma SliceEnds(s: Sched, now: nat)
    requires Inv(s)
    ensures Calls(s, TickEvent(now)) <==> s.slice[s.cur] <= 1
  {}

  /**
   * A process may be current and not running: one that sleeps while no other is ready stays current, is woken where it
   * is, and a later yield finds it in the queue and leaves it as it is.
   */
  lemma ReadyNotRunning(n: nat, ms: nat)
    requires n > 0 && 0 < ms < 0x1_0000_0000
    ensures var events := [AddEvent(0), SleepEvent(0, ms), TickEvent(ms), YieldEvent];
            && AllSensible(events, n) && Inv(Boot(n)) && |Boot(n).states| == n
            && Run(Boot(n), events).cur == 0 && Run(Boot(n), events).states[0] == Ready
            && forall p | 0 <= p < n :: Run(Boot(n), events).states[p] != Running
  {
    hide Do, Next, Yield, Dist;
    var s0 := Boot(n);
    var events := [AddEvent(0), SleepEvent(0, ms), TickEvent(ms), YieldEvent];
    BootHolds(n);
    AloneAdds(s0);
    var s1 := Do(s0, events[0]);
    AloneSleeps(s1, ms);
    var s2 := Do(s1, events[1]);
    AloneWakes(s2, ms);
    var s3 := Do(s2, events[2]);
    AloneYields(s3);
    FourEvents(s0, events);
  }

  lemma FourEvents(s: Sched, events: seq<Event>)
    requires Shaped(s) && |events| == 4 && AllSensible(events, |s.states|)
    ensures Run(s, events) == Do(Do(Do(Do(s, events[0]), events[1]), events[2]), events[3])
  {
    hide Do;
    var s1 := Do(s, events[0]);
    var s2 := Do(s1, events[1]);
    assert Run(s, events) == Run(s1, events[1..]) == Run(s2, events[1..][1..]);
    assert events[1..][1..] == [events[2], events[3]] && [events[2], events[3]][1..] == [events[3]];
    var s3 := Do(s2, events[2]);
    var last := [events[3]];
    assert Run(s2, [events[2], events[3]]) == Run(s3, last);
    assert last[1..] == [] && Run(s3, last) == Run(Do(s3, events[3]), []);
  }

  /** Process 0 is current, and the only one there is. */
  ghost predicate Alone(s: Sched, queued: bool, state: PState, slice: int) {
    && Inv(s) && s.cur == 0 && s.states[0] == state && s.slice[0] == slice
    && (forall i | 0 <= i < QUEUE_SIZE :: s.queue[i] <= 0) && (0 in s.queue <==> queued)
  }

  lemma AloneAdds(s: Sched)
    requires Alone(s, false, Running, 5) && s.count < QUEUE_SIZE
    ensures Alone(Do(s, AddEvent(0)), true, Running, 5)
  {
    assert Do(s, AddEvent(0)).queue[s.tail] == 0;
  }

  lemma AloneSleeps(s: Sched, ms: nat)
    requires Alone(s, true, Running, 5) && ms < 0x1_0000_0000
    ensures var s' := Do(s, SleepEvent(0, ms)); Alone(s', true, Sleeping, 5) && s'.wakeAt[0] == ms
  {
    hide Do, Next, Yield, Dist;
    var e := SleepEvent(0, ms);
    SleepIs(s, 0, ms);
    DeadlineExact(0, ms);
    DoKeeps(s, e);
    DoQueue(s, e);
    StateAfter(s, e, 0);
    assert forall i: nat | i < QUEUE_SIZE :: !ReadyAt(CallState(s, e), i);
  }

  lemma AloneWakes(s: Sched, ms: nat)
    requires Alone(s, true, Sleeping, 5) && s.wakeAt[0] == ms
    ensures Alone(Do(s, TickEvent(ms)), true, Ready, 4)
  {
    hide Next, Yield, Dist;
    var e := TickEvent(ms);
    StateAfter(s, e, 0);
    DoKeeps(s, e);
    DoQueue(s, e);
  }

  lemma AloneYields(s: Sched)
    requires Alone(s, true, Ready, 4)
    ensures Alone(Do(s, YieldEvent), true, Ready, 4)
  {
    hide Do, Next, Yield, Dist;
    StateAfter(s, YieldEvent, 0);
    DoKeeps(s, YieldEvent);
    DoQueue(s, YieldEvent);
    var i := Next(s);
    assert i >= 0 ==> IsNext(s, i);
  }

  /** A tick wakes a queued sleeper exactly when its time has come. */
  lemma WakesOnTime(s: Sched, now: nat, p: nat)
    requires Inv(s) && p in s.queue && p < |s.states| && s.states[p] == Sleeping
    ensures Tick(s, now).states[p] == Sleeping <==> now < s.wakeAt[p]
  {
    hide Next;
    var s1 := Ticked(s, now);
    assert s1.states[p] == if now >= s.wakeAt[p] then Ready else Sleeping;
  }

  /** The time asked for is the time slept, exactly unless a 64-bit product or sum wraps. */
  lemma DeadlineExact(now: nat, ms: nat)
    requires now < TWO64
    ensures Deadline(now, ms) == now + ms <==> ms * PIT_HZ < TWO64 && now + ms < TWO64
  {
    if ms * PIT_HZ < TWO64 {
      assert ms * PIT_HZ % TWO64 / 1000 == ms;
    } else {
      Reduced(ms * PIT_HZ);
      assert ms * PIT_HZ % TWO64 / 1000 < ms;
    }
  }

  lemma Reduced(x: nat)
    requires x >= TWO64
    ensures x % TWO64 + 1000 <= x
  {}

  // ---- Bounded waiting ----

  /** The state in which an event calls `next_ready`, if it does. */
  ghost predicate Calls(s: Sched, e: Event)
    requires Shaped(s)
  {
    match e
    case TickEvent(now) => Ticked(s, now).slice[s.cur] <= 0
    case YieldEvent => true
    case SleepEvent(_, _) => true
    case Park(_) => true
    case _ => false
  }

  ghost function CallState(s: Sched, e: Event): (s': Sched)
    requires Shaped(s) && Calls(s, e)
    ensures Shaped(s') && s'.head == s.head
  {
    match e
    case TickEvent(now) => Ticked(s, now)
    case SleepEvent(now, ms) => Parked(s.(wakeAt := s.wakeAt[s.cur := Deadline(now, ms)]), Sleeping)
    case Park(state) => Parked(s, state)
    case _ => s
  }

  /** The slot an event picks, or -1. */
  ghost function Picked(s: Sched, e: Event): (i: int)
    requires Shaped(s)
    ensures i < QUEUE_SIZE
  {
    if Calls(s, e) then Next(CallState(s, e)) else -1
  }

  /** Slot j is ready whenever `next_ready` looks, and is never the one picked. */
  ghost predicate Passed(s: Sched, events: seq<Event>, j: nat)
    requires Shaped(s) && AllSensible(events, |s.states|) && j < QUEUE_SIZE
    decreases |events|
  {
    events != [] ==>
      && (Calls(s, events[0]) ==> ReadyAt(CallState(s, events[0]), j))
      && Picked(s, events[0]) != j
      && Passed(Do(s, events[0]), events[1..], j)
  }

  /** The slots picked over a run, in order. */
  ghost function Picks(s: Sched, events: seq<Event>): seq<int>
    requires Shaped(s) && AllSensible(events, |s.states|)
    decreases |events|
  {
    if events == [] then [] else
    (if Calls(s, events[0]) then [Picked(s, events[0])] else []) + Picks(Do(s, events[0]), events[1..])
  }

  ghost function Ticks(events: seq<Event>): nat {
    if events == [] then 0 else (if events[0].TickEvent? then 1 else 0) + Ticks(events[1..])
  }

  /** How long slot j can still be kept waiting, in ticks. */
  ghost function Patience(s: Sched, j: nat): int
    requires Shaped(s) && j < QUEUE_SIZE
  {
    5 * Dist(s.head, j) + (if s.slice[s.cur] >= 1 then s.slice[s.cur] else 1)
  }

  lemma DistAfter(h: nat, i: nat, j: nat)
    requires h < QUEUE_SIZE && i < QUEUE_SIZE && j < QUEUE_SIZE && Dist(h, i) < Dist(h, j)
    ensures Dist((i + 1) % QUEUE_SIZE, j) + Dist(h, i) + 1 == Dist(h, j)
  {
    assert (i + 1) % QUEUE_SIZE == if i == 255 then 0 else i + 1;
  }

  lemma DistDiffer(h: nat, i: nat, j: nat)
    requires h < QUEUE_SIZE && i < QUEUE_SIZE && j < QUEUE_SIZE && i != j
    ensures Dist(h, i) != Dist(h, j)
  {}

  lemma YieldHead(s: Sched)
    requires Inv(s)
    ensures Yield(s).head == AfterPick(s).head && Yield(s).slice[Yield(s).cur] <= TIMESLICE
  {
    hide Next;
    YieldKeeps(s);
  }

  /** A pick that passes j over brings the head nearer to j. */
  lemma PickNearer(s: Sched, j: nat)
    requires Inv(s) && j < QUEUE_SIZE && ReadyAt(s, j) && Next(s) != j
    ensures var i := Next(s);
            && i >= 0 && Dist(s.head, i) < Dist(s.head, j)
            && Yield(s).head == (i + 1) % QUEUE_SIZE
            && Dist(Yield(s).head, j) + Dist(s.head, i) + 1 == Dist(s.head, j)
    ensures Yield(s).slice[Yield(s).cur] <= TIMESLICE
  {
    hide Yield, Dist, NextFrom;
    var i := Next(s);
    assert i >= 0;
    DistDiffer(s.head, i, j);
    DistAfter(s.head, i, j);
    YieldHead(s);
  }

  /** Events that do not call `next_ready` leave the head alone, and only a tick takes from the slice. */
  lemma NoCall(s: Sched, e: Event, j: nat)
    requires Inv(s) && Sensible(e, |s.states|) && !Calls(s, e) && j < QUEUE_SIZE
    ensures Do(s, e).head == s.head
    ensures Patience(Do(s, e), j) + (if e.TickEvent? then 1 else 0) <= Patience(s, j)
  {}

  lemma CallStateKeeps(s: Sched, e: Event)
    requires Inv(s) && Sensible(e, |s.states|) && Calls(s, e)
    ensures Inv(CallState(s, e)) && Do(s, e) == Yield(CallState(s, e))
  {
    hide Yield;
  }

  /** Between the pick and slot j, seen from either head. */
  lemma StillBetween(h: nat, i: nat, j: nat, y: nat)
    requires h < QUEUE_SIZE && i < QUEUE_SIZE && j < QUEUE_SIZE && y < QUEUE_SIZE
    requires Dist(h, i) < Dist(h, j) && Dist((i + 1) % QUEUE_SIZE, y) < Dist((i + 1) % QUEUE_SIZE, j)
    ensures Dist(h, y) < Dist(h, j) && y != i
  {
    assert (i + 1) % QUEUE_SIZE == if i == 255 then 0 else i + 1;
  }

  /** What each event of a run that passes j over does. */
  lemma PassedStep(s: Sched, e: Event, j: nat)
    requires Inv(s) && Sensible(e, |s.states|) && j < QUEUE_SIZE && Picked(s, e) != j
    requires Calls(s, e) ==> ReadyAt(CallState(s, e), j)
    ensures Inv(Do(s, e))
    ensures Patience(Do(s, e), j) + (if e.TickEvent? then 1 else 0) <= Patience(s, j)
    ensures Dist(Do(s, e).head, j) + (if Calls(s, e) then 1 else 0) <= Dist(s.head, j)
    ensures Calls(s, e) ==> var i := Picked(s, e);
              0 <= i && Dist(s.head, i) < Dist(s.head, j) && Do(s, e).head == (i + 1) % QUEUE_SIZE
    ensures !Calls(s, e) ==> Do(s, e).head == s.head
  {
    hide Yield, Next, ReadyAt, Do, Dist, CallState, Calls;
    DoKeeps(s, e);
    if Calls(s, e) {
      CallStateKeeps(s, e);
      PickNearer(CallState(s, e), j);
    } else {
      NoCall(s, e, j);
    }
  }

  ghost predicate Distinct(x: seq<int>) {
    forall a, b | 0 <= a < b < |x| :: x[a] != x[b]
  }

  ghost predicate Between(h: nat, x: seq<int>, j: nat)
    requires h < QUEUE_SIZE && j < QUEUE_SIZE
  {
    forall a | 0 <= a < |x| :: 0 <= x[a] < QUEUE_SIZE && Dist(h, x[a]) < Dist(h, j)
  }

  /**
   * Over any run in which slot j is ready whenever `next_ready` looks and is passed over: no slot is picked twice,
   * there are fewer than 256 picks, and fewer than 5*256 ticks.
   */
  lemma {:induction false} PassedOver(s: Sched, events: seq<Event>, j: nat)
    requires Inv(s) && AllSensible(events, |s.states|) && j < QUEUE_SIZE && Passed(s, events, j)
    ensures Distinct(Picks(s, events)) && Between(s.head, Picks(s, events), j)
    ensures |Picks(s, events)| <= Dist(s.head, j) < QUEUE_SIZE
    ensures Ticks(events) < Patience(s, j) <= 5 * QUEUE_SIZE
    decreases |events|
  {
    hide Do, Calls, Picked, CallState, Next, ReadyAt;
    if events != [] {
      var s', rest := Do(s, events[0]), events[1..];
      PassedStep(s, events[0], j);
      PassedOver(s', rest, j);
      if Calls(s, events[0]) {
        PicksMore(s.head, Picked(s, events[0]), Picks(s', rest), j);
      }
    }
  }

  lemma PicksMore(h: nat, i: nat, x: seq<int>, j: nat)
    requires h < QUEUE_SIZE && i < QUEUE_SIZE && j < QUEUE_SIZE && Dist(h, i) < Dist(h, j)
    requires Distinct(x) && Between((i + 1) % QUEUE_SIZE, x, j)
    ensures Distinct([i] + x) && Between(h, [i] + x, j)
  {
    hide Dist;
    forall a | 0 <= a < |x|
      ensures Dist(h, x[a]) < Dist(h, j) && x[a] != i
    {
      StillBetween(h, i, j, x[a]);
    }
  }

  /** Until process p is current, it is in slot j and ready whenever `next_ready` looks. */
  ghost predicate Waits(s: Sched, events: seq<Event>, p: nat, j: nat)
    requires Shaped(s) && AllSensible(events, |s.states|) && j < QUEUE_SIZE
    decreases |events|
  {
    events != [] ==>
      && (Calls(s, events[0]) ==> s.queue[j] == p && ReadyAt(CallState(s, events[0]), j))
      && (Do(s, events[0]).cur == p || Waits(Do(s, events[0]), events[1..], p, j))
  }

  /** An event that passes control to p picks it, and makes it running; one that picks slot j passes control to p. */
  lemma ControlPassed(s: Sched, e: Event, p: nat, j: nat)
    requires Inv(s) && Sensible(e, |s.states|) && j < QUEUE_SIZE && s.cur != p && p < |s.states|
    ensures Do(s, e).cur == p ==> Calls(s, e) && Do(s, e).states[p] == Running && Do(s, e).slice[p] == 5
    ensures Picked(s, e) == j ==> Calls(s, e)
    ensures Picked(s, e) == j && s.queue[j] == p ==> Do(s, e).cur == p
  {
    hide Next, Yield, IsNext;
    if Calls(s, e) {
      var s1 := CallState(s, e);
      CallStateKeeps(s, e);
      YieldIs(s1);
      assert s1.cur == s.cur && s1.queue == s.queue;
      var i := Next(s1);
      assert i >= 0 ==> IsNext(s1, i);
    }
  }

  /**
   * A process that is not current and stays ready in a slot is running within 256 calls of `next_ready` and within
   * 5*256 ticks: `k` is the first moment it is current. Until then its slot is passed over.
   */
  lemma {:induction false} BoundedWaiting(s: Sched, events: seq<Event>, p: nat, j: nat) returns (k: nat)
    requires Inv(s) && AllSensible(events, |s.states|) && j < QUEUE_SIZE && p < |s.states| && s.cur != p
    requires Waits(s, events, p, j)
    requires |Picks(s, events)| > Dist(s.head, j) || Ticks(events) >= Patience(s, j)
    ensures 0 < k <= |events| && AllSensible(events[..k], |s.states|) && AllSensible(events[..k - 1], |s.states|)
    ensures var s' := Run(s, events[..k]); s'.cur == p && s'.states[p] == Running && s'.slice[p] == 5
    ensures Run(s, events[..k - 1]).cur != p && Passed(s, events[..k - 1], j)
    ensures Dist(s.head, j) < 256 && Patience(s, j) <= 5 * 256
    decreases |events|
  {
    hide Do, Calls, Picked, CallState, Next, ReadyAt, Dist;
    assert events != [];
    var e, rest := events[0], events[1..];
    var s' := Do(s, e);
    ControlPassed(s, e, p, j);
    if s'.cur == p {
      k := 1;
      assert events[..1] == [e] && events[..0] == [] && [e][1..] == [];
      assert Run(s, [e]) == Run(s', []);
    } else {
      PassedStep(s, e, j);
      var i := BoundedWaiting(s', rest, p, j);
      k := i + 1;
      assert events[..k][0] == e && events[..k][1..] == rest[..i];
      if i - 1 > 0 {
        assert events[..k - 1][1..] == rest[..i - 1];
      }
      assert events[..k - 1] == [e] + rest[..i - 1];
      assert ([e] + rest[..i - 1])[1..] == rest[..i - 1];
    }
  }

  // ---- The queue itself ----

  /** Adding loses a process already queued exactly when there is room by the count and the tail slot is taken. */
  lemma AddLoses(s: Sched, p: nat)
    requires Shaped(s) && p < |s.states|
    ensures (forall i | 0 <= i < QUEUE_SIZE && s.queue[i] >= 0 :: Add(s, p).queue[i] == s.queue[i])
            <==> s.count >= QUEUE_SIZE || s.queue[s.tail] < 0 || s.queue[s.tail] == p
  {}

  /** Without `sched_remove`, which nothing calls, the slots fill from 0 up. */
  ghost predicate Packed(s: Sched) {
    && Shaped(s) && 0 <= s.count <= QUEUE_SIZE && s.tail == s.count % QUEUE_SIZE
    && forall i | 0 <= i < QUEUE_SIZE :: s.queue[i] >= 0 <==> i < s.count
  }

  lemma YieldQueue(s: Sched)
    requires Shaped(s)
    ensures var s' := Yield(s); s'.queue == s.queue && s'.tail == s.tail && s'.count == s.count
  {
    hide Next;
  }

  lemma DoQueue(s: Sched, e: Event)
    requires Shaped(s) && Sensible(e, |s.states|) && !e.AddEvent?
    ensures var s' := Do(s, e); s'.queue == s.queue && s'.tail == s.tail && s'.count == s.count
  {
    hide Yield;
    match e {
      case TickEvent(now) =>
        YieldQueue(Ticked(s, now));
      case YieldEvent =>
        YieldQueue(s);
      case SleepEvent(now, ms) =>
        YieldQueue(Parked(s.(wakeAt := s.wakeAt[s.cur := Deadline(now, ms)]), Sleeping));
      case Park(state) =>
        YieldQueue(Parked(s, state));
      case _ =>
    }
  }

  lemma DoPacked(s: Sched, e: Event)
    requires Packed(s) && Sensible(e, |s.states|)
    ensures Packed(Do(s, e))
    ensures forall i | 0 <= i < QUEUE_SIZE && s.queue[i] >= 0 :: Do(s, e).queue[i] == s.queue[i]
    ensures e.AddEvent? ==>
            ((exists i | 0 <= i < QUEUE_SIZE :: s.queue[i] < 0 && Do(s, e).queue[i] == e.p) <==> s.count < QUEUE_SIZE)
  {
    if e.AddEvent? {
      if s.count < QUEUE_SIZE {
        assert s.queue[s.tail] < 0 && Do(s, e).queue[s.tail] == e.p;
      }
    } else {
      hide Do;
      DoQueue(s, e);
    }
  }

  /** In every run no queued process is ever overwritten; once 256 have been added, further ones are dropped. */
  lemma {:induction false} QueueOnlyGrows(s: Sched, events: seq<Event>)
    requires Packed(s) && AllSensible(events, |s.states|)
    ensures Packed(Run(s, events))
    ensures forall i | 0 <= i < QUEUE_SIZE && s.queue[i] >= 0 :: Run(s, events).queue[i] == s.queue[i]
    decreases |events|
  {
    hide Do;
    if events != [] {
      DoPacked(s, events[0]);
      QueueOnlyGrows(Do(s, events[0]), events[1..]);
    }
  }

  /** `sched_remove`: the first slot holding p is emptied. */
  ghost predicate IsRemoved(s: Sched, p: nat, s': Sched) {
    if p !in s.queue then s' == s else
    exists i | 0 <= i < |s.queue| ::
      s.queue[i] == p && p !in s.queue[..i] && s' == s.(queue := s.queue[i := -1], count := s.count - 1)
  }

  /**
   * With `sched_remove` the queue would not be safe: out of a full queue, remove any process but the first, and the
   * next add overwrites the first.
   */
  lemma RemoveThenAddLoses(s: Sched, p: nat, s': Sched, q: nat)
    requires Packed(s) && s.count == QUEUE_SIZE && p in s.queue && p != s.queue[0] && IsRemoved(s, p, s')
    requires q < |s.states|
    ensures Add(s', q).queue[0] == q && s'.queue[0] == s.queue[0]
  {}
}
