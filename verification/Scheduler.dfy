/** kernel/proc/scheduler.c: the round-robin queue and the switching of processes. */
module Scheduler {
  import opened Common
  import opened SchedSpec

  class RunQueue {
    var queue: seq<int>
    var head: nat
    var tail: nat
    var count: int
    var states: seq<PState>
    var slice: seq<int>
    var wakeAt: seq<nat>
    var cur: nat

    ghost function View(): Sched
      reads this
    {
      Sched(queue, head, tail, count, states, slice, wakeAt, cur)
    }

    constructor (n: nat)
      requires n > 0
      ensures View() == Boot(n)
    {
      queue, head, tail, count := seq(QUEUE_SIZE, _ => -1), 0, 0, 0;
      states, slice, wakeAt := seq(n, _ => Unused)[0 := Running], seq(n, _ => 0)[0 := TIMESLICE], seq(n, _ => 0);
      cur := 0;
    }

    method AddProcess(p: nat)
      requires Shaped(View()) && p < |states|
      modifies this
      ensures View() == Add(old(View()), p) && Shaped(View())
    {
      if count >= QUEUE_SIZE {
        return;
      }
      queue := queue[tail := p];
      tail := (tail + 1) % QUEUE_SIZE;
      count := count + 1;
    }

    method Remove(p: nat)
      requires Shaped(View())
      modifies this`queue, this`count
      ensures IsRemoved(old(View()), p, View()) && Shaped(View())
    {
      for i := 0 to QUEUE_SIZE
        invariant View() == old(View()) && p !in queue[..i]
      {
        if queue[i] == p {
          queue := queue[i := -1];
          count := count - 1;
          return;
        }
      }
      assert queue[..QUEUE_SIZE] == queue;
    }

    /** `next_ready`: the slot picked, or -1. */
    method NextReady() returns (slot: int)
      requires Shaped(View())
      modifies this`head
      ensures slot == Next(old(View())) && View() == AfterPick(old(View()))
    {
      hide Next, NextFrom;
      for i := 0 to QUEUE_SIZE
        invariant View() == old(View())
        invariant forall j: nat | j < QUEUE_SIZE && ReadyAt(View(), j) :: i <= Dist(head, j)
      {
        var idx := (head + i) % QUEUE_SIZE;
        AtDistance(head, i, idx);
        if queue[idx] >= 0 && states[queue[idx]] == Ready {
          NextUnique(View(), idx);
          head := (idx + 1) % QUEUE_SIZE;
          return idx;
        }
      }
      NoneReady(View());
      return -1;
    }

    /** `do_switch`. */
    method DoSwitch(to: nat)
      requires Shaped(View()) && to < |states|
      modifies this
      ensures View() == Switch(old(View()), to)
    {
      if cur == to {
        return;
      }
      if states[cur] == Running {
        states := states[cur := Ready];
      }
      states := states[to := Running];
      slice := slice[to := TIMESLICE];
      cur := to;
    }

    /** `sched_yield`. */
    method YieldCpu()
      requires Shaped(View())
      modifies this
      ensures View() == Yield(old(View())) && Yielded(old(View()), View())
    {
      hide Next, Yielded;
      YieldIs(View());
      var slot := NextReady();
      if slot < 0 || queue[slot] == cur {
        if states[cur] == Running {
          slice := slice[cur := TIMESLICE];
        }
        return;
      }
      DoSwitch(queue[slot]);
    }

    /** The first loop of `sched_tick`. */
    method WakeSleepers(now: nat)
      requires Shaped(View())
      modifies this`states
      ensures View() == Woken(old(View()), now)
    {
      for i := 0 to QUEUE_SIZE
        invariant |states| == |old(states)|
        invariant forall p | 0 <= p < |states| ::
                    states[p] == if p in queue[..i] && old(states)[p] == Sleeping && now >= wakeAt[p] then Ready
                        else old(states)[p]
      {
        var p := queue[i];
        assert queue[..i + 1] == queue[..i] + [p];
        if p >= 0 && states[p] == Sleeping && now >= wakeAt[p] {
          states := states[p := Ready];
        }
      }
      assert queue[..QUEUE_SIZE] == queue;
    }

    /** `sched_tick`. */
    method OnTick(now: nat)
      requires Shaped(View())
      modifies this
      ensures View() == Tick(old(View()), now)
    {
      hide Yield, Next;
      WakeSleepers(now);
      slice := slice[cur := slice[cur] - 1];
      assert View() == Ticked(old(View()), now);
      if slice[cur] > 0 {
        return;
      }
      YieldCpu();
    }

    /** `sched_sleep`. */
    method SleepFor(now: nat, ms: nat)
      requires Shaped(View())
      modifies this
      ensures View() == Sleep(old(View()), now, ms)
    {
      hide Yield, Next;
      wakeAt := wakeAt[cur := (now + ms * PIT_HZ % TWO64 / 1000) % TWO64];
      states := states[cur := Sleeping];
      YieldCpu();
    }

    /** `sched_wake`. */
    method WakeProcess(p: nat)
      requires Shaped(View()) && p < |states|
      modifies this`states
      ensures View() == Wake(old(View()), p)
    {
      if states[p] == Sleeping || states[p] == Waiting {
        states := states[p := Ready];
      }
    }

    /** An exit, a wait or a stop signal: the current process leaves the running state and yields. */
    method ParkCurrent(state: PState)
      requires Shaped(View())
      modifies this
      ensures View() == Yield(Parked(old(View()), state))
    {
      hide Yield, Next;
      states := states[cur := state];
      YieldCpu();
    }

    /** `proc_create`, as far as the scheduler sees it. */
    method CreateProcess()
      requires Shaped(View())
      modifies this
      ensures View() == Create(old(View()))
    {
      for i := 1 to |states|
        invariant View() == old(View()) && LowestUnused(states, 1) == LowestUnused(states, i)
      {
        if states[i] == Unused {
          states, slice, wakeAt := states[i := Ready], slice[i := TIMESLICE], wakeAt[i := 0];
          return;
        }
      }
    }

    /** The state change of `sys_wait4`. */
    method ReapChild(p: nat)
      requires Shaped(View()) && p < |states|
      modifies this`states
      ensures View() == Reap(old(View()), p)
    {
      if states[p] == Zombie && states[cur] != Zombie {
        states := states[p := Unused];
      }
    }

    method DiscardProcess(p: nat)
      requires Shaped(View()) && p < |states|
      modifies this`states
      ensures View() == Discard(old(View()), p)
    {
      if states[p] == Ready && p !in queue && p != cur {
        states := states[p := Unused];
      }
    }

    method Handle(e: Event)
      requires Shaped(View()) && Sensible(e, |states|)
      modifies this
      ensures View() == Do(old(View()), e) && Shaped(View())
    {
      hide Yield, Tick, Sleep, Create;
      match e {
        case TickEvent(now) => OnTick(now);
        case YieldEvent => YieldCpu();
        case SleepEvent(now, ms) => SleepFor(now, ms);
        case Park(state) => ParkCurrent(state);
        case WakeEvent(p) => WakeProcess(p);
        case AddEvent(p) => AddProcess(p);
        case CreateEvent => CreateProcess();
        case ReapEvent(p) => ReapChild(p);
        case DiscardEvent(p) => DiscardProcess(p);
      }
    }
  }

  /**
   * The queue driven by any events, from boot: it goes through the states of the specification, where a running process
   * is the current one and the slots fill from 0 up.
   */
  method Drive(n: nat, events: seq<Event>) returns (q: RunQueue)
    requires n > 0 && AllSensible(events, n)
    ensures fresh(q) && q.View() == Run(Boot(n), events) && Inv(q.View()) && Packed(q.View())
  {
    hide Tick, Yield, Sleep, Create, Boot;
    BootHolds(n);
    OnlyCurrentRuns(Boot(n), events);
    QueueOnlyGrows(Boot(n), events);
    q := new RunQueue(n);
    for i := 0 to |events|
      invariant fresh(q) && Shaped(q.View()) && |q.states| == n
      invariant Run(q.View(), events[i..]) == Run(Boot(n), events)
    {
      assert Sensible(events[i], n);
      assert events[i..][0] == events[i] && events[i..][1..] == events[i + 1..];
      q.Handle(events[i]);
    }
  }

  lemma AtDistance(head: nat, d: nat, idx: nat)
    requires head < QUEUE_SIZE && d < QUEUE_SIZE && idx == (head + d) % QUEUE_SIZE
    ensures Dist(head, idx) == d
    ensures forall j: nat | j < QUEUE_SIZE && Dist(head, j) == d :: j == idx
  {}

  lemma NoneReady(s: Sched)
    requires Shaped(s) && forall j: nat | j < QUEUE_SIZE && ReadyAt(s, j) :: QUEUE_SIZE <= Dist(s.head, j)
    ensures Next(s) == -1
  {
    assert forall j: nat | j < QUEUE_SIZE :: Dist(s.head, j) < QUEUE_SIZE;
  }
}
