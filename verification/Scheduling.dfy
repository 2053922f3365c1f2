/**
  The round-robin scheduler and the life of a thread as a step system on one
  processor. Everything that runs with interrupts off is one step.
 */
module Scheduling {
  import opened Basics
  import opened Links

  const WORD: nat := 0x1_0000_0000_0000_0000
  const HALF: nat := 0x8000_0000_0000_0000

  datatype TState = Ready | Runnable | Running | Blocked | Terminating | Dead

  datatype Sched = Sched(
    state: map<nat, TState>,
    wake: map<nat, nat>,
    ready: seq<nat>,
    asleep: seq<nat>,
    current: nat,
    idle: nat,
    tick: nat,
    dying: seq<nat>,
    dead: seq<nat>)

  /** The signed difference of the tick counter and the deadline is not negative. */
  predicate Expired(tick: nat, wake: nat) {
    (tick + WORD - wake % WORD) % WORD < HALF
  }

  /** The sleepers whose deadline has come (or, with `due` false, has not), in list order. */
  function Sleepers(asleep: seq<nat>, wake: map<nat, nat>, tick: nat, due: bool): seq<nat> {
    if asleep == [] then []
    else
      (if asleep[0] in wake && Expired(tick, wake[asleep[0]]) == due then [asleep[0]] else [])
      + Sleepers(asleep[1..], wake, tick, due)
  }

  /** All of `ts` become runnable and join the ready queue. */
  function MakeRunnable(s: Sched, ts: seq<nat>): Sched {
    s.(state := map t | t in s.state :: if t in ts then Runnable else s.state[t], ready := s.ready + ts)
  }

  function WakeExpired(s: Sched): Sched {
    MakeRunnable(s.(asleep := Sleepers(s.asleep, s.wake, s.tick, false)), Sleepers(s.asleep, s.wake, s.tick, true))
  }

  /** A running thread goes to the back of the queue; idle has no place in it. */
  function Preempt(s: Sched): Sched {
    if s.current in s.state && s.state[s.current] == Running
    then s.(state := s.state[s.current := Runnable],
            ready := if s.current != s.idle then s.ready + [s.current] else s.ready)
    else s
  }

  /** The head of the queue runs next, or idle if the queue is empty. */
  function Dispatch(s: Sched): Sched {
    var next := if s.ready != [] then s.ready[0] else s.idle;
    s.(ready := if s.ready != [] then s.ready[1..] else [], state := s.state[next := Running], current := next)
  }

  function Switch(s: Sched): Sched {
    Dispatch(Preempt(s))
  }

  datatype Step =
    | Create(t: nat)
    | Start(t: nat)
    | Discard(t: nat)
    | Begin
    | Yield
    | Tick
    | Sleep(ticks: nat)
    | Block
    | Wake(t: nat)
    | Exit
    | Retire
    | Reap

  predicate Enabled(s: Sched, step: Step) {
    match step
    case Create(t) => t != NULL && t !in s.state
    case Start(t) => t in s.state && t != s.idle && s.state[t] == Ready
    case Discard(t) => t in s.state && s.state[t] == Ready
    case Begin => s.current == NULL
    case Yield => s.current != NULL
    case Tick => s.current != NULL
    case Sleep(d) => s.current != NULL && s.current != s.idle && 0 < d < WORD
    case Block => s.current != NULL && s.current != s.idle
    case Wake(t) => t in s.state && t != s.idle && s.state[t] == Blocked
    case Exit => s.current != NULL && s.current != s.idle
    case Retire => s.dying != []
    case Reap => s.dead != []
  }

  // ----- what each step does

  function Created(s: Sched, t: nat): Sched {
    s.(state := s.state[t := Ready], wake := s.wake[t := 0])
  }

  function Started(s: Sched, t: nat): Sched {
    s.(state := s.state[t := Runnable], ready := s.ready + [t])
  }

  function Discarded(s: Sched, t: nat): Sched {
    s.(state := s.state - {t}, wake := s.wake - {t})
  }

  function Ticked(s: Sched): Sched {
    Switch(WakeExpired(s.(tick := (s.tick + 1) % WORD)))
  }

  function FellAsleep(s: Sched, d: nat): Sched {
    s.(state := s.state[s.current := Blocked], wake := s.wake[s.current := (s.tick + d) % WORD],
       asleep := [s.current] + s.asleep)
  }

  function GotBlocked(s: Sched): Sched {
    s.(state := s.state[s.current := Blocked])
  }

  function Woken(s: Sched, t: nat): Sched {
    s.(state := s.state[t := Runnable], asleep := Without(s.asleep, t), ready := s.ready + [t])
  }

  function Exiting(s: Sched): Sched {
    s.(state := s.state[s.current := Terminating], dying := [s.current] + s.dying)
  }

  function Retired(s: Sched): Sched
    requires s.dying != []
  {
    s.(state := s.state[s.dying[0] := Dead], dying := s.dying[1..], dead := [s.dying[0]] + s.dead)
  }

  function Reaped(s: Sched): Sched
    requires s.dead != []
  {
    s.(state := s.state - {s.dead[0]}, wake := s.wake - {s.dead[0]}, dead := s.dead[1..])
  }

  function Next(s: Sched, step: Step): Sched
    requires Enabled(s, step)
  {
    match step
    case Create(t) => Created(s, t)
    case Start(t) => Started(s, t)
    case Discard(t) => Discarded(s, t)
    case Begin => Dispatch(s)
    case Yield => Switch(s)
    case Tick => Ticked(s)
    case Sleep(d) => Switch(FellAsleep(s, d))
    case Block => Switch(GotBlocked(s))
    case Wake(t) => Woken(s, t)
    case Exit => Switch(Exiting(s))
    case Retire => Retired(s)
    case Reap => Reaped(s)
  }

  // ----- the invariant

  /** The list holds, each once, the threads in the given state, idle apart. */
  ghost predicate Holds(s: Sched, list: seq<nat>, st: TState) {
    && Distinct(list)
    && forall t :: t in list <==> t in s.state && t != s.idle && s.state[t] == st
  }

  ghost predicate Queues(s: Sched) {
    && Holds(s, s.ready, Runnable)
    && Holds(s, s.dying, Terminating)
    && Holds(s, s.dead, Dead)
    && Distinct(s.asleep)
    && forall t :: t in s.asleep ==> t in s.state && t != s.idle && s.state[t] == Blocked
  }

  ghost predicate OneRuns(s: Sched) {
    && s.idle != NULL && s.idle in s.state && NULL !in s.state
    && s.state[s.idle] == (if s.current == s.idle then Running else Runnable)
    && (s.current != NULL ==> s.current in s.state)
    && forall t :: t in s.state ==> (s.state[t] == Running <==> t == s.current)
  }

  ghost predicate Inv(s: Sched) {
    Queues(s) && OneRuns(s) && s.wake.Keys == s.state.Keys && s.tick < WORD
  }

  /** Before a dispatch: nobody runs, and idle is there to fall back on. */
  ghost predicate NobodyRuns(s: Sched) {
    && Queues(s) && s.wake.Keys == s.state.Keys && s.tick < WORD
    && s.idle != NULL && s.idle in s.state && NULL !in s.state && s.state[s.idle] == Runnable
    && forall t :: t in s.state ==> s.state[t] != Running
  }

  lemma DispatchInv(s: Sched)
    requires NobodyRuns(s)
    ensures Inv(Dispatch(s))
    ensures var next := if s.ready != [] then s.ready[0] else s.idle;
            next in s.state && s.state[next] == Runnable
  {
    if s.ready != [] {
      assert s.ready[0] in s.ready;
      assert s.ready == [s.ready[0]] + s.ready[1..];
    }
  }

  lemma PreemptInv(s: Sched)
    requires Inv(s) && s.current != NULL
    ensures NobodyRuns(Preempt(s))
  {
  }

  lemma {:induction false} SleepersOf(asleep: seq<nat>, wake: map<nat, nat>, tick: nat, due: bool)
    requires Distinct(asleep) && forall t :: t in asleep ==> t in wake
    ensures Distinct(Sleepers(asleep, wake, tick, due))
    ensures forall t :: t in Sleepers(asleep, wake, tick, due) <==> t in asleep && t in wake
                                                                    && Expired(tick, wake[t]) == due
  {
    if asleep != [] {
      assert asleep == [asleep[0]] + asleep[1..];
      assert asleep[0] in asleep && asleep[0] !in asleep[1..];
      SleepersOf(asleep[1..], wake, tick, due);
    }
  }

  lemma WakeExpiredInv(s: Sched)
    requires Inv(s)
    ensures Inv(WakeExpired(s))
  {
    SleepersOf(s.asleep, s.wake, s.tick, true);
    SleepersOf(s.asleep, s.wake, s.tick, false);
    var ts := Sleepers(s.asleep, s.wake, s.tick, true);
    var s' := WakeExpired(s);
    assert s'.state.Keys == s.state.Keys;
    forall i, j | 0 <= i < j < |s'.ready|
      ensures s'.ready[i] != s'.ready[j]
    {
      if i < |s.ready| <= j {
        assert s.ready[i] in s.ready && ts[j - |s.ready|] in ts;
      }
    }
  }

  /** Which lists a thread cannot be on. */
  lemma NotQueued(s: Sched, t: nat)
    requires Inv(s)
    ensures t !in s.state || s.state[t] == Ready || s.state[t] == Running ==>
            t !in s.ready && t !in s.asleep && t !in s.dying && t !in s.dead
    ensures t in s.state && s.state[t] == Blocked ==> t !in s.ready && t !in s.dying && t !in s.dead
    ensures t in s.state ==> t != NULL
  {
  }

  /** Before anything is started there is only idle. */
  lemma InitialInv(idle: nat)
    requires idle != NULL
    ensures Inv(Sched(map[idle := Runnable], map[idle := 0], [], [], NULL, idle, 0, [], []))
  {
  }

  lemma CurrentRuns(s: Sched)
    requires Inv(s) && s.current != NULL
    ensures s.current in s.state && s.state[s.current] == Running
  {
  }

  lemma FirstDying(s: Sched)
    requires Inv(s) && s.dying != []
    ensures s.dying[0] in s.state && s.state[s.dying[0]] == Terminating
  {
    assert s.dying[0] in s.dying;
  }

  lemma SleepersKnown(s: Sched)
    requires Inv(s)
    ensures Distinct(s.asleep) && forall t :: t in s.asleep ==> t in s.wake && t in s.state && t != NULL
  {
  }

  lemma TickKeepsInv(s: Sched)
    requires Inv(s)
    ensures Inv(s.(tick := (s.tick + 1) % WORD))
  {
  }

  lemma WakeExpiredCurrent(s: Sched)
    ensures WakeExpired(s).current == s.current && WakeExpired(s).idle == s.idle
  {
  }

  /** The next sleeper to be woken is still blocked and on no other list. */
  lemma StillBlocked(s: Sched, done: seq<nat>, rest: seq<nat>, wake: map<nat, nat>, tick: nat)
    requires Inv(s) && s.asleep == done + rest && rest != []
    ensures rest[0] in s.state && s.state[rest[0]] == Blocked && rest[0] !in s.ready
  {
    assert rest[0] in s.asleep;
  }

  lemma OneMoreRunnable(s: Sched, ts: seq<nat>, t: nat)
    requires t in s.state
    ensures var m := MakeRunnable(s, ts);
            MakeRunnable(s, ts + [t]) == m.(state := m.state[t := Runnable], ready := m.ready + [t])
  {
    var m := MakeRunnable(s, ts);
    assert s.ready + (ts + [t]) == s.ready + ts + [t];
    assert MakeRunnable(s, ts + [t]).state == m.state[t := Runnable];
  }

  lemma AsleepNobodyRuns(s: Sched, d: nat)
    requires Inv(s) && Enabled(s, Sleep(d))
    ensures NobodyRuns(FellAsleep(s, d))
  {
    var s1 := FellAsleep(s, d);
    assert s1.wake.Keys == s.wake.Keys && s1.state.Keys == s.state.Keys;
  }

  lemma BlockedNobodyRuns(s: Sched)
    requires Inv(s) && Enabled(s, Block)
    ensures NobodyRuns(GotBlocked(s))
  {
  }

  lemma ExitingNobodyRuns(s: Sched)
    requires Inv(s) && Enabled(s, Exit)
    ensures NobodyRuns(Exiting(s))
  {
  }

  // ----- every step keeps the invariant

  lemma CreateInv(s: Sched, t: nat)
    requires Inv(s) && Enabled(s, Create(t))
    ensures Inv(Created(s, t))
  {
  }

  lemma StartInv(s: Sched, t: nat)
    requires Inv(s) && Enabled(s, Start(t))
    ensures Inv(Started(s, t))
  {
  }

  lemma DiscardInv(s: Sched, t: nat)
    requires Inv(s) && Enabled(s, Discard(t))
    ensures Inv(Discarded(s, t))
  {
  }

  lemma BeginInv(s: Sched)
    requires Inv(s) && Enabled(s, Begin)
    ensures Inv(Dispatch(s))
  {
    hide Dispatch;
    DispatchInv(s);
  }

  lemma YieldInv(s: Sched)
    requires Inv(s) && Enabled(s, Yield)
    ensures Inv(Switch(s))
  {
    hide Queues, OneRuns, Dispatch, Preempt;
    PreemptInv(s);
    DispatchInv(Preempt(s));
  }

  lemma TickInv(s: Sched)
    requires Inv(s) && Enabled(s, Tick)
    ensures Inv(Ticked(s))
  {
    hide Dispatch, Preempt, Sleepers;
    var s1 := s.(tick := (s.tick + 1) % WORD);
    assert Inv(s1);
    WakeExpiredInv(s1);
    PreemptInv(WakeExpired(s1));
    DispatchInv(Preempt(WakeExpired(s1)));
  }

  /** A thread that has left the processor is not queued again by the switch. */
  lemma LeaveInv(s: Sched)
    requires NobodyRuns(s) && s.current in s.state
    ensures Inv(Switch(s))
  {
    hide Dispatch;
    DispatchInv(s);
  }

  lemma SleepInv(s: Sched, d: nat)
    requires Inv(s) && Enabled(s, Sleep(d))
    ensures Inv(Switch(FellAsleep(s, d)))
  {
    hide Switch;
    AsleepNobodyRuns(s, d);
    LeaveInv(FellAsleep(s, d));
  }

  lemma BlockInv(s: Sched)
    requires Inv(s) && Enabled(s, Block)
    ensures Inv(Switch(GotBlocked(s)))
  {
    hide Switch;
    BlockedNobodyRuns(s);
    LeaveInv(GotBlocked(s));
  }

  lemma ExitInv(s: Sched)
    requires Inv(s) && Enabled(s, Exit)
    ensures Inv(Switch(Exiting(s)))
  {
    hide Switch;
    ExitingNobodyRuns(s);
    LeaveInv(Exiting(s));
  }

  lemma WakeInv(s: Sched, t: nat)
    requires Inv(s) && Enabled(s, Wake(t))
    ensures Inv(Woken(s, t))
  {
    WithoutOf(s.asleep, t);
  }

  lemma RetireInv(s: Sched)
    requires Inv(s) && Enabled(s, Retire)
    ensures Inv(Retired(s))
  {
    assert s.dying[0] in s.dying && s.dying == [s.dying[0]] + s.dying[1..];
  }

  lemma ReapInv(s: Sched)
    requires Inv(s) && Enabled(s, Reap)
    ensures Inv(Reaped(s))
  {
    assert s.dead[0] in s.dead && s.dead == [s.dead[0]] + s.dead[1..];
  }

  /** Every step keeps the invariant. */
  lemma StepInv(s: Sched, step: Step)
    requires Inv(s) && Enabled(s, step)
    ensures Inv(Next(s, step))
  {
    hide Inv, Enabled;
    hide Created, Started, Discarded, Dispatch, Switch, Ticked, FellAsleep, GotBlocked, Woken, Exiting, Retired, Reaped;
    match step
    case Create(t) => CreateInv(s, t);
    case Start(t) => StartInv(s, t);
    case Discard(t) => DiscardInv(s, t);
    case Begin => BeginInv(s);
    case Yield => YieldInv(s);
    case Tick => TickInv(s);
    case Sleep(d) => SleepInv(s, d);
    case Block => BlockInv(s);
    case Wake(t) => WakeInv(s, t);
    case Exit => ExitInv(s);
    case Retire => RetireInv(s);
    case Reap => ReapInv(s);
  }

  // ----- runs

  predicate IsRun(s: Sched, steps: seq<Step>)
    decreases |steps|
  {
    steps == [] || (Enabled(s, steps[0]) && IsRun(Next(s, steps[0]), steps[1..]))
  }

  function After(s: Sched, steps: seq<Step>): Sched
    requires IsRun(s, steps)
    decreases |steps|
  {
    if steps == [] then s else After(Next(s, steps[0]), steps[1..])
  }

  /** In every run exactly the current thread runs and every queue holds exactly the threads in its state. */
  lemma {:induction false} RunKeepsInv(s: Sched, steps: seq<Step>)
    requires Inv(s) && IsRun(s, steps)
    ensures Inv(After(s, steps))
    decreases |steps|
  {
    if steps != [] {
      StepInv(s, steps[0]);
      RunKeepsInv(Next(s, steps[0]), steps[1..]);
    }
  }

  // ----- round robin

  predicate Dispatches(step: Step) {
    step.Begin? || step.Yield? || step.Tick? || step.Sleep? || step.Block? || step.Exit?
  }

  function DispatchCount(steps: seq<Step>): nat {
    if steps == [] then 0 else (if Dispatches(steps[0]) then 1 else 0) + DispatchCount(steps[1..])
  }

  /** One step moves a queued thread up by one at a dispatch and not at all otherwise. */
  lemma StepMovesUp(s: Sched, step: Step, k: nat)
    requires Inv(s) && Enabled(s, step) && k < |s.ready|
    ensures var s' := Next(s, step);
            if !Dispatches(step) then k < |s'.ready| && s'.ready[k] == s.ready[k]
            else if k == 0 then s'.current == s.ready[0]
            else k - 1 < |s'.ready| && s'.ready[k - 1] == s.ready[k]
  {
  }

  /**
    A thread with `k` others ahead of it is still queued after any run with at
    most `k` dispatches, exactly as many places further up.
   */
  lemma {:induction false} QueuedUntilItsTurn(s: Sched, steps: seq<Step>, k: nat)
    requires Inv(s) && IsRun(s, steps) && k < |s.ready| && DispatchCount(steps) <= k
    ensures var j := k - DispatchCount(steps);
            j < |After(s, steps).ready| && After(s, steps).ready[j] == s.ready[k]
    decreases |steps|
  {
    hide Inv, Next, Enabled, Dispatches;
    if steps != [] {
      StepInv(s, steps[0]);
      StepMovesUp(s, steps[0], k);
      QueuedUntilItsTurn(Next(s, steps[0]), steps[1..], if Dispatches(steps[0]) then k - 1 else k);
    }
  }

  /** And it runs at the next dispatch: the `k + 1`-st, whatever was started, woken or preempted meanwhile. */
  lemma RunsAtItsTurn(s: Sched, steps: seq<Step>, k: nat, last: Step)
    requires Inv(s) && IsRun(s, steps) && k < |s.ready| && DispatchCount(steps) == k
    requires Enabled(After(s, steps), last) && Dispatches(last)
    ensures Next(After(s, steps), last).current == s.ready[k]
  {
    hide Inv, Enabled, Next, IsRun, DispatchCount, After;
    QueuedUntilItsTurn(s, steps, k);
    RunKeepsInv(s, steps);
    StepMovesUp(After(s, steps), last, 0);
  }

  /** A dispatch runs somebody, and idle only if nobody else can; any other step leaves the processor alone. */
  lemma NeverIdleWithWork(s: Sched, step: Step)
    requires Inv(s) && Enabled(s, step)
    ensures var s' := Next(s, step);
            if Dispatches(step) then s'.current in s'.state && (s'.current == s'.idle ==> s'.ready == [])
            else s'.current == s.current
  {
    hide Inv, Switch, Dispatch, WakeExpired, Without;
    IdleNotQueued(s);
    match step {
      case Begin => DispatchBusy(s);
      case Yield => SwitchBusy(s);
      case Sleep(d) => SwitchBusy(FellAsleep(s, d));
      case Block => SwitchBusy(GotBlocked(s));
      case Exit => SwitchBusy(Exiting(s));
      case Tick =>
        var m := s.(tick := (s.tick + 1) % WORD);
        TickKeepsInv(s);
        WakeExpiredInv(m);
        IdleNotQueued(WakeExpired(m));
        SwitchBusy(WakeExpired(m));
      case _ =>
    }
  }

  lemma IdleNotQueued(s: Sched)
    requires Inv(s)
    ensures s.idle !in s.ready
  {
  }

  lemma DispatchBusy(s: Sched)
    requires s.idle !in s.ready
    ensures var s' := Dispatch(s);
            s'.current in s'.state && s'.idle == s.idle && (s'.current == s'.idle ==> s'.ready == [])
  {
    assert s.ready != [] ==> s.ready[0] in s.ready;
  }

  lemma SwitchBusy(s: Sched)
    requires s.idle !in s.ready
    ensures var s' := Switch(s);
            s'.current in s'.state && s'.idle == s.idle && (s'.current == s'.idle ==> s'.ready == [])
  {
    hide Dispatch;
    DispatchBusy(Preempt(s));
  }

  /** The step makes the thread runnable. */
  predicate Readies(step: Step, t: nat) {
    step == Start(t) || step == Wake(t)
  }

  /** A thread that is started or woken goes to the back of the queue; no other thread changes. */
  lemma JoinsAtTheBack(s: Sched, step: Step, t: nat)
    requires Inv(s) && Enabled(s, step) && Readies(step, t)
    ensures var s' := Next(s, step);
            && s'.ready == s.ready + [t] && s'.state == s.state[t := Runnable] && t !in s'.asleep
            && s'.current == s.current && (forall u :: u != t ==> (u in s'.asleep <==> u in s.asleep))
  {
    WithoutOf(s.asleep, t);
    NotQueued(s, t);
  }

  /**
    A thread that is started or woken with `n` threads queued runs at precisely the
    `n + 1`-st dispatch from then on and at none before, whatever else happens.
   */
  lemma RunsAfterItIsReadied(s: Sched, step: Step, t: nat, steps: seq<Step>, last: Step)
    requires Inv(s) && Enabled(s, step) && Readies(step, t) && IsRun(Next(s, step), steps)
    ensures DispatchCount(steps) <= |s.ready| ==> After(Next(s, step), steps).current != t
    ensures DispatchCount(steps) == |s.ready| && Enabled(After(Next(s, step), steps), last) && Dispatches(last) ==>
            Next(After(Next(s, step), steps), last).current == t
  {
    hide Inv, Enabled, Next, IsRun, DispatchCount, After, Dispatches;
    var s1 := Next(s, step);
    JoinsAtTheBack(s, step, t);
    StepInv(s, step);
    assert s1.ready[|s.ready|] == t;
    if DispatchCount(steps) <= |s.ready| {
      QueuedUntilItsTurn(s1, steps, |s.ready|);
      RunKeepsInv(s1, steps);
      QueuedIsNotCurrent(After(s1, steps), |s.ready| - DispatchCount(steps));
      if DispatchCount(steps) == |s.ready| && Enabled(After(s1, steps), last) && Dispatches(last) {
        RunsAtItsTurn(s1, steps, |s.ready|, last);
      }
    }
  }

  lemma QueuedIsNotCurrent(s: Sched, k: nat)
    requires Inv(s) && k < |s.ready|
    ensures s.ready[k] != s.current
  {
    assert s.ready[k] in s.ready;
  }

  /** A thread that is preempted goes on at once if nobody else can run, and otherwise goes to the back of the queue. */
  lemma PreemptedGoesToTheBack(s: Sched, step: Step)
    requires Inv(s) && Enabled(s, step) && (step.Yield? || step.Tick?) && s.current != s.idle
    ensures var s' := Next(s, step);
            if s'.ready == [] then s'.current == s.current else s'.ready[|s'.ready| - 1] == s.current
  {
    hide Inv, WakeExpired, Switch;
    CurrentRuns(s);
    if step.Tick? {
      var m := s.(tick := (s.tick + 1) % WORD);
      TickKeepsInv(s);
      WakeExpiredInv(m);
      WakeExpiredCurrent(m);
      CurrentRuns(WakeExpired(m));
      SwitchRequeues(WakeExpired(m));
    } else {
      SwitchRequeues(s);
    }
  }

  lemma SwitchRequeues(s: Sched)
    requires s.current in s.state && s.state[s.current] == Running && s.current != s.idle
    ensures var s' := Switch(s);
            if s'.ready == [] then s'.current == s.current else s'.ready[|s'.ready| - 1] == s.current
  {
  }

  /** So it runs again at precisely the dispatch for which it has queued. */
  lemma RunsAfterPreemption(s: Sched, step: Step, steps: seq<Step>, last: Step)
    requires Inv(s) && Enabled(s, step) && (step.Yield? || step.Tick?) && s.current != s.idle
    requires IsRun(Next(s, step), steps) && DispatchCount(steps) + 1 == |Next(s, step).ready|
    requires Enabled(After(Next(s, step), steps), last) && Dispatches(last)
    ensures Next(After(Next(s, step), steps), last).current == s.current
  {
    hide Inv, Enabled, Next, IsRun, DispatchCount, After, Dispatches;
    StepInv(s, step);
    PreemptedGoesToTheBack(s, step);
    RunsAtItsTurn(Next(s, step), steps, DispatchCount(steps), last);
  }

  // ----- off the processor

  lemma NotRunning(s: Sched, t: nat)
    requires Inv(s) && t in s.state && s.state[t] != Running
    ensures t != s.current
  {
  }

  lemma SwitchLeaves(s: Sched, t: nat)
    requires t in s.state && s.state[t] != Running && t != s.idle && t !in s.ready
    ensures t in Switch(s).state && Switch(s).state[t] == s.state[t] && Switch(s).asleep == s.asleep
  {
  }

  lemma {:induction false} DueAsleep(asleep: seq<nat>, wake: map<nat, nat>, tick: nat, due: bool, t: nat)
    requires t !in asleep
    ensures t !in Sleepers(asleep, wake, tick, due)
  {
    if asleep != [] {
      DueAsleep(asleep[1..], wake, tick, due, t);
    }
  }

  lemma WakeLeaves(s: Sched, t: nat)
    requires t in s.state && t !in s.asleep && t !in s.ready
    ensures var s' := WakeExpired(s);
            t in s'.state && s'.state[t] == s.state[t] && t !in s'.ready && s'.idle == s.idle && t !in s'.asleep
  {
    DueAsleep(s.asleep, s.wake, s.tick, true, t);
    DueAsleep(s.asleep, s.wake, s.tick, false, t);
  }

  /** The thread is unstarted, or blocked without a deadline. */
  ghost predicate Held(s: Sched, t: nat) {
    t in s.state && (s.state[t] == Ready || s.state[t] == Blocked) && t !in s.asleep
  }

  lemma HeldIsOff(s: Sched, t: nat)
    requires Inv(s) && Held(s, t)
    ensures t != s.current && t != s.idle && t !in s.ready
    ensures s.dying != [] ==> t != s.dying[0]
    ensures s.dead != [] ==> t != s.dead[0]
  {
    assert s.dead != [] ==> s.dead[0] in s.dead;
    assert s.dying != [] ==> s.dying[0] in s.dying;
  }

  lemma HeldStep(s: Sched, step: Step, t: nat)
    requires Inv(s) && Enabled(s, step) && Held(s, t) && !Readies(step, t) && step != Discard(t)
    ensures Held(Next(s, step), t)
  {
    hide Inv, Switch, WakeExpired, Without;
    HeldIsOff(s, t);
    match step {
      case Yield => SwitchLeaves(s, t);
      case Sleep(d) =>
        CurrentRuns(s);
        SwitchLeaves(FellAsleep(s, d), t);
      case Block => SwitchLeaves(GotBlocked(s), t);
      case Exit => SwitchLeaves(Exiting(s), t);
      case Tick =>
        WakeLeaves(s.(tick := (s.tick + 1) % WORD), t);
        SwitchLeaves(WakeExpired(s.(tick := (s.tick + 1) % WORD)), t);
      case Wake(u) => WithoutStill(s.asleep, u, t);
      case _ =>
    }
  }

  lemma {:induction false} WithoutStill(list: seq<nat>, u: nat, t: nat)
    requires t !in list
    ensures t !in Without(list, u)
  {
    if list != [] {
      WithoutStill(list[1..], u, t);
    }
  }

  /** An unstarted thread never runs before it is started, and a blocked one never before it is woken. */
  lemma {:induction false} HeldUntilReadied(s: Sched, steps: seq<Step>, t: nat)
    requires Inv(s) && IsRun(s, steps) && Held(s, t)
    requires Start(t) !in steps && Wake(t) !in steps && Discard(t) !in steps
    ensures Held(After(s, steps), t) && After(s, steps).current != t
    decreases |steps|
  {
    hide Inv, Next, Enabled, Held;
    if steps == [] {
      HeldIsOff(s, t);
    } else {
      assert steps[0] in steps && forall u :: u in steps[1..] ==> u in steps;
      StepInv(s, steps[0]);
      HeldStep(s, steps[0], t);
      HeldUntilReadied(Next(s, steps[0]), steps[1..], t);
    }
  }

  /** The thread that blocks leaves the processor and does not run again before it is woken. */
  lemma BlockedUntilWoken(s: Sched, steps: seq<Step>)
    requires Inv(s) && Enabled(s, Block) && IsRun(Next(s, Block), steps)
    requires Start(s.current) !in steps && Wake(s.current) !in steps && Discard(s.current) !in steps
    ensures var e := After(Next(s, Block), steps);
            e.current != s.current && s.current in e.state && s.current !in e.ready
  {
    hide IsRun, After, Inv, Enabled, Next;
    BlocksCurrent(s);
    StepInv(s, Block);
    HeldUntilReadied(Next(s, Block), steps, s.current);
    RunKeepsInv(Next(s, Block), steps);
    HeldIsOff(After(Next(s, Block), steps), s.current);
  }

  lemma BlocksCurrent(s: Sched)
    requires Inv(s) && Enabled(s, Block)
    ensures Held(Next(s, Block), s.current) && Next(s, Block).state[s.current] == Blocked
  {
    hide Switch;
    CurrentRuns(s);
    NotQueued(s, s.current);
    SwitchLeaves(GotBlocked(s), s.current);
  }

  /** The thread has ended, or is not there at all. */
  ghost predicate Ended(s: Sched, t: nat) {
    t !in s.state || s.state[t] == Terminating || s.state[t] == Dead
  }

  /** A thread that has exited never runs again, unless its number is given to a new thread. */
  lemma {:induction false} EndedNeverRuns(s: Sched, steps: seq<Step>, t: nat)
    requires Inv(s) && IsRun(s, steps) && Ended(s, t) && t != NULL && Create(t) !in steps
    ensures Ended(After(s, steps), t) && After(s, steps).current != t
    decreases |steps|
  {
    hide Next, Enabled;
    if steps != [] {
      assert steps[0] in steps && forall u :: u in steps[1..] ==> u in steps;
      StepInv(s, steps[0]);
      EndedStep(s, steps[0], t);
      EndedNeverRuns(Next(s, steps[0]), steps[1..], t);
    }
  }

  lemma EndedStep(s: Sched, step: Step, t: nat)
    requires Inv(s) && Enabled(s, step) && Ended(s, t) && step != Create(t) && t != NULL
    ensures Ended(Next(s, step), t)
  {
    hide Inv;
    if t in s.state {
      DoomedStays(s, step, t);
    } else {
      AbsentStays(s, step, t);
    }
  }

  lemma AbsentStays(s: Sched, step: Step, t: nat)
    requires Inv(s) && Enabled(s, step) && t !in s.state && step != Create(t) && t != NULL
    ensures t !in Next(s, step).state
  {
    hide Inv, Switch, WakeExpired, Without, Dispatch;
    NotQueued(s, t);
    IdleIsThere(s);
    match step {
      case Begin => DispatchAbsent(s, t);
      case Yield => SwitchAbsent(s, t);
      case Sleep(d) => SwitchAbsent(FellAsleep(s, d), t);
      case Block => SwitchAbsent(GotBlocked(s), t);
      case Exit => SwitchAbsent(Exiting(s), t);
      case Tick =>
        var m := s.(tick := (s.tick + 1) % WORD);
        TickKeepsInv(s);
        WakeExpiredInv(m);
        WakeAbsent(m, t);
        NotQueued(WakeExpired(m), t);
        IdleIsThere(WakeExpired(m));
        SwitchAbsent(WakeExpired(m), t);
      case _ =>
    }
  }

  lemma IdleIsThere(s: Sched)
    requires Inv(s)
    ensures s.idle in s.state && (s.current != NULL ==> s.current in s.state)
    ensures s.dying != [] ==> s.dying[0] in s.state
  {
    assert s.dying != [] ==> s.dying[0] in s.dying;
  }

  lemma DispatchAbsent(s: Sched, t: nat)
    requires t !in s.state && t !in s.ready && s.idle in s.state
    ensures t !in Dispatch(s).state
  {
    assert s.ready != [] ==> s.ready[0] in s.ready;
  }

  lemma SwitchAbsent(s: Sched, t: nat)
    requires t !in s.state && t !in s.ready && s.idle in s.state
    ensures t !in Switch(s).state
  {
    hide Dispatch;
    DispatchAbsent(Preempt(s), t);
  }

  lemma WakeAbsent(s: Sched, t: nat)
    requires t !in s.state
    ensures t !in WakeExpired(s).state
  {
  }

  /** After its exit a thread is off the processor for good. */
  lemma ExitIsFinal(s: Sched, steps: seq<Step>)
    requires Inv(s) && Enabled(s, Exit) && IsRun(Next(s, Exit), steps) && Create(s.current) !in steps
    ensures Next(s, Exit).state[s.current] == Terminating
    ensures After(Next(s, Exit), steps).current != s.current
  {
    hide IsRun, After, Inv, Next;
    ExitsCurrent(s);
    StepInv(s, Exit);
    EndedNeverRuns(Next(s, Exit), steps, s.current);
  }

  lemma ExitsCurrent(s: Sched)
    requires Inv(s) && Enabled(s, Exit)
    ensures s.current in Next(s, Exit).state && Next(s, Exit).state[s.current] == Terminating && s.current != NULL
  {
    hide Switch;
    CurrentRuns(s);
    NotQueued(s, s.current);
    SwitchLeaves(Exiting(s), s.current);
  }

  // ----- sleeping

  /** Thread `t` sleeps and `r` more ticks bring its deadline. */
  ghost predicate DueIn(s: Sched, t: nat, r: nat) {
    t in s.asleep && t in s.wake && s.wake[t] == (s.tick + r) % WORD
  }

  ghost predicate Awake(s: Sched, t: nat) {
    t in s.state && (s.state[t] == Runnable || s.state[t] == Running)
  }

  /** With `r` ticks to go the signed comparison says so exactly if `r` is at most half the counter's range. */
  lemma ExpiredIff(tick: nat, r: nat)
    requires tick < WORD && r < WORD
    ensures Expired(tick, (tick + r) % WORD) <==> r == 0 || r > HALF
  {
    var w := (tick + r) % WORD;
    if tick + r < WORD {
      assert w == tick + r;
      assert r > 0 ==> (tick + WORD - w) % WORD == WORD - r;
    } else {
      assert w == tick + r - WORD;
      assert tick + WORD - w == WORD + (WORD - r);
      assert r > 0 ==> (tick + WORD - w) % WORD == WORD - r;
    }
  }

  lemma NextTick(tick: nat, r: nat)
    requires tick < WORD && 0 < r
    ensures ((tick + 1) % WORD + (r - 1)) % WORD == (tick + r) % WORD
  {
  }

  /** A tick counts a sleeper down, or wakes it: at the deadline, or at once if the deadline is too far off. */
  lemma TickCountsDown(s: Sched, t: nat, r: nat)
    requires Inv(s) && Enabled(s, Tick) && DueIn(s, t, r) && 0 < r < WORD
    ensures var s' := Next(s, Tick);
            if 1 < r <= HALF + 1 then DueIn(s', t, r - 1) else t !in s'.asleep && Awake(s', t)
  {
    hide Expired, Sleepers, Switch, MakeRunnable;
    var tick := (s.tick + 1) % WORD;
    NextTick(s.tick, r);
    ExpiredIff(tick, r - 1);
    SleepersOf(s.asleep, s.wake, tick, true);
    SleepersOf(s.asleep, s.wake, tick, false);
    var mid := s.(tick := tick);
    var late := Sleepers(s.asleep, s.wake, tick, true);
    RunnableOf(mid.(asleep := Sleepers(s.asleep, s.wake, tick, false)), late, t);
    SwitchKeeps(WakeExpired(mid), t);
    assert t in s.state;
  }

  lemma RunnableOf(s: Sched, ts: seq<nat>, t: nat)
    ensures var s' := MakeRunnable(s, ts);
            && s'.asleep == s.asleep && s'.wake == s.wake && s'.tick == s.tick
            && (t in ts && t in s.state ==> t in s'.state && s'.state[t] == Runnable)
  {
  }

  /** Switching leaves the sleepers and the clock alone and stops nobody for good. */
  lemma SwitchKeeps(s: Sched, t: nat)
    ensures var s' := Switch(s);
            && s'.asleep == s.asleep && s'.wake == s.wake && s'.tick == s.tick
            && (Awake(s, t) ==> Awake(s', t))
  {
  }

  /** Nothing but a tick or an explicit wake-up changes when a sleeper is due. */
  lemma OthersLeaveSleeper(s: Sched, step: Step, t: nat, r: nat)
    requires Inv(s) && Enabled(s, step) && DueIn(s, t, r) && !step.Tick? && step != Wake(t)
    ensures DueIn(Next(s, step), t, r)
  {
    hide WakeExpired, Without;
    match step {
      case Wake(_) => WithoutOf(s.asleep, step.t);
      case _ =>
    }
  }

  function TickCount(steps: seq<Step>): nat {
    if steps == [] then 0 else (if steps[0].Tick? then 1 else 0) + TickCount(steps[1..])
  }

  lemma {:induction false} SleepsUntilDue(s: Sched, steps: seq<Step>, t: nat, r: nat)
    requires Inv(s) && IsRun(s, steps) && DueIn(s, t, r) && 0 < r <= HALF + 1
    requires Wake(t) !in steps && TickCount(steps) < r
    ensures DueIn(After(s, steps), t, r - TickCount(steps))
    decreases |steps|
  {
    hide Inv, Next, Enabled, DueIn;
    if steps != [] {
      StepInv(s, steps[0]);
      assert steps[0] in steps && forall u :: u in steps[1..] ==> u in steps;
      if steps[0].Tick? {
        TickCountsDown(s, t, r);
        SleepsUntilDue(Next(s, steps[0]), steps[1..], t, r - 1);
      } else {
        OthersLeaveSleeper(s, steps[0], t, r);
        SleepsUntilDue(Next(s, steps[0]), steps[1..], t, r);
      }
    }
  }

  /** The thread that sleeps is due in as many ticks as it asked for. */
  lemma FallsAsleep(s: Sched, d: nat)
    requires Inv(s) && Enabled(s, Sleep(d))
    ensures var s1 := Next(s, Sleep(d));
            Inv(s1) && DueIn(s1, s.current, d) && 0 < d < WORD && Enabled(s1, Tick)
  {
    SleepInv(s, d);
  }

  /**
    A sleep of `d` ticks lasts exactly `d` ticks, across any wrap of the tick
    counter, for every `d` up to half the counter's range and one more: asleep
    until the last tick, awake right after it, unless woken explicitly.
   */
  lemma SleepIsExact(s: Sched, d: nat, steps: seq<Step>)
    requires Inv(s) && Enabled(s, Sleep(d)) && d <= HALF + 1
    requires IsRun(Next(s, Sleep(d)), steps) && Wake(s.current) !in steps && TickCount(steps) < d
    ensures var e := After(Next(s, Sleep(d)), steps);
            && s.current in e.asleep && e.current != s.current
            && (TickCount(steps) == d - 1 && Enabled(e, Tick) ==> Awake(Next(e, Tick), s.current))
  {
    hide Inv, Next, Enabled, After, IsRun, TickCount;
    var s1 := Next(s, Sleep(d));
    FallsAsleep(s, d);
    SleepsUntilDue(s1, steps, s.current, d);
    var e := After(s1, steps);
    RunKeepsInv(s1, steps);
    AsleepIsOff(e, s.current);
    if TickCount(steps) == d - 1 && Enabled(e, Tick) {
      TickCountsDown(e, s.current, 1);
    }
  }

  lemma AsleepIsOff(s: Sched, t: nat)
    requires Inv(s) && t in s.asleep
    ensures t != s.current && t !in s.ready
  {
  }

  /** Longer sleeps are cut short: the thread is awake after the very next tick. */
  lemma LongSleepEndsAtOnce(s: Sched, d: nat)
    requires Inv(s) && Enabled(s, Sleep(d)) && d > HALF + 1
    ensures var s1 := Next(s, Sleep(d));
            Enabled(s1, Tick) && Awake(Next(s1, Tick), s.current)
  {
    hide Inv, Next, Enabled;
    FallsAsleep(s, d);
    TickCountsDown(Next(s, Sleep(d)), s.current, d);
  }

  // ----- the end of a thread

  /** A thread disappears only as an unstarted one or after it was dead; never while queued, asleep or current. */
  lemma GoneOnlyWhenDead(s: Sched, step: Step, t: nat)
    requires Inv(s) && Enabled(s, step) && t in s.state && t !in Next(s, step).state
    ensures s.state[t] == Dead || s.state[t] == Ready
    ensures t != s.current && t != s.idle && t !in s.ready && t !in s.asleep && t !in s.dying
  {
    hide WakeExpired, Without;
    match step {
      case Reap => assert s.dead[0] in s.dead;
      case Tick => TickKeepsThreads(s);
      case _ =>
    }
  }

  lemma TickKeepsThreads(s: Sched)
    requires Inv(s) && Enabled(s, Tick)
    ensures s.state.Keys <= Next(s, Tick).state.Keys
  {
  }

  /** And a thread is dead only if it was terminating the step before, or dead already. */
  lemma DeadOnlyAfterTerminating(s: Sched, step: Step, t: nat)
    requires Inv(s) && Enabled(s, step)
    requires t in Next(s, step).state && Next(s, step).state[t] == Dead
    ensures t in s.state && (s.state[t] == Terminating || s.state[t] == Dead)
  {
    StepInv(s, step);
    if step.Retire? {
      assert s.dying[0] in s.dying;
    }
  }

  // ----- whole lives

  /** The states that a run goes through. */
  ghost function Trace(s: Sched, steps: seq<Step>): (tr: seq<Sched>)
    requires IsRun(s, steps)
    ensures |tr| == |steps| + 1 && tr[0] == s
    decreases |steps|
  {
    if steps == [] then [s] else [s] + Trace(Next(s, steps[0]), steps[1..])
  }

  lemma {:induction false} TraceStep(s: Sched, steps: seq<Step>, n: nat)
    requires Inv(s) && IsRun(s, steps) && n < |steps|
    ensures var tr := Trace(s, steps);
            Inv(tr[n]) && Enabled(tr[n], steps[n]) && tr[n + 1] == Next(tr[n], steps[n])
    decreases n
  {
    hide Inv, Enabled, Next;
    if n > 0 {
      StepInv(s, steps[0]);
      TraceStep(Next(s, steps[0]), steps[1..], n - 1);
    }
  }

  /** Thread `t` is in state `st` at the n-th point of the run. */
  ghost predicate IsAt(tr: seq<Sched>, n: nat, t: nat, st: TState) {
    n < |tr| && t in tr[n].state && tr[n].state[t] == st
  }

  /** A dead thread was terminating at an earlier point. */
  lemma {:induction false} DeadWasTerminating(s: Sched, steps: seq<Step>, t: nat, n: nat) returns (i: nat)
    requires Inv(s) && IsRun(s, steps) && n <= |steps| && IsAt(Trace(s, steps), n, t, Dead)
    requires !(t in s.state && (s.state[t] == Dead || s.state[t] == Terminating))
    ensures i < n && IsAt(Trace(s, steps), i, t, Terminating)
    decreases n
  {
    hide Inv, Enabled, Next, Trace, IsRun;
    TraceStep(s, steps, n - 1);
    var tr := Trace(s, steps);
    DeadOnlyAfterTerminating(tr[n - 1], steps[n - 1], t);
    if tr[n - 1].state[t] == Terminating {
      i := n - 1;
    } else {
      i := DeadWasTerminating(s, steps, t, n - 1);
    }
  }

  /** A started thread is unstarted again only if it was gone in between. */
  lemma {:induction false} ReadyAgainWasGone(s: Sched, steps: seq<Step>, t: nat, n: nat) returns (k: nat)
    requires Inv(s) && IsRun(s, steps) && n <= |steps| && IsAt(Trace(s, steps), n, t, Ready)
    requires t in s.state && s.state[t] != Ready
    ensures k < n && t !in Trace(s, steps)[k].state
    decreases n
  {
    hide Inv, Enabled, Next, Trace, IsRun;
    TraceStep(s, steps, n - 1);
    var tr := Trace(s, steps);
    if t !in tr[n - 1].state {
      k := n - 1;
    } else {
      ReadyStays(tr[n - 1], steps[n - 1], t);
      k := ReadyAgainWasGone(s, steps, t, n - 1);
    }
  }

  lemma ReadyStays(s: Sched, step: Step, t: nat)
    requires Inv(s) && Enabled(s, step) && t in s.state && t in Next(s, step).state && Next(s, step).state[t] == Ready
    ensures s.state[t] == Ready
  {
    hide Without, Sleepers;
  }

  /**
    Over any run: a started thread that has disappeared was terminating at one
    point of the run and dead at a later one, before it went.
   */
  lemma {:induction false} GoneWasTerminatingThenDead(s: Sched, steps: seq<Step>, t: nat, n: nat) returns (i: nat,
                                                                                                           j: nat)
    requires Inv(s) && IsRun(s, steps) && n <= |steps| && t !in Trace(s, steps)[n].state
    requires t in s.state && s.state[t] != Ready && s.state[t] != Terminating && s.state[t] != Dead
    ensures i < j < n && IsAt(Trace(s, steps), i, t, Terminating) && IsAt(Trace(s, steps), j, t, Dead)
    decreases n
  {
    hide Inv, Enabled, Next, Trace, IsRun;
    TraceStep(s, steps, n - 1);
    var tr := Trace(s, steps);
    if t !in tr[n - 1].state {
      i, j := GoneWasTerminatingThenDead(s, steps, t, n - 1);
    } else {
      GoneOnlyWhenDead(tr[n - 1], steps[n - 1], t);
      if tr[n - 1].state[t] == Dead {
        j := n - 1;
        i := DeadWasTerminating(s, steps, t, j);
      } else {
        var k := ReadyAgainWasGone(s, steps, t, n - 1);
        i, j := GoneWasTerminatingThenDead(s, steps, t, k);
      }
    }
  }

  // ----- a pass of the reaper

  function Reversed(s: seq<nat>): seq<nat> {
    if s == [] then [] else Reversed(s[1..]) + [s[0]]
  }

  /**
    One pass: the threads that were dead are gone, those that were terminating are
    dead, each still registered, and all others are as they were.
   */
  ghost predicate Passed(s: Sched, s': Sched) {
    && s'.dying == [] && s'.dead == Reversed(s.dying)
    && (forall t :: t in s'.state <==> t in s.state && t !in s.dead)
    && (forall t :: t in s'.state ==> s'.state[t] == if t in s.dying then Dead else s.state[t])
    && s'.ready == s.ready && s'.asleep == s.asleep && s'.current == s.current && s'.tick == s.tick && s'.idle == s.idle
  }

  lemma {:induction false} ReversedSnoc(s: seq<nat>, x: nat)
    ensures Reversed(s + [x]) == [x] + Reversed(s)
  {
    if s != [] {
      assert (s + [x])[1..] == s[1..] + [x];
      ReversedSnoc(s[1..], x);
    }
  }

  /** After the first `k` dead threads have been freed. */
  ghost predicate Freeing(s: Sched, m: Sched, k: nat) {
    && k <= |s.dead| && m.dead == s.dead[k..] && m.dying == s.dying
    && (forall t :: t in m.state <==> t in s.state && t !in s.dead[..k])
    && (forall t :: t in m.state ==> m.state[t] == s.state[t])
    && m.ready == s.ready && m.asleep == s.asleep && m.current == s.current && m.tick == s.tick && m.idle == s.idle
  }

  /** After that, and after the first `k` terminating threads have been declared dead. */
  ghost predicate Retiring(s: Sched, m: Sched, k: nat) {
    && k <= |s.dying| && m.dying == s.dying[k..] && m.dead == Reversed(s.dying[..k])
    && (forall t :: t in m.state <==> t in s.state && t !in s.dead)
    && (forall t :: t in m.state ==> m.state[t] == if t in s.dying[..k] then Dead else s.state[t])
    && m.ready == s.ready && m.asleep == s.asleep && m.current == s.current && m.tick == s.tick && m.idle == s.idle
  }

  lemma PassStart(s: Sched)
    ensures Freeing(s, s, 0)
  {
  }

  lemma FreeingLists(s: Sched, m: Sched, k: nat)
    requires Freeing(s, m, k)
    ensures m.dead == s.dead[k..]
  {
  }

  lemma RetiringLists(s: Sched, m: Sched, k: nat)
    requires Retiring(s, m, k)
    ensures m.dying == s.dying[k..]
  {
  }

  lemma FreeingNext(s: Sched, m: Sched, k: nat)
    requires Inv(s) && Freeing(s, m, k) && m.dead != []
    ensures Freeing(s, Reaped(m), k + 1)
  {
    hide Inv;
    assert s.dead[..k + 1] == s.dead[..k] + [m.dead[0]];
  }

  lemma RetiringStart(s: Sched, m: Sched)
    requires Freeing(s, m, |s.dead|)
    ensures Retiring(s, m, 0)
  {
    assert s.dead[..|s.dead|] == s.dead;
  }

  lemma RetiringNext(s: Sched, m: Sched, k: nat)
    requires Inv(s) && Retiring(s, m, k) && m.dying != []
    ensures Retiring(s, Retired(m), k + 1)
  {
    hide OneRuns;
    var x := m.dying[0];
    assert s.dying[..k + 1] == s.dying[..k] + [x];
    assert x in s.dying && x !in s.dying[..k];
    assert x in s.state && s.state[x] == Terminating && x !in s.dead;
    ReversedSnoc(s.dying[..k], x);
  }

  lemma RetiringEnd(s: Sched, m: Sched)
    requires Retiring(s, m, |s.dying|)
    ensures Passed(s, m)
  {
    assert s.dying[..|s.dying|] == s.dying;
  }

  // ----- passes with everybody else's steps in between

  /** Where the reaper is: between two passes, or in the first or the second loop of one. */
  datatype Phase = Resting | FirstLoop | SecondLoop

  datatype Kernel = Kernel(s: Sched, phase: Phase)

  /** A step of the scheduler, or the reaper entering a pass, going on to its second loop, or leaving. */
  datatype Move = Do(step: Step) | Enter | GoOn | Leave

  /** The reaper frees in its first loop and retires in its second; everything else may happen at any time. */
  predicate Allowed(k: Kernel, m: Move) {
    match m
    case Do(Reap) => k.phase == FirstLoop && Enabled(k.s, Reap)
    case Do(Retire) => k.phase == SecondLoop && Enabled(k.s, Retire)
    case Do(step) => Enabled(k.s, step)
    case Enter => k.phase == Resting
    case GoOn => k.phase == FirstLoop && k.s.dead == []
    case Leave => k.phase == SecondLoop && k.s.dying == []
  }

  function Moved(k: Kernel, m: Move): Kernel
    requires Allowed(k, m)
  {
    match m
    case Do(step) => k.(s := Next(k.s, step))
    case Enter => k.(phase := FirstLoop)
    case GoOn => k.(phase := SecondLoop)
    case Leave => k.(phase := Resting)
  }

  predicate IsCourse(k: Kernel, moves: seq<Move>)
    decreases |moves|
  {
    moves == [] || (Allowed(k, moves[0]) && IsCourse(Moved(k, moves[0]), moves[1..]))
  }

  function AfterMoves(k: Kernel, moves: seq<Move>): Kernel
    requires IsCourse(k, moves)
    decreases |moves|
  {
    if moves == [] then k else AfterMoves(Moved(k, moves[0]), moves[1..])
  }

  lemma {:induction false} OneMoreMove(k: Kernel, moves: seq<Move>, m: Move)
    requires IsCourse(k, moves) && Allowed(AfterMoves(k, moves), m)
    ensures IsCourse(k, moves + [m]) && AfterMoves(k, moves + [m]) == Moved(AfterMoves(k, moves), m)
    decreases |moves|
  {
    hide Allowed, Moved;
    if moves != [] {
      assert (moves + [m])[1..] == moves[1..] + [m];
      OneMoreMove(Moved(k, moves[0]), moves[1..], m);
    } else {
      assert (moves + [m])[1..] == [];
    }
  }

  /** Terminating in a pass that is under way, or dead and out of that pass's reach. */
  ghost predicate Doomed(k: Kernel, t: nat) {
    && t in k.s.state
    && ((k.s.state[t] == Terminating && k.phase != Resting) || (k.s.state[t] == Dead && k.phase != FirstLoop))
  }

  lemma DoomedStep(k: Kernel, m: Move, t: nat)
    requires Inv(k.s) && Allowed(k, m) && m != Enter && Doomed(k, t)
    ensures Inv(Moved(k, m).s) && Doomed(Moved(k, m), t)
  {
    hide Inv, Next, Enabled;
    if m.Do? {
      StepInv(k.s, m.step);
      DoomedStays(k.s, m.step, t);
    }
    ListedOnes(k.s, t);
  }

  /** Only the reaper's own two steps touch a terminating or a dead thread. */
  lemma DoomedStays(s: Sched, step: Step, t: nat)
    requires Inv(s) && Enabled(s, step) && t in s.state && (s.state[t] == Terminating || s.state[t] == Dead)
    ensures s.state[t] == Terminating ==> (
              && t in Next(s, step).state
              && (Next(s, step).state[t] == Terminating || (step == Retire && Next(s, step).state[t] == Dead)))
    ensures s.state[t] == Dead && step != Reap ==> t in Next(s, step).state && Next(s, step).state[t] == Dead
  {
    hide Inv, Switch, WakeExpired, Without;
    NotAbout(s, t);
    match step {
      case Yield => SwitchLeaves(s, t);
      case Sleep(d) => SwitchLeaves(FellAsleep(s, d), t);
      case Block => SwitchLeaves(GotBlocked(s), t);
      case Exit => SwitchLeaves(Exiting(s), t);
      case Tick =>
        WakeLeaves(s.(tick := (s.tick + 1) % WORD), t);
        SwitchLeaves(WakeExpired(s.(tick := (s.tick + 1) % WORD)), t);
      case _ =>
    }
  }

  /** A thread that has ended is not current and on no queue. */
  lemma NotAbout(s: Sched, t: nat)
    requires Inv(s) && t in s.state && (s.state[t] == Terminating || s.state[t] == Dead)
    ensures t != s.idle && t != s.current && t !in s.ready && t !in s.asleep
    ensures s.state[t] == Terminating && s.dead != [] ==> t != s.dead[0]
    ensures s.state[t] == Dead && s.dying != [] ==> t != s.dying[0]
    ensures s.ready != [] ==> s.ready[0] in s.ready
  {
    assert s.dead != [] ==> s.dead[0] in s.dead;
    assert s.dying != [] ==> s.dying[0] in s.dying;
  }

  lemma ListedOnes(s: Sched, t: nat)
    requires Inv(s) && t in s.state
    ensures s.state[t] == Terminating ==> t in s.dying
    ensures s.state[t] == Dead ==> t in s.dead
  {
  }

  lemma {:induction false} DoomedCourse(k: Kernel, moves: seq<Move>, t: nat)
    requires Inv(k.s) && IsCourse(k, moves) && Enter !in moves && Doomed(k, t)
    ensures Doomed(AfterMoves(k, moves), t)
    decreases |moves|
  {
    hide Inv, Allowed, Moved, Doomed;
    if moves != [] {
      DoomedStep(k, moves[0], t);
      assert moves[0] in moves && forall m :: m in moves[1..] ==> m in moves;
      DoomedCourse(Moved(k, moves[0]), moves[1..], t);
    }
  }

  /**
    A thread that is terminating while a pass is under way, whenever it exited, is
    dead and still registered when that pass is over, whatever else happens
    meanwhile and afterwards, until the next pass.
   */
  lemma DeadForAPass(k: Kernel, moves: seq<Move>, t: nat)
    requires Inv(k.s) && IsCourse(k, moves) && Enter !in moves && k.phase != Resting
    requires t in k.s.state && k.s.state[t] == Terminating
    ensures var e := AfterMoves(k, moves);
            t in e.s.state && (e.s.state[t] == Terminating || e.s.state[t] == Dead)
            && (e.phase == Resting ==> e.s.state[t] == Dead && t in e.s.dead)
  {
    hide Inv, IsCourse, AfterMoves;
    DoomedCourse(k, moves, t);
    CourseInv(k, moves);
    ListedOnes(AfterMoves(k, moves).s, t);
  }

  /** A thread that a pass declares dead is freed in a later pass, never in the same one. */
  lemma FreedInALaterPass(k: Kernel, moves: seq<Move>, t: nat)
    requires Inv(k.s) && IsCourse(k, moves) && k.phase == SecondLoop && t in k.s.state && k.s.state[t] == Dead
    requires t !in AfterMoves(k, moves).s.state
    ensures Enter in moves
  {
    hide Inv, IsCourse, AfterMoves;
    if Enter !in moves {
      DoomedCourse(k, moves, t);
    }
  }

  lemma {:induction false} CourseInv(k: Kernel, moves: seq<Move>)
    requires Inv(k.s) && IsCourse(k, moves)
    ensures Inv(AfterMoves(k, moves).s)
    decreases |moves|
  {
    hide Inv, Enabled, Next;
    if moves != [] {
      if moves[0].Do? {
        StepInv(k.s, moves[0].step);
      }
      CourseInv(Moved(k, moves[0]), moves[1..]);
    }
  }

  /** What the reaper does next in a pass. */
  function Turn(k: Kernel): (m: Move)
    requires k.phase != Resting
    ensures Allowed(k, m)
  {
    if k.phase == FirstLoop then if k.s.dead != [] then Do(Reap) else GoOn
    else if k.s.dying != [] then Do(Retire) else Leave
  }
}
