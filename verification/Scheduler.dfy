/**
  The scheduler's code on its data: one link field per thread that the ready
  queue and the sleep list share, a second one for the two lists of the reaper,
  and flags that say which list a thread is on. Each entry point is proved to be
  the step of `Scheduling` of the same name.
 */
module Scheduler {
  import opened Basics
  import opened Links
  import S = Scheduling

  lemma {:induction false} SleepersSnoc(done: seq<nat>, x: nat, wake: map<nat, nat>, tick: nat, due: bool)
    requires x in wake
    ensures S.Sleepers(done + [x], wake, tick, due) ==
            S.Sleepers(done, wake, tick, due) + (if S.Expired(tick, wake[x]) == due then [x] else [])
    decreases |done|
  {
    if done == [] {
      assert [] + [x] == [x];
      assert S.Sleepers([x][1..], wake, tick, due) == [];
    } else {
      assert (done + [x])[0] == done[0] && (done + [x])[1..] == done[1..] + [x];
      SleepersSnoc(done[1..], x, wake, tick, due);
    }
  }

  lemma {:induction false} WithoutAt(list: seq<nat>, t: nat, k: nat)
    requires k < |list| && list[k] == t && forall i :: 0 <= i < k ==> list[i] != t
    ensures Without(list, t) == Cut(list, k)
  {
    if k > 0 {
      WithoutAt(list[1..], t, k - 1);
      assert [list[0]] + (list[1..][..k - 1] + list[1..][k..]) == list[..k] + list[k + 1..];
    } else {
      assert list[..0] + list[1..] == list[1..];
    }
  }

  ghost predicate Disjoint(a: seq<nat>, b: seq<nat>) {
    forall t :: t in a ==> t !in b
  }

  /** The two lists threaded through `next`, with their flags. */
  ghost predicate Linked(next: map<nat, nat>, readyHead: nat, readyTail: nat, sleepHead: nat, inReady: set<nat>,
                         inSleep: set<nat>, ready: seq<nat>, asleep: seq<nat>) {
    && Chain(next, readyHead, ready) && readyTail == (if ready == [] then NULL else ready[|ready| - 1])
    && Chain(next, sleepHead, asleep)
    && (forall t :: t in inReady <==> t in ready)
    && (forall t :: t in inSleep <==> t in asleep)
    && Disjoint(ready, asleep)
  }

  lemma PushLinked(next: map<nat, nat>, readyHead: nat, readyTail: nat, sleepHead: nat, inReady: set<nat>,
                   inSleep: set<nat>, ready: seq<nat>, asleep: seq<nat>, t: nat)
    requires Linked(next, readyHead, readyTail, sleepHead, inReady, inSleep, ready, asleep)
    requires t != NULL && t !in ready && t !in asleep
    ensures var next' := if readyTail == NULL then next[t := NULL] else next[t := NULL][readyTail := t];
            Linked(next', if readyTail == NULL then t else readyHead, t, sleepHead, inReady + {t}, inSleep, ready + [t],
                   asleep)
  {
    var next' := if readyTail == NULL then next[t := NULL] else next[t := NULL][readyTail := t];
    ChainPushBack(next, readyHead, ready, t);
    assert ready != [] ==> readyTail in ready;
    ChainFrame(next, next', sleepHead, asleep);
  }

  lemma ChainStart(next: map<nat, nat>, head: nat, list: seq<nat>)
    requires Chain(next, head, list) && list != []
    ensures head == list[0] && head in next && next[head] == Succ(list, 0)
    ensures |list| > 1 ==> list[1] != NULL
    ensures forall t :: t in list ==> t in next
  {
    assert next[list[0]] == Succ(list, 0);
  }

  lemma ChainMembers(next: map<nat, nat>, head: nat, list: seq<nat>)
    requires Chain(next, head, list)
    ensures forall t :: t in list ==> t in next
  {
  }

  lemma PopLinked(next: map<nat, nat>, readyHead: nat, readyTail: nat, sleepHead: nat, inReady: set<nat>,
                  inSleep: set<nat>, ready: seq<nat>, asleep: seq<nat>)
    requires Linked(next, readyHead, readyTail, sleepHead, inReady, inSleep, ready, asleep) && ready != []
    ensures readyHead in next && readyHead == ready[0]
    ensures Linked(next[readyHead := NULL], next[readyHead], if next[readyHead] == NULL then NULL else readyTail,
                   sleepHead,
                   inReady - {readyHead}, inSleep, ready[1..], asleep)
  {
    hide Chain;
    ChainPopFront(next, readyHead, ready);
    ChainStart(next, readyHead, ready);
    assert ready == [ready[0]] + ready[1..];
    ChainFrame(next, next[readyHead := NULL], next[readyHead], ready[1..]);
    assert readyHead in ready;
    ChainMembers(next, sleepHead, asleep);
    ChainFrame(next, next[readyHead := NULL], sleepHead, asleep);
  }

  lemma SleepLinked(next: map<nat, nat>, readyHead: nat, readyTail: nat, sleepHead: nat, inReady: set<nat>,
                    inSleep: set<nat>, ready: seq<nat>, asleep: seq<nat>, t: nat)
    requires Linked(next, readyHead, readyTail, sleepHead, inReady, inSleep, ready, asleep)
    requires t != NULL && t !in ready && t !in asleep
    ensures Linked(next[t := sleepHead], readyHead, readyTail, t, inReady, inSleep + {t}, ready, [t] + asleep)
  {
    ChainPushFront(next, sleepHead, asleep, t);
    ChainFrame(next, next[t := sleepHead], readyHead, ready);
  }

  /** The links after the sleeper at position `k` has been taken out. */
  function Unlink(next: map<nat, nat>, prev: nat, t: nat): map<nat, nat>
    requires t in next
  {
    (if prev == NULL then next else next[prev := next[t]])[t := NULL]
  }

  lemma UnlinkLinked(next: map<nat, nat>, readyHead: nat, readyTail: nat, sleepHead: nat, inReady: set<nat>,
                     inSleep: set<nat>, ready: seq<nat>, asleep: seq<nat>, k: nat)
    requires Linked(next, readyHead, readyTail, sleepHead, inReady, inSleep, ready, asleep) && k < |asleep|
    ensures asleep[k] in next
    ensures var prev := if k == 0 then NULL else asleep[k - 1];
            Linked(Unlink(next, prev, asleep[k]), readyHead, readyTail, if k == 0 then next[asleep[0]] else sleepHead,
                   inReady,
                   inSleep - {asleep[k]}, ready, Cut(asleep, k))
  {
    hide Cut;
    var t := asleep[k];
    var prev := if k == 0 then NULL else asleep[k - 1];
    ChainCut(next, sleepHead, asleep, k);
    CutDistinct(asleep, k);
    var mid := if prev == NULL then next else next[prev := next[t]];
    var head := if k == 0 then next[asleep[0]] else sleepHead;
    assert asleep[k] in asleep && (k > 0 ==> prev in asleep && prev != NULL);
    ChainFrame(mid, Unlink(next, prev, t), head, Cut(asleep, k));
    ChainFrame(next, Unlink(next, prev, t), readyHead, ready);
  }

  lemma FreshLinked(next: map<nat, nat>, readyHead: nat, readyTail: nat, sleepHead: nat, inReady: set<nat>,
                    inSleep: set<nat>, ready: seq<nat>, asleep: seq<nat>, t: nat)
    requires Linked(next, readyHead, readyTail, sleepHead, inReady, inSleep, ready, asleep) && t !in ready
    requires t !in asleep
    ensures Linked(next[t := NULL], readyHead, readyTail, sleepHead, inReady, inSleep, ready, asleep)
  {
    ChainFrame(next, next[t := NULL], readyHead, ready);
    ChainFrame(next, next[t := NULL], sleepHead, asleep);
  }

  /** The link field that the ready queue and the sleep list share, and what hangs on it. */
  class Queues {
    var next: map<nat, nat>
    var inReady: set<nat>
    var inSleep: set<nat>
    var readyHead: nat
    var readyTail: nat
    var sleepHead: nat
    ghost var ready: seq<nat>
    ghost var asleep: seq<nat>

    ghost predicate Valid()
      reads this
    {
      Linked(next, readyHead, readyTail, sleepHead, inReady, inSleep, ready, asleep)
    }

    constructor ()
      ensures Valid() && ready == [] && asleep == []
    {
      next, inReady, inSleep, readyHead, readyTail, sleepHead := map[], {}, {}, NULL, NULL, NULL;
      ready, asleep := [], [];
    }

    /** A new thread is zeroed: it is on no list. */
    method Zero(t: nat)
      requires Valid() && t !in ready && t !in asleep
      modifies this
      ensures Valid() && ready == old(ready) && asleep == old(asleep) && next == old(next)[t := NULL]
    {
      FreshLinked(next, readyHead, readyTail, sleepHead, inReady, inSleep, ready, asleep, t);
      next := next[t := NULL];
    }

    method Push(t: nat)
      requires Valid() && t != NULL && t !in ready && t !in asleep
      modifies this
      ensures Valid() && ready == old(ready) + [t] && asleep == old(asleep)
    {
      // the kernel halts here if the thread is already queued; it is not
      assert t !in inReady;
      PushLinked(next, readyHead, readyTail, sleepHead, inReady, inSleep, ready, asleep, t);
      next := next[t := NULL];
      inReady := inReady + {t};
      if readyTail != NULL {
        next := next[readyTail := t];
      } else {
        readyHead := t;
      }
      readyTail := t;
      ready := ready + [t];
    }

    /** Take the head of the ready queue; NULL if it is empty. */
    method Pop() returns (t: nat)
      requires Valid()
      modifies this
      ensures Valid() && asleep == old(asleep)
      ensures t == (if old(ready) == [] then NULL else old(ready)[0])
      ensures ready == if old(ready) == [] then [] else old(ready)[1..]
      ensures t != NULL ==> next == old(next)[t := NULL]
    {
      t := readyHead;
      if t == NULL {
        return;
      }
      PopLinked(next, readyHead, readyTail, sleepHead, inReady, inSleep, ready, asleep);
      readyHead := next[t];
      if readyHead == NULL {
        readyTail := NULL;
      }
      next := next[t := NULL];
      inReady := inReady - {t};
      ready := ready[1..];
    }

    method PushSleeper(t: nat)
      requires Valid() && t != NULL && t !in ready && t !in asleep
      modifies this
      ensures Valid() && ready == old(ready) && asleep == [t] + old(asleep)
    {
      SleepLinked(next, readyHead, readyTail, sleepHead, inReady, inSleep, ready, asleep, t);
      next := next[t := sleepHead];
      inSleep := inSleep + {t};
      sleepHead := t;
      asleep := [t] + asleep;
    }

    /** Take the sleeper at position `k`, which `prev` links to, off the list. */
    method UnlinkSleeper(prev: nat, t: nat, ghost k: nat)
      requires Valid() && k < |asleep| && t == asleep[k] && prev == (if k == 0 then NULL else asleep[k - 1])
      modifies this
      ensures Valid() && ready == old(ready) && asleep == Cut(old(asleep), k)
    {
      hide Cut;
      assert k > 0 ==> prev != NULL;
      UnlinkLinked(next, readyHead, readyTail, sleepHead, inReady, inSleep, ready, asleep, k);
      if prev == NULL {
        sleepHead := next[t];
      } else {
        next := next[prev := next[t]];
      }
      next := next[t := NULL];
      inSleep := inSleep - {t};
      asleep := Cut(asleep, k);
    }

    /** Take a thread off the sleep list, if it is on it, wherever that is. */
    method Unsleep(t: nat)
      requires Valid()
      modifies this
      ensures Valid() && ready == old(ready) && asleep == Without(old(asleep), t) && t !in asleep
    {
      hide Cut, Without;
      WithoutOf(asleep, t);
      if t !in inSleep {
        WithoutAbsent(asleep, t);
        return;
      }
      ghost var k := 0;
      var prev, cur := NULL, sleepHead;
      while cur != t
        invariant k < |asleep| && cur == asleep[k] && prev == (if k == 0 then NULL else asleep[k - 1])
        invariant forall i :: 0 <= i < k ==> asleep[i] != t
        decreases |asleep| - k
      {
        assert next[asleep[k]] == Succ(asleep, k);
        assert exists i :: k < i < |asleep| && asleep[i] == t;
        prev, cur := cur, next[cur];
        k := k + 1;
      }
      WithoutAt(asleep, t, k);
      UnlinkSleeper(prev, t, k);
    }

    /** The sleeper after `prev`, or the first one. */
    method Sleeper(prev: nat, ghost k: nat) returns (t: nat)
      requires Valid() && k <= |asleep| && prev == (if k == 0 then NULL else asleep[k - 1])
      ensures t == if k < |asleep| then asleep[k] else NULL
    {
      if prev == NULL {
        assert k == 0;
        t := sleepHead;
      } else {
        assert next[asleep[k - 1]] == Succ(asleep, k - 1);
        t := next[prev];
      }
    }
  }

  /** The two lists of the reaper, which share a second link field. */
  class Reaper {
    var reapNext: map<nat, nat>
    var dyingHead: nat
    var deadHead: nat
    ghost var dying: seq<nat>
    ghost var dead: seq<nat>

    ghost predicate Valid()
      reads this
    {
      Chain(reapNext, dyingHead, dying) && Chain(reapNext, deadHead, dead) && Disjoint(dying, dead)
    }

    constructor ()
      ensures Valid() && dying == [] && dead == []
    {
      reapNext, dyingHead, deadHead := map[], NULL, NULL;
      dying, dead := [], [];
    }

    method PushDying(t: nat)
      requires Valid() && t != NULL && t !in dying && t !in dead
      modifies this
      ensures Valid() && dying == [t] + old(dying) && dead == old(dead)
    {
      ChainPushFront(reapNext, dyingHead, dying, t);
      ChainFresh(reapNext, deadHead, dead, t, dyingHead);
      reapNext := reapNext[t := dyingHead];
      dyingHead := t;
      dying := [t] + dying;
    }

    /** Move the first terminating thread to the list of the dead. */
    method Retire() returns (t: nat)
      requires Valid() && dying != []
      modifies this
      ensures Valid() && t == old(dying)[0] && dying == old(dying)[1..] && dead == [t] + old(dead)
    {
      t := dyingHead;
      ChainPopFront(reapNext, dyingHead, dying);
      assert dying == [t] + dying[1..] && t in dying;
      dyingHead := reapNext[t];
      dying := dying[1..];
      ChainPushFront(reapNext, deadHead, dead, t);
      ChainFresh(reapNext, dyingHead, dying, t, deadHead);
      reapNext := reapNext[t := deadHead];
      deadHead := t;
      dead := [t] + dead;
    }

    method Reap() returns (t: nat)
      requires Valid() && dead != []
      modifies this
      ensures Valid() && t == old(dead)[0] && dead == old(dead)[1..] && dying == old(dying)
    {
      t := deadHead;
      ChainPopFront(reapNext, deadHead, dead);
      assert dead == [t] + dead[1..];
      deadHead := reapNext[t];
      dead := dead[1..];
    }
  }

  class Scheduler {
    const queues: Queues
    const reaper: Reaper
    var state: map<nat, S.TState>
    var wakeTick: map<nat, nat>
    var current: nat
    var idle: nat
    var tick: nat
    var nextId: nat

    ghost function View(): S.Sched
      reads this, queues, reaper
    {
      S.Sched(state, wakeTick, queues.ready, queues.asleep, current, idle, tick, reaper.dying, reaper.dead)
    }

    ghost predicate Valid()
      reads this, queues, reaper
    {
      && S.Inv(View()) && queues.Valid() && reaper.Valid()
      && 0 < nextId && forall t :: t in state ==> t < nextId
    }

    /** A scheduler that knows only its idle thread. */
    constructor ()
      ensures Valid() && View() == S.Sched(map[1 := S.Runnable], map[1 := 0], [], [], NULL, 1, 0, [], [])
    {
      hide S.Inv, Queues.Valid, Reaper.Valid;
      queues := new Queues();
      reaper := new Reaper();
      state, wakeTick, current, idle, tick, nextId := map[1 := S.Runnable], map[1 := 0], NULL, 1, 0, 2;
      new;
      S.InitialInv(1);
    }

    /** A thread starts its life suspended. */
    method Create() returns (t: nat)
      requires Valid()
      modifies this, queues
      ensures Valid() && S.Enabled(old(View()), S.Create(t)) && View() == S.Created(old(View()), t)
      ensures t !in old(state) && state == old(state)[t := S.Ready] && t !in queues.ready && t !in queues.asleep
      ensures t == old(nextId) && nextId == t + 1 && t in queues.next && queues.next[t] == NULL
    {
      hide S.Inv, Queues.Valid, Reaper.Valid;
      t := nextId;
      S.CreateInv(View(), t);
      S.NotQueued(View(), t);
      queues.Zero(t);
      state, wakeTick, nextId := state[t := S.Ready], wakeTick[t := 0], nextId + 1;
    }

    method Start(t: nat) returns (ok: bool)
      requires Valid()
      modifies this, queues
      ensures Valid() && (ok <==> S.Enabled(old(View()), S.Start(t)))
      ensures View() == if ok then S.Started(old(View()), t) else old(View())
      ensures ok <==> t in old(state) && t != idle && old(state)[t] == S.Ready
      ensures ok ==> state == old(state)[t := S.Runnable] && queues.ready == old(queues.ready) + [t]
      ensures current == old(current) && queues.asleep == old(queues.asleep)
    {
      hide S.Inv, Queues.Valid, Reaper.Valid;
      if t !in state || t == idle || state[t] != S.Ready {
        return false;
      }
      S.StartInv(View(), t);
      S.NotQueued(View(), t);
      state := state[t := S.Runnable];
      queues.Push(t);
      return true;
    }

    method Wake(t: nat) returns (ok: bool)
      requires Valid()
      modifies this, queues
      ensures Valid() && (ok <==> S.Enabled(old(View()), S.Wake(t)))
      ensures View() == if ok then S.Woken(old(View()), t) else old(View())
      ensures ok <==> t in old(state) && t != idle && old(state)[t] == S.Blocked
      ensures ok ==> state == old(state)[t := S.Runnable] && queues.ready == old(queues.ready) + [t]
      ensures current == old(current)
      ensures queues.asleep == if ok then Without(old(queues.asleep), t) else old(queues.asleep)
    {
      hide S.Inv, Queues.Valid, Reaper.Valid, Without;
      if t !in state || t == idle || state[t] != S.Blocked {
        return false;
      }
      S.WakeInv(View(), t);
      S.NotQueued(View(), t);
      queues.Unsleep(t);
      state := state[t := S.Runnable];
      queues.Push(t);
      return true;
    }

    /** Free a thread that was never started. */
    method Discard(t: nat) returns (ok: bool)
      requires Valid()
      modifies this
      ensures Valid() && (ok <==> S.Enabled(old(View()), S.Discard(t)))
      ensures View() == if ok then S.Discarded(old(View()), t) else old(View())
      ensures ok <==> t in old(state) && old(state)[t] == S.Ready
      ensures state == if ok then old(state) - {t} else old(state)
    {
      hide S.Inv, Queues.Valid, Reaper.Valid;
      if t !in state || state[t] != S.Ready {
        return false;
      }
      S.DiscardInv(View(), t);
      state, wakeTick := state - {t}, wakeTick - {t};
      return true;
    }

    /** Run the head of the ready queue, or idle. */
    method Dispatch()
      requires queues.Valid() && S.NobodyRuns(View())
      modifies this`state, this`current, queues
      ensures queues.Valid() && View() == S.Dispatch(old(View())) && S.Inv(View()) && state.Keys == old(state.Keys)
    {
      hide S.Inv, S.Queues, Queues.Valid;
      S.DispatchInv(View());
      assert NULL !in queues.ready by {
        NeverNull(View());
      }
      var t := queues.Pop();
      if t == NULL {
        t := idle;
      }
      // the kernel halts here if the chosen thread is not runnable; it always is
      assert t in state && state[t] == S.Runnable;
      state := state[t := S.Running];
      current := t;
    }

    /** The first dispatch, before which no thread runs. */
    method Begin()
      requires Valid() && current == NULL
      modifies this`state, this`current, queues
      ensures Valid() && View() == S.Dispatch(old(View()))
    {
      hide S.Dispatch, Queues.Valid, Reaper.Valid;
      Dispatch();
    }

    /** Leave the current thread for the next: if it was still running it goes to the back of the queue. */
    method Switch()
      requires queues.Valid() && current in state
      requires if state[current] == S.Running then S.Inv(View()) && current != NULL else S.NobodyRuns(View())
      modifies this`state, this`current, queues
      ensures queues.Valid() && View() == S.Switch(old(View())) && S.Inv(View()) && state.Keys == old(state.Keys)
    {
      hide S.Inv, S.Dispatch, Queues.Valid;
      if state[current] == S.Running {
        S.PreemptInv(View());
        S.NotQueued(View(), current);
        state := state[current := S.Runnable];
        if current != idle {
          queues.Push(current);
        }
      }
      Dispatch();
    }

    method OnYield()
      requires Valid() && current != NULL
      modifies this`state, this`current, queues
      ensures Valid() && View() == S.Switch(old(View()))
    {
      hide S.Switch, Queues.Valid, Reaper.Valid, S.NobodyRuns;
      Switch();
    }

    /** The current thread sleeps for `ticks` ticks; idle never does. */
    method SleepCurrent(ticks: nat) returns (ok: bool)
      requires Valid() && current != NULL && ticks < S.WORD
      modifies this`state, this`wakeTick, this`current, queues
      ensures Valid() && (ok <==> S.Enabled(old(View()), S.Sleep(ticks)))
      ensures View() == if ok then S.Switch(S.FellAsleep(old(View()), ticks)) else old(View())
      ensures ok <==> old(current) != idle && ticks != 0
      ensures ok ==> old(current) in state && state[old(current)] == S.Blocked && current != old(current)
      ensures ok ==> queues.asleep == [old(current)] + old(queues.asleep)
      ensures ok ==> wakeTick == old(wakeTick)[old(current) := (old(tick) + ticks) % S.WORD]
    {
      hide S.Inv, S.Switch, Queues.Valid, Reaper.Valid, S.NobodyRuns;
      if current == idle || ticks == 0 {
        return false;
      }
      S.CurrentRuns(View());
      S.NotQueued(View(), current);
      S.AsleepNobodyRuns(View(), ticks);
      state := state[current := S.Blocked];
      wakeTick := wakeTick[current := (tick + ticks) % S.WORD];
      queues.PushSleeper(current);
      S.SwitchLeaves(View(), current);
      Switch();
      S.NotRunning(View(), old(current));
      return true;
    }

    method BlockCurrent() returns (ok: bool)
      requires Valid() && current != NULL
      modifies this`state, this`current, queues
      ensures Valid() && (ok <==> S.Enabled(old(View()), S.Block))
      ensures View() == if ok then S.Switch(S.GotBlocked(old(View()))) else old(View())
      ensures ok <==> old(current) != idle
      ensures ok ==> old(current) in state && state[old(current)] == S.Blocked && current != old(current)
      ensures queues.asleep == old(queues.asleep)
    {
      hide S.Inv, S.Switch, Queues.Valid, Reaper.Valid, S.NobodyRuns;
      if current == idle {
        return false;
      }
      S.CurrentRuns(View());
      S.BlockedNobodyRuns(View());
      state := state[current := S.Blocked];
      S.NotQueued(old(View()), current);
      S.SwitchLeaves(View(), current);
      Switch();
      S.NotRunning(View(), old(current));
      return true;
    }

    /** The current thread ends: it waits for the reaper and never runs again. */
    method ExitCurrent()
      requires Valid() && S.Enabled(View(), S.Exit)
      modifies this`state, this`current, queues, reaper
      ensures Valid() && View() == S.Switch(S.Exiting(old(View())))
      ensures old(current) in state && state[old(current)] == S.Terminating && current != old(current)
      ensures reaper.dying == [old(current)] + old(reaper.dying)
    {
      hide S.Inv, S.Switch, Queues.Valid, Reaper.Valid, S.NobodyRuns;
      S.CurrentRuns(View());
      S.NotQueued(View(), current);
      S.ExitingNobodyRuns(View());
      state := state[current := S.Terminating];
      reaper.PushDying(current);
      S.SwitchLeaves(View(), current);
      Switch();
      S.NotRunning(View(), old(current));
    }

    /** One terminating thread becomes dead. */
    method Retire()
      requires Valid() && reaper.dying != []
      modifies this`state, reaper
      ensures Valid() && View() == S.Retired(old(View()))
      ensures state == old(state)[old(reaper.dying)[0] := S.Dead] && reaper.dying == old(reaper.dying)[1..]
      ensures reaper.dead == [old(reaper.dying)[0]] + old(reaper.dead)
    {
      hide S.Inv, Queues.Valid, Reaper.Valid;
      S.RetireInv(View());
      S.FirstDying(View());
      var t := reaper.Retire();
      // the kernel halts here if the thread is not terminating; it always is
      assert state[t] == S.Terminating;
      state := state[t := S.Dead];
    }

    /** One dead thread is freed. */
    method Reap()
      requires Valid() && reaper.dead != []
      modifies this`state, this`wakeTick, reaper
      ensures Valid() && View() == S.Reaped(old(View()))
      ensures state == old(state) - {old(reaper.dead)[0]} && reaper.dead == old(reaper.dead)[1..]
    {
      hide S.Inv, Queues.Valid, Reaper.Valid;
      S.ReapInv(View());
      var t := reaper.Reap();
      state, wakeTick := state - {t}, wakeTick - {t};
    }

    /**
      One turn of a pass, under its own critical section: an iteration of the loop
      the reaper is in, or the end of that loop. Others may come in between.
     */
    method ReapTurn(phase: S.Phase) returns (next: S.Phase)
      requires Valid() && phase != S.Resting
      modifies this`state, this`wakeTick, reaper
      ensures Valid()
      ensures var k := S.Kernel(old(View()), phase); S.Kernel(View(), next) == S.Moved(k, S.Turn(k))
    {
      hide Valid, View, S.Inv, S.Reaped, S.Retired;
      Invariant();
      next := phase;
      if phase == S.FirstLoop {
        if reaper.deadHead != NULL {
          Reap();
        } else {
          next := S.SecondLoop;
        }
      } else if reaper.dyingHead != NULL {
        Retire();
      } else {
        next := S.Resting;
      }
    }

    /** A pass that nobody interrupts: frees every dead thread, then declares every terminating one dead. */
    method ReapPass()
      requires Valid()
      modifies this`state, this`wakeTick, reaper
      ensures Valid() && S.Passed(old(View()), View())
    {
      hide Valid, View, S.Passed, S.Retiring, S.Freeing;
      ghost var s := View();
      Invariant();
      FreeAll();
      S.RetiringStart(s, View());
      RetireAll(s);
      S.RetiringEnd(s, View());
    }

    lemma Invariant()
      requires Valid()
      ensures S.Inv(View()) && View().dead == reaper.dead && View().dying == reaper.dying
      ensures (reaper.deadHead == NULL <==> reaper.dead == []) && (reaper.dyingHead == NULL <==> reaper.dying == [])
    {
      hide S.Inv, Queues.Valid;
    }

    method FreeAll()
      requires Valid()
      modifies this`state, this`wakeTick, reaper
      ensures Valid() && S.Freeing(old(View()), View(), |old(View()).dead|)
    {
      hide Valid, View, S.Inv, S.Freeing, S.Reaped;
      ghost var s, k := View(), 0;
      Invariant();
      S.PassStart(s);
      while reaper.deadHead != NULL
        modifies this`state, this`wakeTick, reaper
        invariant Valid() && k <= |s.dead| && View().dead == s.dead[k..] && S.Freeing(s, View(), k)
        invariant reaper.deadHead == NULL <==> k == |s.dead|
        decreases |s.dead| - k
      {
        Invariant();
        S.FreeingNext(s, View(), k);
        Reap();
        k := k + 1;
        Invariant();
        S.FreeingLists(s, View(), k);
      }
    }

    method RetireAll(ghost s: S.Sched)
      requires Valid() && S.Inv(s) && S.Retiring(s, View(), 0)
      modifies this`state, reaper
      ensures Valid() && S.Retiring(s, View(), |s.dying|)
    {
      hide Valid, View, S.Inv, S.Retiring, S.Retired;
      ghost var k := 0;
      Invariant();
      S.RetiringLists(s, View(), 0);
      while reaper.dyingHead != NULL
        modifies this`state, reaper
        invariant Valid() && k <= |s.dying| && View().dying == s.dying[k..] && S.Retiring(s, View(), k)
        invariant reaper.dyingHead == NULL <==> k == |s.dying|
        decreases |s.dying| - k
      {
        Invariant();
        S.RetiringNext(s, View(), k);
        Retire();
        k := k + 1;
        Invariant();
        S.RetiringLists(s, View(), k);
      }
    }

    /** Move every sleeper whose deadline has come to the ready queue, in list order. */
    method WakeExpired()
      requires queues.Valid() && S.Inv(View())
      modifies this`state, queues
      ensures queues.Valid() && View() == S.WakeExpired(old(View())) && state.Keys == old(state.Keys)
    {
      hide S.Inv, Queues.Valid, Swept, Cut, S.WakeExpired, Kept;
      ghost var v := View();
      ghost var done, rest: seq<nat> := [], queues.asleep;
      SweepStarts(v);
      var prev := NULL;
      var t := queues.Sleeper(prev, 0);
      while t != NULL
        invariant queues.Valid() && v.asleep == done + rest && View() == Swept(v, done, rest)
        invariant state.Keys == v.state.Keys
        invariant prev == (if Kept(v, done) == [] then NULL else Kept(v, done)[|Kept(v, done)| - 1])
        invariant t == (if rest == [] then NULL else rest[0])
        decreases |rest|
      {
        ghost var k := |Kept(v, done)|;
        SweepAt(v, done, rest);
        SweepStep(v, done, rest);
        if !S.Expired(tick, wakeTick[t]) {
          prev := t;
        } else {
          queues.UnlinkSleeper(prev, t, k);
          // the kernel halts here if a sleeper is not blocked; it always is
          assert state[t] == S.Blocked;
          state := state[t := S.Runnable];
          queues.Push(t);
        }
        done, rest := done + [t], rest[1..];
        SweepNext(v, done, rest);
        t := queues.Sleeper(prev, |Kept(v, done)|);
      }
      SweepNext(v, done, rest);
      SweepEnds(v, done, rest);
    }

    /** A timer tick: wake those who are due, then switch. */
    method OnTick()
      requires Valid() && current != NULL
      modifies this`state, this`current, this`tick, queues
      ensures Valid() && View() == S.Ticked(old(View()))
    {
      hide S.Inv, S.Switch, S.WakeExpired, Queues.Valid, Reaper.Valid, S.NobodyRuns;
      ghost var v := View();
      S.TickKeepsInv(v);
      tick := (tick + 1) % S.WORD;
      assert View() == v.(tick := tick);
      S.WakeExpiredInv(View());
      S.WakeExpiredCurrent(View());
      WakeExpired();
      S.CurrentRuns(View());
      Switch();
    }
  }

  // ----- one sweep over the sleep list

  /** The sleepers passed so far that stay on the list. */
  ghost function Kept(v: S.Sched, done: seq<nat>): seq<nat> {
    S.Sleepers(done, v.wake, v.tick, false)
  }

  /** What the state is when the sleepers `done` have been dealt with and `rest` have not. */
  ghost function Swept(v: S.Sched, done: seq<nat>, rest: seq<nat>): S.Sched {
    S.MakeRunnable(v.(asleep := Kept(v, done) + rest), S.Sleepers(done, v.wake, v.tick, true))
  }

  lemma SweepStarts(v: S.Sched)
    requires S.Inv(v)
    ensures Swept(v, [], v.asleep) == v && Kept(v, []) == [] && [] + v.asleep == v.asleep
    ensures v.asleep == [] || v.asleep[0] != NULL
  {
    assert v.ready + [] == v.ready && [] + v.asleep == v.asleep;
    S.SleepersKnown(v);
    assert v.asleep != [] ==> v.asleep[0] in v.asleep;
  }

  lemma SweepEnds(v: S.Sched, done: seq<nat>, rest: seq<nat>)
    requires v.asleep == done + rest && rest == []
    ensures Swept(v, done, rest) == S.WakeExpired(v)
  {
    assert done + [] == done && Kept(v, done) + [] == Kept(v, done);
  }

  lemma SweepNext(v: S.Sched, done: seq<nat>, rest: seq<nat>)
    requires S.Inv(v) && v.asleep == done + rest
    ensures rest != [] ==> rest[0] != NULL
    ensures Swept(v, done, rest).asleep == Kept(v, done) + rest
  {
    S.SleepersKnown(v);
    assert rest != [] ==> rest[0] in v.asleep;
  }

  /** The next sleeper: where it is on the list, and that it is on no other. */
  lemma SweepAt(v: S.Sched, done: seq<nat>, rest: seq<nat>)
    requires S.Inv(v) && v.asleep == done + rest && rest != []
    ensures var w, k, t := Swept(v, done, rest), |Kept(v, done)|, rest[0];
            && w.asleep == Kept(v, done) + rest && k < |w.asleep| && w.asleep[k] == t
            && w.wake == v.wake && w.tick == v.tick
            && t != NULL && t in w.wake && t in w.state && w.state[t] == S.Blocked && t !in w.ready
            && t !in Cut(w.asleep, k)
  {
    hide S.Sleepers, Cut;
    var t := rest[0];
    assert t in v.asleep;
    S.SleepersKnown(v);
    S.StillBlocked(v, done, rest, v.wake, v.tick);
    NotKept(v.asleep, done, rest, v.wake, v.tick);
    assert Kept(v, done) + rest == Kept(v, done) + [t] + rest[1..];
    CutMiddle(Kept(v, done), t, rest[1..]);
  }

  /** Dealing with the next sleeper. */
  lemma SweepStep(v: S.Sched, done: seq<nat>, rest: seq<nat>)
    requires S.Inv(v) && v.asleep == done + rest && rest != []
    ensures var w, k, t := Swept(v, done, rest), |Kept(v, done)|, rest[0];
            && k < |w.asleep| && t in v.wake && v.asleep == (done + [t]) + rest[1..]
            && Kept(v, done + [t]) == (if S.Expired(v.tick, v.wake[t]) then Kept(v, done) else Kept(v, done) + [t])
            && Swept(v, done + [t], rest[1..]) ==
               if S.Expired(v.tick, v.wake[t])
               then w.(asleep := Cut(w.asleep, k), state := w.state[t := S.Runnable], ready := w.ready + [t]) else w
  {
    hide S.Sleepers, Cut;
    var t := rest[0];
    SweepAt(v, done, rest);
    assert rest == [t] + rest[1..];
    SleepersSnoc(done, t, v.wake, v.tick, false);
    SleepersSnoc(done, t, v.wake, v.tick, true);
    var kept, woken := Kept(v, done), S.Sleepers(done, v.wake, v.tick, true);
    assert kept + rest == kept + [t] + rest[1..];
    if S.Expired(v.tick, v.wake[t]) {
      CutMiddle(kept, t, rest[1..]);
      S.OneMoreRunnable(v.(asleep := kept + rest[1..]), woken, t);
    }
  }

  lemma CutMiddle(a: seq<nat>, t: nat, b: seq<nat>)
    ensures Cut(a + [t] + b, |a|) == a + b
  {
    var l := a + [t] + b;
    assert l[..|a|] == a && l[|a| + 1..] == b;
  }

  /** A sleeper met for the first time is not among those already passed. */
  lemma NotKept(asleep: seq<nat>, done: seq<nat>, rest: seq<nat>, wake: map<nat, nat>, tick: nat)
    requires Distinct(asleep) && asleep == done + rest && rest != [] && forall t :: t in asleep ==> t in wake
    ensures rest[0] !in S.Sleepers(done, wake, tick, true) && rest[0] !in S.Sleepers(done, wake, tick, false)
    ensures rest[0] !in rest[1..]
  {
    forall i, j | 0 <= i < j < |done|
      ensures done[i] != done[j]
    {
      assert asleep[i] != asleep[j];
    }
    forall i | 0 <= i < |done|
      ensures done[i] in asleep && done[i] != rest[0]
    {
      assert asleep[i] != asleep[|done|];
    }
    forall i | 1 <= i < |rest|
      ensures rest[i] != rest[0]
    {
      assert asleep[|done| + i] != asleep[|done|];
    }
    S.SleepersOf(done, wake, tick, true);
    S.SleepersOf(done, wake, tick, false);
  }

  lemma NeverNull(s: S.Sched)
    requires S.NobodyRuns(s)
    ensures NULL !in s.ready
  {
  }

  lemma {:induction false} WithoutAbsent(list: seq<nat>, t: nat)
    requires t !in list
    ensures Without(list, t) == list
  {
    if list != [] {
      assert list[0] in list;
      WithoutAbsent(list[1..], t);
      assert list == [list[0]] + list[1..];
    }
  }
}
