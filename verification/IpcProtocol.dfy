/**
  Any number of senders, receivers and one destroyer on one endpoint, as a step
  system: every block run under a lock is one step, and so is every completed
  semaphore wait and every semaphore post. The endpoint exists from its creation,
  which is the initial state, until the step that frees it.
 */
module IpcProtocol {
  import opened Endpoint

  /** Where an operation that holds a reference to the endpoint stands. */
  datatype Pc =
    | Sending(message: Message, woken: bool)
    | SendWait(message: Message)
    | SendingNow(message: Message)
    | Receiving(woken: bool)
    | RecvWait
    | ReceivingNow
    | Inspecting
    | Leaving

  /** The one destroyer an endpoint can have: it owns the reference that was the registry's. */
  datatype Destroyer = Registered | Posting(senders: nat, receivers: nat) | Gone

  datatype State = State(
    shared: Shared,
    ops: map<nat, Pc>,
    destroyer: Destroyer,
    freeing: bool,
    frees: nat,
    accepted: seq<Message>,
    received: seq<Message>)

  const INITIAL := State(Shared([], 0, 0, 0, 0, 1, false), map[], Registered, false, 0, [], [])

  datatype Step =
    | Begin(op: nat, pc: Pc)
    | Run(op: nat)
    | Wake(op: nat)
    | Release(op: nat)
    | Close
    | Post
    | DestroyerRelease
    | Free

  predicate Starting(pc: Pc) {
    match pc
    case Sending(_, woken) => !woken
    case Receiving(woken) => !woken
    case SendingNow(_) => true
    case ReceivingNow => true
    case Inspecting => true
    case _ => false
  }

  predicate Enabled(s: State, step: Step) {
    match step
    case Begin(o, pc) => s.destroyer.Registered? && o !in s.ops && Starting(pc)
    case Run(o) =>
      o in s.ops && !(s.ops[o].SendWait? || s.ops[o].RecvWait? || s.ops[o].Leaving?)
    case Wake(o) =>
      o in s.ops && ((s.ops[o].SendWait? && s.shared.senderSem > 0) || (s.ops[o].RecvWait? && s.shared.receiverSem > 0))
    case Release(o) => o in s.ops && s.ops[o].Leaving? && s.shared.references > 0
    case Close => s.destroyer.Registered?
    case Post => s.destroyer.Posting? && s.destroyer.senders + s.destroyer.receivers > 0
    case DestroyerRelease => s.destroyer == Posting(0, 0) && s.shared.references > 0
    case Free => s.freeing
  }

  /** Dropping a reference: whoever drops the last one of a closed endpoint goes on to free it. */
  function Drop(s: State): State
    requires s.shared.references > 0
  {
    var r := s.shared.references - 1;
    s.(shared := s.shared.(references := r), freeing := s.freeing || (s.shared.shuttingDown && r == 0))
  }

  /** The locked block of operation `o`. */
  function RunBlock(s: State, o: nat): State
    requires Enabled(s, Run(o))
  {
    match s.ops[o]
    case Sending(m, _) =>
      var (sh, out) := SendBlock(s.shared, m, true);
      s.(shared := sh, ops := s.ops[o := if out.MustWait? then SendWait(m) else Leaving],
         accepted := if out.Done? then s.accepted + [m] else s.accepted)
    case SendingNow(m) =>
      var (sh, out) := SendBlock(s.shared, m, false);
      s.(shared := sh, ops := s.ops[o := Leaving],
         accepted := if out.Done? then s.accepted + [m] else s.accepted)
    case Receiving(_) =>
      var (sh, out) := RecvBlock(s.shared, true);
      s.(shared := sh, ops := s.ops[o := if out.MustWait? then RecvWait else Leaving],
         received := if out.Received? then s.received + [out.message] else s.received)
    case ReceivingNow =>
      var (sh, out) := RecvBlock(s.shared, false);
      s.(shared := sh, ops := s.ops[o := Leaving],
         received := if out.Received? then s.received + [out.message] else s.received)
    case Inspecting =>
      s.(ops := s.ops[o := Leaving])
  }

  function Next(s: State, step: Step): State
    requires Enabled(s, step)
  {
    match step
    case Begin(o, pc) => s.(shared := s.shared.(references := s.shared.references + 1), ops := s.ops[o := pc])
    case Run(o) => RunBlock(s, o)
    case Wake(o) =>
      if s.ops[o].SendWait?
      then s.(shared := s.shared.(senderSem := s.shared.senderSem - 1),
              ops := s.ops[o := Sending(s.ops[o].message, true)])
      else s.(shared := s.shared.(receiverSem := s.shared.receiverSem - 1), ops := s.ops[o := Receiving(true)])
    case Release(o) => Drop(s).(ops := s.ops - {o})
    case Close =>
      s.(shared := CloseBlock(s.shared), destroyer := Posting(s.shared.waitingSenders, s.shared.waitingReceivers))
    case Post =>
      if s.destroyer.senders > 0
      then s.(shared := s.shared.(senderSem := s.shared.senderSem + 1),
              destroyer := Posting(s.destroyer.senders - 1, s.destroyer.receivers))
      else s.(shared := s.shared.(receiverSem := s.shared.receiverSem + 1),
              destroyer := Posting(0, s.destroyer.receivers - 1))
    case DestroyerRelease => Drop(s).(destroyer := Gone)
    case Free => s.(freeing := false, frees := s.frees + 1)
  }

  // ----- what an operation gets

  /** The operation is about to run a receive, of either kind. */
  predicate Receives(s: State, o: nat) {
    o in s.ops && (s.ops[o].Receiving? || s.ops[o].ReceivingNow?)
  }

  /** The operation is about to run a send of this message, of either kind. */
  predicate Sends(s: State, o: nat, m: Message) {
    o in s.ops && ((s.ops[o].Sending? && s.ops[o].message == m) || (s.ops[o].SendingNow? && s.ops[o].message == m))
  }

  /**
    A receive takes the oldest message if the endpoint is open and holds one,
    whether it would wait or not, and is over; if not, nothing is received, and only
    one that would wait, at an open endpoint, waits.
   */
  lemma ReceiveTakesOldest(s: State, o: nat)
    requires Receives(s, o)
    ensures Enabled(s, Run(o))
    ensures var s', q := Next(s, Run(o)), s.shared.queue;
            && s'.accepted == s.accepted && s'.shared.shuttingDown == s.shared.shuttingDown
            && (!s.shared.shuttingDown && q != [] ==>
                 s'.received == s.received + [q[0]] && s'.shared.queue == q[1..] && s'.ops == s.ops[o := Leaving])
            && (s.shared.shuttingDown || q == [] ==> s'.received == s.received && s'.shared.queue == q)
            && (s'.ops == s.ops[o := RecvWait] || s'.ops == s.ops[o := Leaving])
            && (s'.ops[o] == RecvWait <==> s.ops[o].Receiving? && !s.shared.shuttingDown && q == [])
  {
  }

  /** A send is accepted if the endpoint is open and has room, whether it would wait or not. */
  lemma SendTakesRoom(s: State, o: nat, m: Message)
    requires Sends(s, o, m)
    ensures Enabled(s, Run(o))
    ensures var s', q := Next(s, Run(o)), s.shared.queue;
            && s'.received == s.received && s'.shared.shuttingDown == s.shared.shuttingDown
            && (!s.shared.shuttingDown && |q| < CAPACITY ==>
                 s'.accepted == s.accepted + [m] && s'.shared.queue == q + [m] && s'.ops == s.ops[o := Leaving])
            && (s.shared.shuttingDown || |q| >= CAPACITY ==> s'.accepted == s.accepted && s'.shared.queue == q)
            && (s'.ops == s.ops[o := SendWait(m)] || s'.ops == s.ops[o := Leaving])
            && (s'.ops[o] == SendWait(m) <==> s.ops[o].Sending? && !s.shared.shuttingDown && |q| >= CAPACITY)
  {
  }

  // ----- counting operations by where they stand

  datatype Kind = Plain | SenderWaits | SenderWoken | ReceiverWaits | ReceiverWoken | Departing

  function KindOf(pc: Pc): Kind {
    match pc
    case Sending(_, woken) => if woken then SenderWoken else Plain
    case SendWait(_) => SenderWaits
    case Receiving(woken) => if woken then ReceiverWoken else Plain
    case RecvWait => ReceiverWaits
    case Leaving => Departing
    case _ => Plain
  }

  ghost function Of(ops: map<nat, Pc>, k: Kind): set<nat> {
    set o | o in ops && KindOf(ops[o]) == k
  }

  ghost function Count(ops: map<nat, Pc>, k: Kind): nat {
    |Of(ops, k)|
  }

  lemma CountAdd(ops: map<nat, Pc>, o: nat, pc: Pc, k: Kind)
    requires o !in ops
    ensures Count(ops[o := pc], k) == Count(ops, k) + (if KindOf(pc) == k then 1 else 0)
  {
    assert Of(ops[o := pc], k) == if KindOf(pc) == k then Of(ops, k) + {o} else Of(ops, k);
  }

  lemma CountDrop(ops: map<nat, Pc>, o: nat, k: Kind)
    requires o in ops
    ensures Count(ops - {o}, k) == Count(ops, k) - (if KindOf(ops[o]) == k then 1 else 0)
  {
    CountAdd(ops - {o}, o, ops[o], k);
    assert (ops - {o})[o := ops[o]] == ops;
  }

  lemma CountMove(ops: map<nat, Pc>, o: nat, pc: Pc)
    requires o in ops
    ensures forall k :: Count(ops[o := pc], k) ==
                        Count(ops, k) - (if KindOf(ops[o]) == k then 1 else 0) + (if KindOf(pc) == k then 1 else 0)
    ensures |ops[o := pc]| == |ops|
  {
    forall k
      ensures Count(ops[o := pc], k) ==
              Count(ops, k) - (if KindOf(ops[o]) == k then 1 else 0) + (if KindOf(pc) == k then 1 else 0)
    {
      CountDrop(ops, o, k);
      CountAdd(ops - {o}, o, pc, k);
      assert (ops - {o})[o := pc] == ops[o := pc];
    }
    assert ops[o := pc].Keys == ops.Keys;
  }

  // ----- the invariant

  ghost function OwedSenders(s: State): nat {
    if s.destroyer.Posting? then s.destroyer.senders else 0
  }

  ghost function OwedReceivers(s: State): nat {
    if s.destroyer.Posting? then s.destroyer.receivers else 0
  }

  /** Accepted messages are the received ones followed by the queue. */
  ghost predicate Fifo(s: State) {
    |s.shared.queue| <= CAPACITY && s.accepted == s.received + s.shared.queue
  }

  /** Every waiter is accounted for: registered, given a token, or owed one by the destroyer. */
  ghost predicate Tokens(s: State) {
    && Count(s.ops, SenderWaits) == s.shared.waitingSenders + s.shared.senderSem + OwedSenders(s)
    && Count(s.ops, ReceiverWaits) == s.shared.waitingReceivers + s.shared.receiverSem + OwedReceivers(s)
    && (s.shared.shuttingDown ==> s.shared.waitingSenders == 0 && s.shared.waitingReceivers == 0)
  }

  /** While a waiter has no token, tokens and woken operations cover all the room (or messages) there is. */
  ghost predicate NoneForgotten(s: State) {
    && (s.shared.waitingSenders > 0 ==>
        CAPACITY - |s.shared.queue| <= s.shared.senderSem + Count(s.ops, SenderWoken))
    && (s.shared.waitingReceivers > 0 ==>
        |s.shared.queue| <= s.shared.receiverSem + Count(s.ops, ReceiverWoken))
  }

  /** References are the registry's or destroyer's one and one per operation; the last one out frees, once. */
  ghost predicate Lifetime(s: State) {
    && (s.destroyer.Registered? <==> !s.shared.shuttingDown)
    && s.shared.references == (if s.destroyer.Gone? then 0 else 1) + |s.ops|
    && s.frees + (if s.freeing then 1 else 0) == (if s.shared.references == 0 then 1 else 0)
  }

  ghost predicate Inv(s: State) {
    Fifo(s) && Tokens(s) && NoneForgotten(s) && Lifetime(s)
  }

  lemma InitialInv()
    ensures Inv(INITIAL)
  {
    assert forall k :: Of(INITIAL.ops, k) == {};
  }

  lemma BeginInv(s: State, o: nat, pc: Pc)
    requires Inv(s) && Enabled(s, Begin(o, pc))
    ensures Inv(Next(s, Begin(o, pc)))
  {
    forall k
      ensures Count(s.ops[o := pc], k) == Count(s.ops, k) + (if KindOf(pc) == k then 1 else 0)
    {
      CountAdd(s.ops, o, pc, k);
    }
    assert s.ops[o := pc].Keys == s.ops.Keys + {o};
  }

  lemma RunSendInv(s: State, o: nat)
    requires Inv(s) && Enabled(s, Run(o)) && (s.ops[o].Sending? || s.ops[o].SendingNow?)
    ensures Inv(RunBlock(s, o))
  {
    hide Count;
    CountMove(s.ops, o, RunBlock(s, o).ops[o]);
    assert s.received + s.shared.queue + [s.ops[o].message] == s.received + (s.shared.queue + [s.ops[o].message]);
  }

  lemma RunRecvInv(s: State, o: nat)
    requires Inv(s) && Enabled(s, Run(o)) && (s.ops[o].Receiving? || s.ops[o].ReceivingNow?)
    ensures Inv(RunBlock(s, o))
  {
    hide Count;
    CountMove(s.ops, o, RunBlock(s, o).ops[o]);
    if s.shared.queue != [] {
      assert s.received + s.shared.queue == s.received + [s.shared.queue[0]] + s.shared.queue[1..];
    }
  }

  lemma RunInv(s: State, o: nat)
    requires Inv(s) && Enabled(s, Run(o))
    ensures Inv(Next(s, Run(o)))
  {
    hide Count;
    match s.ops[o]
    case Sending(_, _) => RunSendInv(s, o);
    case SendingNow(_) => RunSendInv(s, o);
    case Receiving(_) => RunRecvInv(s, o);
    case ReceivingNow => RunRecvInv(s, o);
    case _ => CountMove(s.ops, o, Leaving);
  }

  lemma WakeInv(s: State, o: nat)
    requires Inv(s) && Enabled(s, Wake(o))
    ensures Inv(Next(s, Wake(o)))
  {
    CountMove(s.ops, o, Next(s, Wake(o)).ops[o]);
  }

  lemma ReleaseInv(s: State, o: nat)
    requires Inv(s) && Enabled(s, Release(o))
    ensures Inv(Next(s, Release(o)))
  {
    forall k
      ensures Count(s.ops - {o}, k) == Count(s.ops, k) - (if KindOf(s.ops[o]) == k then 1 else 0)
    {
      CountDrop(s.ops, o, k);
    }
    assert (s.ops - {o}).Keys == s.ops.Keys - {o};
  }

  /** Every step keeps the invariant. */
  lemma StepInv(s: State, step: Step)
    requires Inv(s) && Enabled(s, step)
    ensures Inv(Next(s, step))
  {
    match step
    case Begin(o, pc) => BeginInv(s, o, pc);
    case Run(o) => RunInv(s, o);
    case Wake(o) => WakeInv(s, o);
    case Release(o) => ReleaseInv(s, o);
    case Close =>
    case Post =>
    case DestroyerRelease =>
    case Free =>
  }

  // ----- runs

  predicate IsRun(s: State, steps: seq<Step>)
    decreases |steps|
  {
    steps == [] || (Enabled(s, steps[0]) && IsRun(Next(s, steps[0]), steps[1..]))
  }

  function After(s: State, steps: seq<Step>): State
    requires IsRun(s, steps)
    decreases |steps|
  {
    if steps == [] then s else After(Next(s, steps[0]), steps[1..])
  }

  /** The invariant holds after every run, in any interleaving, of any number of operations. */
  lemma {:induction false} RunKeepsInv(s: State, steps: seq<Step>)
    requires Inv(s) && IsRun(s, steps)
    ensures Inv(After(s, steps))
    decreases |steps|
  {
    if steps != [] {
      StepInv(s, steps[0]);
      RunKeepsInv(Next(s, steps[0]), steps[1..]);
    }
  }

  /** A receive that finds a message at an open endpoint. */
  predicate Takes(s: State, step: Step) {
    step.Run? && Receives(s, step.op) && !s.shared.shuttingDown && s.shared.queue != []
  }

  /** The message of a send that finds room at an open endpoint. */
  function Puts(s: State, step: Step): seq<Message> {
    if step.Run? && step.op in s.ops && (s.ops[step.op].Sending? || s.ops[step.op].SendingNow?)
       && !s.shared.shuttingDown && |s.shared.queue| < CAPACITY
    then [s.ops[step.op].message] else []
  }

  /** A step receives the oldest message, accepts one, or does neither. */
  lemma StepDelivers(s: State, step: Step)
    requires Enabled(s, step)
    ensures |Next(s, step).received| == |s.received| + if Takes(s, step) then 1 else 0
    ensures Next(s, step).accepted == s.accepted + Puts(s, step)
  {
    if step.Run? {
      if Receives(s, step.op) {
        ReceiveTakesOldest(s, step.op);
      } else if !s.ops[step.op].Inspecting? {
        SendTakesRoom(s, step.op, s.ops[step.op].message);
      }
    }
  }

  ghost function TakeCount(s: State, steps: seq<Step>): nat
    requires IsRun(s, steps)
    decreases |steps|
  {
    if steps == [] then 0
    else (if Takes(s, steps[0]) then 1 else 0) + TakeCount(Next(s, steps[0]), steps[1..])
  }

  ghost function AllPuts(s: State, steps: seq<Step>): seq<Message>
    requires IsRun(s, steps)
    decreases |steps|
  {
    if steps == [] then [] else Puts(s, steps[0]) + AllPuts(Next(s, steps[0]), steps[1..])
  }

  lemma {:induction false} RunDelivers(s: State, steps: seq<Step>)
    requires IsRun(s, steps)
    ensures |After(s, steps).received| == |s.received| + TakeCount(s, steps)
    ensures After(s, steps).accepted == s.accepted + AllPuts(s, steps)
    decreases |steps|
  {
    hide Enabled, Next, Takes, Puts;
    if steps != [] {
      StepDelivers(s, steps[0]);
      RunDelivers(Next(s, steps[0]), steps[1..]);
    }
  }

  /**
    Over any run, of any number of operations in any order: what has been received
    is the beginning of what was accepted before and sent since, in that order, one
    message for each receive that found one; the rest is queued.
   */
  lemma DeliveredInOrder(s: State, steps: seq<Step>)
    requires Inv(s) && IsRun(s, steps)
    ensures var all, n := s.accepted + AllPuts(s, steps), |s.received| + TakeCount(s, steps);
            n <= |all| && After(s, steps).received == all[..n] && After(s, steps).shared.queue == all[n..]
  {
    hide IsRun, After, TakeCount, AllPuts, Tokens, NoneForgotten, Lifetime;
    RunKeepsInv(s, steps);
    RunDelivers(s, steps);
  }

  // ----- what the invariant means

  ghost predicate Reachable(s: State) {
    exists steps :: IsRun(INITIAL, steps) && After(INITIAL, steps) == s
  }

  lemma ReachableInv(s: State)
    requires Reachable(s)
    ensures Inv(s)
  {
    var steps :| IsRun(INITIAL, steps) && After(INITIAL, steps) == s;
    InitialInv();
    RunKeepsInv(INITIAL, steps);
  }

  /** Operation `o` is a sender that can take a step towards sending. */
  ghost predicate SenderCanGo(s: State, o: nat) {
    || (o in s.ops && s.ops[o].Sending? && s.ops[o].woken && Enabled(s, Run(o)))
    || (o in s.ops && s.ops[o].SendWait? && Enabled(s, Wake(o)))
  }

  ghost predicate ReceiverCanGo(s: State, o: nat) {
    || (o in s.ops && s.ops[o].Receiving? && s.ops[o].woken && Enabled(s, Run(o)))
    || (o in s.ops && s.ops[o].RecvWait? && Enabled(s, Wake(o)))
  }

  lemma Witness(ops: map<nat, Pc>, k: Kind) returns (o: nat)
    requires Count(ops, k) > 0
    ensures o in ops && KindOf(ops[o]) == k
  {
    o :| o in Of(ops, k);
  }

  /** No wakeup is lost: a blocked sender and room in the queue mean that some sender can go on. */
  lemma RoomWakesSender(s: State, blocked: nat)
    requires Reachable(s) && s.destroyer.Registered?
    requires blocked in s.ops && s.ops[blocked].SendWait? && |s.shared.queue| < CAPACITY
    ensures exists o :: SenderCanGo(s, o)
  {
    ReachableInv(s);
    assert blocked in Of(s.ops, SenderWaits);
    if s.shared.senderSem > 0 {
      assert SenderCanGo(s, blocked);
    } else {
      var o := Witness(s.ops, SenderWoken);
      assert SenderCanGo(s, o);
    }
  }

  /** Nor for receivers: a blocked receiver and a queued message mean that some receiver can go on. */
  lemma MessageWakesReceiver(s: State, blocked: nat)
    requires Reachable(s) && s.destroyer.Registered?
    requires blocked in s.ops && s.ops[blocked].RecvWait? && s.shared.queue != []
    ensures exists o :: ReceiverCanGo(s, o)
  {
    ReachableInv(s);
    assert blocked in Of(s.ops, ReceiverWaits);
    if s.shared.receiverSem > 0 {
      assert ReceiverCanGo(s, blocked);
    } else {
      var o := Witness(s.ops, ReceiverWoken);
      assert ReceiverCanGo(s, o);
    }
  }

  /**
    The endpoint is freed at most once, only after it was closed, and when it is
    freed or about to be no operation is left and none can begin.
   */
  lemma FreedOnceAndLast(s: State)
    requires Reachable(s)
    ensures s.frees <= 1 && (s.frees == 1 ==> !s.freeing)
    ensures s.frees == 1 || s.freeing ==> s.shared.shuttingDown && s.ops == map[] && s.destroyer.Gone?
    ensures s.frees == 1 ==> forall step :: !Enabled(s, step)
  {
    ReachableInv(s);
  }

  /** Every step that touches the endpoint finds it still allocated. */
  lemma NoUseAfterFree(s: State, step: Step)
    requires Reachable(s) && Enabled(s, step)
    ensures s.frees == 0
  {
    ReachableInv(s);
  }

  /** Once the destroyer has let go, every operation still waiting has a token of its own. */
  lemma DestroyWakesAll(s: State)
    requires Reachable(s) && s.destroyer.Gone?
    ensures s.shared.senderSem == Count(s.ops, SenderWaits) && s.shared.receiverSem == Count(s.ops, ReceiverWaits)
  {
    ReachableInv(s);
  }

  /** How many steps a closed endpoint has left at most. */
  ghost function Remaining(s: State): nat {
    OpsWork(s.ops)
    + (if s.destroyer.Posting? then s.destroyer.senders + s.destroyer.receivers + 1 else 0)
    + (if s.frees == 0 then 1 else 0)
  }

  /** Six counts, weighted: what each operation still has to do. */
  ghost function OpsWork(ops: map<nat, Pc>): nat {
    3 * Count(ops, SenderWaits) + 3 * Count(ops, ReceiverWaits)
    + 2 * Count(ops, Plain) + 2 * Count(ops, SenderWoken) + 2 * Count(ops, ReceiverWoken)
    + Count(ops, Departing)
  }

  function Work(pc: Pc): nat {
    match KindOf(pc)
    case SenderWaits => 3
    case ReceiverWaits => 3
    case Departing => 1
    case _ => 2
  }

  lemma WorkMove(ops: map<nat, Pc>, o: nat, pc: Pc)
    requires o in ops
    ensures OpsWork(ops[o := pc]) == OpsWork(ops) - Work(ops[o]) + Work(pc)
  {
    hide Count;
    CountMove(ops, o, pc);
  }

  lemma WorkDrop(ops: map<nat, Pc>, o: nat)
    requires o in ops
    ensures OpsWork(ops - {o}) == OpsWork(ops) - Work(ops[o])
  {
    hide Count;
    forall k
      ensures Count(ops - {o}, k) == Count(ops, k) - (if KindOf(ops[o]) == k then 1 else 0)
    {
      CountDrop(ops, o, k);
    }
  }

  lemma RemainingDecreases(s: State, step: Step)
    requires Inv(s) && s.shared.shuttingDown && Enabled(s, step)
    ensures Next(s, step).shared.shuttingDown && Remaining(Next(s, step)) < Remaining(s)
  {
    hide OpsWork, Tokens, NoneForgotten, Fifo;
    match step
    case Run(o) => WorkMove(s.ops, o, Leaving);
    case Wake(o) => WorkMove(s.ops, o, Next(s, Wake(o)).ops[o]);
    case Release(o) => WorkDrop(s.ops, o);
    case Close =>
    case Post =>
    case DestroyerRelease =>
    case Free =>
  }

  /** As long as a closed endpoint is not freed, something can still happen. */
  lemma ClosedIsNotStuck(s: State)
    requires Inv(s) && s.shared.shuttingDown && s.frees == 0
    ensures exists step :: Enabled(s, step)
  {
    if s.freeing {
      assert Enabled(s, Free);
    } else if s.destroyer.Posting? {
      if s.destroyer.senders + s.destroyer.receivers > 0 {
        assert Enabled(s, Post);
      } else {
        assert Enabled(s, DestroyerRelease);
      }
    } else {
      var o :| o in s.ops;
      match s.ops[o]
      case SendWait(_) =>
        assert o in Of(s.ops, SenderWaits);
        assert Enabled(s, Wake(o));
      case RecvWait =>
        assert o in Of(s.ops, ReceiverWaits);
        assert Enabled(s, Wake(o));
      case Leaving => assert Enabled(s, Release(o));
      case _ => assert Enabled(s, Run(o));
    }
  }

  /**
    After an endpoint is closed every run is bounded, and a run that cannot go
    on has woken every blocked operation, let all of them return and freed the
    endpoint exactly once: destroying never hangs and never leaks.
   */
  lemma {:induction false} ClosedRunsEndFreed(s: State, steps: seq<Step>)
    requires Inv(s) && s.shared.shuttingDown && IsRun(s, steps)
    ensures |steps| <= Remaining(s)
    ensures var e := After(s, steps);
            (forall step :: !Enabled(e, step)) ==> e.frees == 1 && e.ops == map[]
    decreases |steps|
  {
    if steps == [] {
      if forall step :: !Enabled(s, step) {
        if s.frees == 0 {
          ClosedIsNotStuck(s);
        }
      }
    } else {
      StepInv(s, steps[0]);
      RemainingDecreases(s, steps[0]);
      ClosedRunsEndFreed(Next(s, steps[0]), steps[1..]);
    }
  }
}
