/**
  One IPC endpoint. The lock-protected blocks of the endpoint code are functions
  on the shared fields; the class `Endpoint` carries them out in place on a ring
  of 64 slots.
 */
module Endpoint {
  const CAPACITY: nat := 64

  datatype Message = Message(sender: nat, words: seq<nat>)

  /** The fields that all operations on an endpoint share. */
  datatype Shared = Shared(
    queue: seq<Message>,
    waitingSenders: nat,
    waitingReceivers: nat,
    senderSem: nat,
    receiverSem: nat,
    references: nat,
    shuttingDown: bool)

  datatype Outcome = Done | Received(message: Message) | Closed | Cancelled | MustWait

  /** Give one waiting receiver a token, if there is one. */
  function WakeReceiver(s: Shared): Shared {
    if s.waitingReceivers > 0
    then s.(waitingReceivers := s.waitingReceivers - 1, receiverSem := s.receiverSem + 1) else s
  }

  function WakeSender(s: Shared): Shared {
    if s.waitingSenders > 0
    then s.(waitingSenders := s.waitingSenders - 1, senderSem := s.senderSem + 1) else s
  }

  /** One pass of a send under the endpoint lock. */
  function SendBlock(s: Shared, m: Message, blocking: bool): (Shared, Outcome) {
    if s.shuttingDown then (s, Closed)
    else if |s.queue| < CAPACITY then (WakeReceiver(s.(queue := s.queue + [m])), Done)
    else if blocking then (s.(waitingSenders := s.waitingSenders + 1), MustWait)
    else (s, Cancelled)
  }

  /** One pass of a receive under the endpoint lock. */
  function RecvBlock(s: Shared, blocking: bool): (Shared, Outcome) {
    if s.shuttingDown then (s, Closed)
    else if s.queue != [] then (WakeSender(s.(queue := s.queue[1..])), Received(s.queue[0]))
    else if blocking then (s.(waitingReceivers := s.waitingReceivers + 1), MustWait)
    else (s, Cancelled)
  }

  /** The locked part of destroying: nobody may wait from here on; the waiters are handed to the destroyer. */
  function CloseBlock(s: Shared): Shared {
    s.(shuttingDown := true, waitingSenders := 0, waitingReceivers := 0)
  }

  function Slot(head: nat, i: nat): (r: nat)
    ensures r < CAPACITY
  {
    (head + i) % CAPACITY
  }

  /** The `count` messages of a ring from `head` on. */
  ghost function RingContents(slots: seq<Message>, head: nat, count: nat): (q: seq<Message>)
    requires |slots| == CAPACITY
    ensures |q| == count
  {
    seq(count, i requires 0 <= i < count => slots[Slot(head, i)])
  }

  lemma RingPush(slots: seq<Message>, head: nat, count: nat, m: Message)
    requires |slots| == CAPACITY && head < CAPACITY && count < CAPACITY
    ensures var slots' := slots[(head + count) % CAPACITY := m];
            RingContents(slots', head, count + 1) == RingContents(slots, head, count) + [m]
    ensures ((head + count) % CAPACITY + 1) % CAPACITY == (head + (count + 1)) % CAPACITY
  {
    forall i | 0 <= i < count
      ensures Slot(head, i) != Slot(head, count)
    {
      Wrap(head, i);
      Wrap(head, count);
    }
    Wrap(head, count);
  }

  lemma RingPop(slots: seq<Message>, head: nat, count: nat)
    requires |slots| == CAPACITY && head < CAPACITY && 0 < count <= CAPACITY
    ensures slots[head] == RingContents(slots, head, count)[0]
    ensures RingContents(slots, (head + 1) % CAPACITY, count - 1) == RingContents(slots, head, count)[1..]
    ensures ((head + 1) % CAPACITY + (count - 1)) % CAPACITY == (head + count) % CAPACITY
  {
    forall i | 0 <= i < count
      ensures Slot(Slot(head, 1), i) == Slot(head, i + 1)
    {
      Wrap(head, 1);
    }
    Wrap(head, 1);
    Wrap(head, 0);
  }

  lemma Wrap(head: nat, i: nat)
    requires head < CAPACITY && i <= CAPACITY
    ensures (head + i) % CAPACITY == if head + i < CAPACITY then head + i else head + i - CAPACITY
  {
  }

  class Endpoint {
    const slots: array<Message>
    var head: nat
    var tail: nat
    var count: nat
    var waitingSenders: nat
    var waitingReceivers: nat
    var senderSem: nat
    var receiverSem: nat
    var references: nat
    var shuttingDown: bool

    ghost predicate Valid()
      reads this
    {
      && slots.Length == CAPACITY && head < CAPACITY && tail < CAPACITY && count <= CAPACITY
      && tail == (head + count) % CAPACITY
    }

    /** The queue the ring stands for, oldest message first. */
    ghost function Contents(): (q: seq<Message>)
      requires Valid()
      reads this, slots
      ensures |q| == count
    {
      RingContents(slots[..], head, count)
    }

    ghost function View(): Shared
      requires Valid()
      reads this, slots
    {
      Shared(Contents(), waitingSenders, waitingReceivers, senderSem, receiverSem, references, shuttingDown)
    }

    constructor (blank: Message)
      ensures Valid() && fresh(slots) && View() == Shared([], 0, 0, 0, 0, 1, false)
    {
      slots := new Message[CAPACITY](_ => blank);
      head, tail, count := 0, 0, 0;
      waitingSenders, waitingReceivers, senderSem, receiverSem := 0, 0, 0, 0;
      references, shuttingDown := 1, false;
    }

    method Push(m: Message) returns (ok: bool)
      requires Valid()
      modifies this`tail, this`count, slots
      ensures Valid() && (ok <==> old(count) < CAPACITY)
      ensures Contents() == if ok then old(Contents()) + [m] else old(Contents())
    {
      if count == CAPACITY {
        return false;
      }
      RingPush(slots[..], head, count, m);
      ghost var was := slots[..];
      slots[tail] := m;
      assert slots[..] == was[tail := m];
      tail := (tail + 1) % CAPACITY;
      count := count + 1;
      return true;
    }

    method Pop() returns (m: Outcome)
      requires Valid()
      modifies this`head, this`count
      ensures Valid()
      ensures old(count) > 0 ==> m == Received(old(Contents())[0]) && Contents() == old(Contents())[1..]
      ensures old(count) == 0 ==> m == Cancelled && Contents() == old(Contents())
    {
      if count == 0 {
        return Cancelled;
      }
      RingPop(slots[..], head, count);
      m := Received(slots[head]);
      head := (head + 1) % CAPACITY;
      count := count - 1;
    }

    /**
      Closed if the endpoint is shutting down; done, with the message queued last and
      one waiting receiver given a token, exactly if there is room; otherwise the
      caller is registered as waiting, or turned away if it does not want to wait.
     */
    method Send(m: Message, blocking: bool) returns (o: Outcome)
      requires Valid()
      modifies this, slots
      ensures Valid() && (View(), o) == SendBlock(old(View()), m, blocking)
      ensures old(shuttingDown) ==> o == Closed
      ensures !old(shuttingDown) ==> (o == Done <==> |old(Contents())| < CAPACITY)
      ensures !old(shuttingDown) && |old(Contents())| == CAPACITY ==> o == if blocking then MustWait else Cancelled
      ensures Contents() == if o == Done then old(Contents()) + [m] else old(Contents())
      ensures waitingSenders == old(waitingSenders) + (if o == MustWait then 1 else 0) && senderSem == old(senderSem)
      ensures var woken := if o == Done && old(waitingReceivers) > 0 then 1 else 0;
              waitingReceivers == old(waitingReceivers) - woken && receiverSem == old(receiverSem) + woken
      ensures shuttingDown == old(shuttingDown) && references == old(references)
    {
      if shuttingDown {
        return Closed;
      }
      var ok := Push(m);
      if ok {
        if waitingReceivers > 0 {
          waitingReceivers := waitingReceivers - 1;
          receiverSem := receiverSem + 1;
        }
        return Done;
      }
      if !blocking {
        return Cancelled;
      }
      waitingSenders := waitingSenders + 1;
      return MustWait;
    }

    /**
      Closed if the endpoint is shutting down; the oldest message, with one waiting
      sender given a token, exactly if there is one, whether the caller wants to wait
      or not; otherwise the caller is registered as waiting, or turned away.
     */
    method Recv(blocking: bool) returns (o: Outcome)
      requires Valid()
      modifies this
      ensures Valid() && (View(), o) == RecvBlock(old(View()), blocking)
      ensures old(shuttingDown) ==> o == Closed
      ensures !old(shuttingDown) && old(Contents()) != [] ==> o == Received(old(Contents())[0])
      ensures !old(shuttingDown) && old(Contents()) == [] ==> o == if blocking then MustWait else Cancelled
      ensures Contents() == if o.Received? then old(Contents())[1..] else old(Contents())
      ensures waitingReceivers == old(waitingReceivers) + (if o == MustWait then 1 else 0)
      ensures receiverSem == old(receiverSem)
      ensures var woken := if o.Received? && old(waitingSenders) > 0 then 1 else 0;
              waitingSenders == old(waitingSenders) - woken && senderSem == old(senderSem) + woken
      ensures shuttingDown == old(shuttingDown) && references == old(references)
    {
      if shuttingDown {
        return Closed;
      }
      o := Pop();
      if o.Received? {
        if waitingSenders > 0 {
          waitingSenders := waitingSenders - 1;
          senderSem := senderSem + 1;
        }
        return;
      }
      if blocking {
        waitingReceivers := waitingReceivers + 1;
        return MustWait;
      }
    }

    /** Returns the numbers of senders and receivers the destroyer must still wake. */
    method Close() returns (senders: nat, receivers: nat)
      requires Valid()
      modifies this
      ensures Valid() && View() == CloseBlock(old(View()))
      ensures senders == old(waitingSenders) && receivers == old(waitingReceivers)
      ensures shuttingDown && waitingSenders == 0 && waitingReceivers == 0 && Contents() == old(Contents())
      ensures senderSem == old(senderSem) && receiverSem == old(receiverSem) && references == old(references)
    {
      shuttingDown := true;
      senders, receivers := waitingSenders, waitingReceivers;
      waitingSenders, waitingReceivers := 0, 0;
    }

    method Acquire()
      requires Valid()
      modifies this`references
      ensures Valid() && View() == old(View()).(references := old(references) + 1)
    {
      references := references + 1;
    }

    /** True if the caller dropped the last reference of a closed endpoint and must free it. */
    method Release() returns (free: bool)
      requires Valid() && references > 0
      modifies this`references
      ensures Valid() && View() == old(View()).(references := old(references) - 1)
      ensures free <==> shuttingDown && references == 0
    {
      references := references - 1;
      free := shuttingDown && references == 0;
    }
  }
}
