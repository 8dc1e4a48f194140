/** The message queue between the connection thread and the workers of src/server/server_handlers.c.

    The queue is a ring over two arrays; every access happens with the queue lock held, so a run is a sequence of
    whole enqueues and dequeues by any threads, in any order. */
module RingQueue {

  /** A message and the client that sent it, by number. */
  datatype Item = Item(message: string, client: int)

  datatype Ring = Ring(slots: seq<Item>, head: nat, tail: nat)

  predicate WellFormed(r: Ring) {
    r.head < |r.slots| && r.tail < |r.slots|
  }

  lemma {:induction false} ModWrap(x: nat, n: nat)
    requires 0 < n && x < 2 * n
    ensures x % n == if x < n then x else x - n
  {
  }

  function Count(r: Ring): nat
    requires WellFormed(r)
  {
    if r.head <= r.tail then r.tail - r.head else r.tail + |r.slots| - r.head
  }

  function SlotAt(r: Ring, i: nat): (k: nat)
    requires WellFormed(r) && i < |r.slots|
    ensures k < |r.slots|
  {
    if r.head + i < |r.slots| then r.head + i else r.head + i - |r.slots|
  }

  /** The queued items, oldest first. */
  function Pending(r: Ring): (s: seq<Item>)
    requires WellFormed(r)
  {
    seq(Count(r), i requires 0 <= i < Count(r) => r.slots[SlotAt(r, i)])
  }

  predicate IsFull(r: Ring)
    requires WellFormed(r)
  {
    (r.tail + 1) % |r.slots| == r.head
  }

  function Enqueue(r: Ring, x: Item): Ring
    requires WellFormed(r)
  {
    if IsFull(r) then r else Ring(r.slots[r.tail := x], r.head, (r.tail + 1) % |r.slots|)
  }

  function Dequeue(r: Ring): Ring
    requires WellFormed(r)
  {
    if r.head == r.tail then r else Ring(r.slots, (r.head + 1) % |r.slots|, r.tail)
  }

  /** An enqueue appends at the back and is refused exactly when size - 1 items are waiting. */
  lemma {:induction false} EnqueueIsAppend(r: Ring, x: Item)
    requires WellFormed(r)
    ensures WellFormed(Enqueue(r, x)) && |Enqueue(r, x).slots| == |r.slots|
    ensures IsFull(r) <==> |Pending(r)| == |r.slots| - 1
    ensures Pending(Enqueue(r, x)) == if IsFull(r) then Pending(r) else Pending(r) + [x]
  {
    ModWrap(r.tail + 1, |r.slots|);
    var r' := Enqueue(r, x);
    if !IsFull(r) {
      assert Count(r') == Count(r) + 1;
      forall i | 0 <= i < Count(r') ensures Pending(r')[i] == (Pending(r) + [x])[i] {
        assert SlotAt(r', i) == SlotAt(r, i);
        assert i == Count(r) <==> SlotAt(r, i) == r.tail;
      }
    }
  }

  /** A dequeue takes the oldest item, when there is one. */
  lemma {:induction false} DequeueIsTail(r: Ring)
    requires WellFormed(r)
    ensures WellFormed(Dequeue(r)) && |Dequeue(r).slots| == |r.slots|
    ensures r.head == r.tail <==> Pending(r) == []
    ensures r.head != r.tail ==> Pending(r)[0] == r.slots[r.head] && Pending(Dequeue(r)) == Pending(r)[1..]
    ensures r.head == r.tail ==> Dequeue(r) == r
  {
    ModWrap(r.head + 1, |r.slots|);
    var r' := Dequeue(r);
    if r.head != r.tail {
      assert Count(r') == Count(r) - 1;
      forall i | 0 <= i < Count(r') ensures Pending(r')[i] == Pending(r)[1..][i] {
        assert SlotAt(r', i) == SlotAt(r, i + 1);
      }
    }
  }

  // ----- runs of any number of threads -----

  /** What a thread does while it holds the queue lock. `Receive` is a worker finding the lock: it waits while the
      queue is empty and the server is running, gives up when the server is stopped, and takes an item otherwise. */
  datatype Event = Send(item: Item) | Receive(worker: nat) | Start | Stop

  datatype Delivery = Delivery(worker: nat, item: Item)

  /** The queue with its history: the accepted items and the deliveries, each in the order they happened. */
  datatype Server = Server(ring: Ring, running: bool, accepted: seq<Item>, deliveries: seq<Delivery>)

  function Step(s: Server, e: Event): Server
    requires WellFormed(s.ring)
  {
    match e
    case Send(x) =>
      if IsFull(s.ring) then s else s.(ring := Enqueue(s.ring, x), accepted := s.accepted + [x])
    case Receive(w) =>
      if !s.running || s.ring.head == s.ring.tail then s
      else s.(ring := Dequeue(s.ring), deliveries := s.deliveries + [Delivery(w, s.ring.slots[s.ring.head])])
    case Start => s.(running := true)
    case Stop => s.(running := false)
  }

  function Items(d: seq<Delivery>): (s: seq<Item>)
    ensures |s| == |d| && forall i :: 0 <= i < |d| ==> s[i] == d[i].item
  {
    seq(|d|, i requires 0 <= i < |d| => d[i].item)
  }

  /** Deliveries so far, then what is waiting, are exactly the accepted items in order. */
  ghost predicate Fifo(s: Server) {
    && WellFormed(s.ring)
    && |Pending(s.ring)| <= |s.ring.slots| - 1
    && s.accepted == Items(s.deliveries) + Pending(s.ring)
  }

  lemma {:induction false} StepFifo(s: Server, e: Event)
    requires Fifo(s)
    ensures Fifo(Step(s, e)) && |Step(s, e).ring.slots| == |s.ring.slots|
  {
    match e
    case Send(x) => EnqueueIsAppend(s.ring, x);
    case Receive(w) =>
      DequeueIsTail(s.ring);
      if s.running && s.ring.head != s.ring.tail {
        Delivered(s.deliveries, w, Pending(s.ring));
      }
    case Start =>
    case Stop =>
  }

  /** What each locked section does. A send is accepted exactly while fewer than size - 1 items wait. A worker of a
      running server gets the oldest waiting item, if there is one, under its own number. */
  lemma {:induction false} StepEffect(s: Server, e: Event)
    requires Fifo(s)
    ensures var s' := Step(s, e);
            match e
            case Send(x) =>
              var ok := |Pending(s.ring)| < |s.ring.slots| - 1;
              && s'.accepted == (if ok then s.accepted + [x] else s.accepted)
              && Pending(s'.ring) == (if ok then Pending(s.ring) + [x] else Pending(s.ring))
              && s'.deliveries == s.deliveries && s'.running == s.running
            case Receive(w) =>
              && s'.accepted == s.accepted && s'.running == s.running
              && (if s.running && Pending(s.ring) != []
                  then s'.deliveries == s.deliveries + [Delivery(w, Pending(s.ring)[0])] &&
                       Pending(s'.ring) == Pending(s.ring)[1..]
                  else s' == s)
            case Start => s'.running && s' == s.(running := true)
            case Stop => !s'.running && s' == s.(running := false)
  {
    match e
    case Send(x) => EnqueueIsAppend(s.ring, x);
    case Receive(w) => DequeueIsTail(s.ring);
    case Start =>
    case Stop =>
  }

  /** A running server that only receives empties its queue: after as many turns as items wait, each accepted item has
      been delivered. */
  lemma {:induction false} WorkersDrain(s: Server, es: seq<Event>)
    requires Fifo(s) && s.running && |es| >= |Pending(s.ring)| && forall i :: 0 <= i < |es| ==> es[i].Receive?
    ensures var s' := Run(s, es);
            WellFormed(s'.ring) && Pending(s'.ring) == [] && s'.accepted == s.accepted == Items(s'.deliveries)
    decreases |es|
  {
    if es != [] {
      StepFifo(s, es[0]);
      StepEffect(s, es[0]);
      WorkersDrain(Step(s, es[0]), es[1..]);
    }
  }

  lemma {:induction false} Delivered(d: seq<Delivery>, w: nat, pending: seq<Item>)
    requires pending != []
    ensures Items(d + [Delivery(w, pending[0])]) + pending[1..] == Items(d) + pending
  {
  }

  function Run(s: Server, es: seq<Event>): Server
    requires Fifo(s)
    decreases |es|
  {
    if es == [] then s
    else
      StepFifo(s, es[0]);
      Run(Step(s, es[0]), es[1..])
  }

  /** Over any interleaving: nothing is lost, repeated or reordered, and at most size - 1 items wait. */
  lemma {:induction false} QueueIsFifo(s: Server, es: seq<Event>)
    requires Fifo(s)
    ensures Fifo(Run(s, es)) && |Run(s, es).ring.slots| == |s.ring.slots|
    ensures Items(Run(s, es).deliveries) <= Run(s, es).accepted
    decreases |es|
  {
    if es != [] {
      StepFifo(s, es[0]);
      QueueIsFifo(Step(s, es[0]), es[1..]);
    }
  }

  // ----- the arrays -----

  datatype Received = MustWait | Stopped | Got(item: Item)

  class MessageQueue {
    const messages: array<string>
    const clients: array<int>
    const size: nat
    var head: nat
    var tail: nat
    var running: bool

    ghost predicate Valid()
      reads this, messages, clients
    {
      && 0 < size == messages.Length == clients.Length
      && head < size && tail < size
    }

    ghost function View(): (r: Ring)
      requires Valid()
      reads this, messages, clients
      ensures WellFormed(r) && |r.slots| == size
    {
      Ring(seq(size, i requires 0 <= i < size && Valid() reads this, messages, clients =>
                   Item(messages[i], clients[i])),
           head, tail)
    }

    constructor (queueSize: nat)
      requires queueSize > 0
      ensures Valid() && Pending(View()) == [] && !running && size == queueSize
    {
      messages := new string[queueSize](_ => "");
      clients := new int[queueSize](_ => 0);
      size := queueSize;
      head, tail, running := 0, 0, false;
    }

    /** Queues a message; -1 when the queue is full. */
    method ProcessMessage(client: int, message: string) returns (status: int)
      requires Valid()
      modifies this`tail, messages, clients
      ensures Valid() && View() == Enqueue(old(View()), Item(message, client))
      ensures status == if |old(Pending(View()))| == size - 1 then -1 else 0
      ensures Pending(View()) ==
              if status == 0 then old(Pending(View())) + [Item(message, client)] else old(Pending(View()))
    {
      EnqueueIsAppend(View(), Item(message, client));
      if (tail + 1) % size == head {
        return -1;
      }
      messages[tail] := message;
      clients[tail] := client;
      tail := (tail + 1) % size;
      assert View().slots == old(View()).slots[old(tail) := Item(message, client)];
      return 0;
    }

    /** One look at the queue by a worker that holds the lock. */
    method DequeueMessage() returns (r: Received)
      requires Valid()
      modifies this`head
      ensures Valid()
      ensures match r
              case MustWait => running && Pending(old(View())) == [] && View() == old(View())
              case Stopped => !running && View() == old(View())
              case Got(x) =>
                && running && Pending(old(View())) != [] && x == Pending(old(View()))[0]
                && View() == Dequeue(old(View())) && Pending(View()) == Pending(old(View()))[1..]
    {
      DequeueIsTail(View());
      if head == tail && running {
        return MustWait;
      }
      if !running {
        return Stopped;
      }
      r := Got(Item(messages[head], clients[head]));
      head := (head + 1) % size;
    }
  }
}
