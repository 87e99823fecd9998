/** The xHCI event ring: one bit per entry tells the consumer which entries are new
    (`xhci_poll_event` of src/xhci.c; section 4.9.4 of the xHCI specification for the controller). */
module EventRing {
  import opened Base

  const SIZE: nat := 256

  /** The content of a TRB apart from its cycle bit. */
  type Event = nat

  datatype Trb = Trb(event: Event, cycle: bool)

  /** The ring in memory, the driver's dequeue index and expected cycle bit, and the controller's
      enqueue index and cycle bit. */
  datatype Ring = Ring(trbs: seq<Trb>, dequeue: nat, expected: bool, enqueue: nat, producing: bool)
  {
    predicate Shape() { |trbs| == SIZE && dequeue < SIZE && enqueue < SIZE }
  }

  /** After initialisation: a zeroed page, both sides at entry 0 with cycle state 1. */
  function Initial(): Ring {
    Ring(seq(SIZE, _ => Trb(0, false)), 0, true, 0, true)
  }

  /** The controller writes an event. */
  function Produce(r: Ring, e: Event): Ring
    requires r.Shape()
  {
    var next := r.enqueue + 1;
    r.(trbs := r.trbs[r.enqueue := Trb(e, r.producing)],
       enqueue := if next >= SIZE then 0 else next,
       producing := if next >= SIZE then !r.producing else r.producing)
  }

  /** The driver polls. */
  function Poll(r: Ring): (Option<Event>, Ring)
    requires r.Shape()
  {
    if r.trbs[r.dequeue].cycle != r.expected then (None, r) else
    var next := r.dequeue + 1;
    (Some(r.trbs[r.dequeue].event),
     r.(dequeue := if next >= SIZE then 0 else next, expected := if next >= SIZE then !r.expected else r.expected))
  }

  // ---------------------------------------------------------------- laps

  /** The cycle bit of the `k`-th event ever: the parity of its lap. */
  predicate LapBit(k: nat) { (k / SIZE) % 2 == 0 }

  lemma LapStep(k: nat)
    ensures (k + 1) % SIZE == (if k % SIZE + 1 >= SIZE then 0 else k % SIZE + 1)
    ensures LapBit(k + 1) == (if k % SIZE + 1 >= SIZE then !LapBit(k) else LapBit(k))
  {
    LapOf(k / SIZE, k % SIZE);
    if k % SIZE + 1 < SIZE { LapOf(k / SIZE, k % SIZE + 1); } else { LapOf(k / SIZE + 1, 0); }
  }

  lemma LapOf(lap: nat, slot: nat)
    requires slot < SIZE
    ensures (SIZE * lap + slot) / SIZE == lap && (SIZE * lap + slot) % SIZE == slot
  {
  }

  lemma NextLap(k: nat)
    ensures LapBit(k + SIZE) == !LapBit(k) && (k + SIZE) % SIZE == k % SIZE
  {
    LapOf(k / SIZE + 1, k % SIZE);
  }

  /** Slot of the `k`-th event: that event if it is one of the last 256, before `n`. */
  ghost predicate Written(r: Ring, first: nat, pending: seq<Event>, k: nat)
    requires r.Shape()
  {
    r.trbs[k % SIZE].cycle == LapBit(k)
        && (first <= k < first + |pending| ==> r.trbs[k % SIZE].event == pending[k - first])
  }

  /** The ring holds the events `pending`, the first of which is number `first` of all events;
      the other slots show the cycle bit of the lap before. */
  ghost predicate HoldsEvents(r: Ring, first: nat, pending: seq<Event>) {
    && r.Shape() && |pending| <= SIZE
    && r.dequeue == first % SIZE && r.expected == LapBit(first)
    && r.enqueue == (first + |pending|) % SIZE && r.producing == LapBit(first + |pending|)
    && (forall k | first <= k < first + |pending| :: Written(r, first, pending, k))
    && (forall k | first + |pending| <= k < first + SIZE :: r.trbs[k % SIZE].cycle == !LapBit(k))
  }

  lemma InitialHolds()
    ensures HoldsEvents(Initial(), 0, [])
  {
  }

  lemma ProduceHolds(r: Ring, first: nat, pending: seq<Event>, e: Event)
    requires HoldsEvents(r, first, pending) && |pending| < SIZE
    ensures HoldsEvents(Produce(r, e), first, pending + [e])
  {
    var n := first + |pending|;
    var r' := Produce(r, e);
    LapStep(n);
    forall k | first <= k < first + SIZE && k != n
      ensures k % SIZE != n % SIZE && r'.trbs[k % SIZE] == r.trbs[k % SIZE] {
      Apart(k, n);
    }
    forall k | first <= k < n + 1 ensures Written(r', first, pending + [e], k) {
      if k < n { assert Written(r, first, pending, k); }
    }
  }

  lemma Apart(k: nat, n: nat)
    requires k < n < k + SIZE || n < k < n + SIZE
    ensures k % SIZE != n % SIZE
  {
  }

  lemma PollHolds(r: Ring, first: nat, pending: seq<Event>)
    requires HoldsEvents(r, first, pending)
    ensures pending == [] ==> Poll(r) == (None, r)
    ensures pending != [] ==> Poll(r).0 == Some(pending[0]) && HoldsEvents(Poll(r).1, first + 1, pending[1..])
  {
    LapStep(first);
    NextLap(first);
    if pending != [] {
      assert Written(r, first, pending, first);
      var r', next, rest := Poll(r).1, first + 1, pending[1..];
      forall k | next <= k < next + |rest| ensures Written(r', next, rest, k) { assert Written(r, first, pending, k); }
      forall k | first + |pending| <= k < first + 1 + SIZE ensures r'.trbs[k % SIZE].cycle == !LapBit(k) {
        if k == first + SIZE { assert r.trbs[first % SIZE].cycle == LapBit(first); }
      }
    }
  }

  // ---------------------------------------------------------------- runs

  datatype Op = ProduceOp(e: Event) | PollOp

  /** The answers to the polls of a run. */
  function Answers(r: Ring, ops: seq<Op>): seq<Option<Event>>
    requires r.Shape()
    decreases |ops|
  {
    if ops == [] then [] else
    match ops[0]
    case ProduceOp(e) => Answers(Produce(r, e), ops[1..])
    case PollOp => [Poll(r).0] + Answers(Poll(r).1, ops[1..])
  }

  /** The answers of a queue. */
  function QueueAnswers(queue: seq<Event>, ops: seq<Op>): seq<Option<Event>>
    decreases |ops|
  {
    if ops == [] then [] else
    match ops[0]
    case ProduceOp(e) => QueueAnswers(queue + [e], ops[1..])
    case PollOp => if queue == [] then [None] + QueueAnswers([], ops[1..])
        else [Some(queue[0])] + QueueAnswers(queue[1..], ops[1..])
  }

  /** At no time more than 256 events are outstanding. */
  predicate NeverFull(queue: seq<Event>, ops: seq<Op>)
    decreases |ops|
  {
    ops == [] || match ops[0]
    case ProduceOp(e) => |queue| < SIZE && NeverFull(queue + [e], ops[1..])
    case PollOp => NeverFull(if queue == [] then [] else queue[1..], ops[1..])
  }

  /** The ring is a queue: in order, every event exactly once, nothing exactly when nothing is
      pending, over any number of wraps. */
  lemma {:induction false} RingIsQueue(r: Ring, first: nat, queue: seq<Event>, ops: seq<Op>)
    requires HoldsEvents(r, first, queue) && NeverFull(queue, ops)
    ensures Answers(r, ops) == QueueAnswers(queue, ops)
    decreases |ops|
  {
    hide HoldsEvents;
    assert r.Shape() by { HasShape(r, first, queue); }
    if ops == [] {
    } else {
      match ops[0]
      case ProduceOp(e) =>
        ProduceHolds(r, first, queue, e);
        RingIsQueue(Produce(r, e), first, queue + [e], ops[1..]);
      case PollOp =>
        PollHolds(r, first, queue);
        if queue == [] { RingIsQueue(r, first, queue, ops[1..]); }
        else { RingIsQueue(Poll(r).1, first + 1, queue[1..], ops[1..]); }
    }
  }

  lemma HasShape(r: Ring, first: nat, queue: seq<Event>)
    requires HoldsEvents(r, first, queue)
    ensures r.Shape()
  {
  }

  lemma BootRun(ops: seq<Op>)
    requires NeverFull([], ops)
    ensures Answers(Initial(), ops) == QueueAnswers([], ops)
  {
    InitialHolds();
    RingIsQueue(Initial(), 0, [], ops);
  }

  /** One event too many is noticed by nobody: after it the next poll finds the oldest event
      exactly when there was still room for it. Otherwise the ring looks empty, and stays so. */
  lemma RoomIsNeeded(r: Ring, first: nat, pending: seq<Event>, e: Event)
    requires HoldsEvents(r, first, pending)
    ensures Poll(Produce(r, e)).0 == Some((pending + [e])[0]) <==> |pending| < 256
    ensures |pending| == 256 ==> Poll(Produce(r, e)) == (None, Produce(r, e))
  {
    NextLap(first);
    if |pending| < SIZE {
      ProduceHolds(r, first, pending, e);
      PollHolds(Produce(r, e), first, pending + [e]);
    } else {
      assert Produce(r, e).trbs[r.dequeue] == Trb(e, !r.expected);
    }
  }

  // ---------------------------------------------------------------- the driver's side

  class EventRingConsumer {
    const base: array<Trb>
    var dequeueIdx: nat
    var cycleState: bool

    /** The ring as the driver and, through `enqueue` and `producing`, the controller see it. */
    ghost function View(enqueue: nat, producing: bool): Ring
      reads this, base
    {
      Ring(base[..], dequeueIdx, cycleState, enqueue, producing)
    }

    /** Initialisation: a zeroed ring of 256 entries. */
    constructor ()
      ensures fresh(base) && View(0, true) == Initial() && base.Length == SIZE
    {
      base := new Trb[SIZE](_ => Trb(0, false));
      dequeueIdx, cycleState := 0, true;
      new;
      assert base[..] == Initial().trbs;
    }

    /** `xhci_poll_event`. */
    method PollEvent(ghost enqueue: nat, ghost producing: bool) returns (r: Option<Event>)
      requires View(enqueue, producing).Shape()
      modifies this
      ensures (r, View(enqueue, producing)) == Poll(old(View(enqueue, producing)))
    {
      var trb := base[dequeueIdx];
      if trb.cycle == cycleState {
        dequeueIdx := dequeueIdx + 1;
        if dequeueIdx >= SIZE {
          dequeueIdx := 0;
          cycleState := !cycleState;
        }
        return Some(trb.event);
      }
      return None;
    }
  }
}
