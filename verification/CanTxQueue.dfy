/** The FDCAN driver's software transmit queue.

Each interrupt-guarded region is one step. The peripheral is an oracle: `answers` are
its next replies to a frame offered to it (room in its FIFO and accepted, or not); an
exhausted oracle refuses. */
module CanTxQueue {
  import opened Numbers

  const DEPTH: nat := 32

  datatype Status = Ok | Busy

  /** The queue by its meaning; `refused` tells whether the peripheral's last reply was
      a refusal. */
  datatype Tx<F> = Tx(waiting: seq<F>, sent: seq<F>, dropped: nat, answers: seq<bool>, refused: bool)

  predicate Accepts(answers: seq<bool>) {
    answers != [] && answers[0]
  }

  function Rest(answers: seq<bool>): seq<bool> {
    if answers == [] then [] else answers[1..]
  }

  /** Waiting frames leave in order until none is left or the peripheral refuses. */
  function Drained<F>(tx: Tx<F>): Tx<F>
    decreases |tx.waiting|
  {
    if tx.waiting == [] then tx
    else if Accepts(tx.answers) then
      Drained(Tx(tx.waiting[1..], tx.sent + [tx.waiting[0]], tx.dropped, Rest(tx.answers), false))
    else tx.(answers := Rest(tx.answers), refused := true)
  }

  /** A frame goes out at once only when nothing waits; else it queues behind the rest,
      or is dropped when the queue is full. */
  function Offered<F>(tx: Tx<F>, frame: F): (Tx<F>, Status) {
    if tx.waiting == [] && Accepts(tx.answers) then
      (tx.(sent := tx.sent + [frame], answers := Rest(tx.answers), refused := false), Ok)
    else
      var asked := if tx.waiting == [] then tx.(answers := Rest(tx.answers), refused := true) else tx;
      if |asked.waiting| == DEPTH then (asked.(dropped := (asked.dropped + 1) % TWO_TO_32), Busy)
      else (Drained(asked.(waiting := asked.waiting + [frame])), Ok)
  }

  // ---- the ring -------------------------------------------------------------------

  class Can<F(0)> {
    const queue: array<F>
    var head: nat
    var count: nat
    var dropped: nat
    var answers: seq<bool>
    ghost var sent: seq<F>
    ghost var refused: bool

    ghost predicate Valid()
      reads this
    {
      queue.Length == DEPTH && head < DEPTH && count <= DEPTH && dropped < TWO_TO_32
    }

    /** The frames in the ring, oldest first. */
    ghost function Ring(): (r: seq<F>)
      reads this, queue
      requires Valid()
      ensures |r| == count
    {
      RingOf(queue[..], head, count)
    }

    ghost function Meaning(): Tx<F>
      reads this, queue
      requires Valid()
    {
      Tx(Ring(), sent, dropped, answers, refused)
    }

    constructor (answers: seq<bool>)
      ensures Valid() && fresh(queue) && Meaning() == Tx([], [], 0, answers, false)
    {
      queue := new F[DEPTH];
      head, count, dropped := 0, 0, 0;
      this.answers := answers;
      sent, refused := [], false;
    }

    method AddToHardware(frame: F) returns (ok: bool)
      requires Valid()
      modifies this`answers, this`sent, this`refused
      ensures ok == Accepts(old(answers)) && answers == Rest(old(answers)) && refused == !ok
      ensures sent == if ok then old(sent) + [frame] else old(sent)
    {
      ok := answers != [] && answers[0];
      answers := Rest(answers);
      refused := !ok;
      if ok {
        sent := sent + [frame];
      }
    }

    method Send(frame: F) returns (status: Status)
      requires Valid()
      modifies this, queue
      ensures Valid() && (Meaning(), status) == Offered(old(Meaning()), frame)
    {
      if count == 0 {
        var ok := AddToHardware(frame);
        if ok {
          return Ok;
        }
      }
      if count == DEPTH {
        dropped := (dropped + 1) % TWO_TO_32;
        return Busy;
      }
      RingGrows(queue[..], head, count, frame);
      queue[At(head, count)] := frame;
      count := count + 1;
      DrainTxQueue();
      status := Ok;
    }

    method DrainTxQueue()
      requires Valid()
      modifies this`head, this`count, this`answers, this`sent, this`refused
      ensures Valid() && Meaning() == Drained(old(Meaning()))
    {
      while count > 0
        invariant Valid() && dropped == old(dropped) && queue[..] == old(queue[..])
        invariant Drained(Meaning()) == Drained(old(Meaning()))
        decreases count
      {
        RingShrinks(queue[..], head, count);
        var ok := AddToHardware(queue[head]);
        if !ok {
          return;
        }
        head := At(head, 1);
        count := count - 1;
      }
    }

    method HandleTxFifoEmpty()
      requires Valid()
      modifies this`head, this`count, this`answers, this`sent, this`refused
      ensures Valid() && Meaning() == Drained(old(Meaning()))
    {
      DrainTxQueue();
    }
  }

  function At(head: nat, i: nat): nat {
    (head + i) % DEPTH
  }

  ghost function RingOf<F>(queue: seq<F>, head: nat, count: nat): (r: seq<F>)
    requires |queue| == DEPTH
    ensures |r| == count
  {
    seq(count, i requires 0 <= i => queue[At(head, i)])
  }

  lemma RingGrows<F>(queue: seq<F>, head: nat, count: nat, frame: F)
    requires |queue| == DEPTH && head < DEPTH && count < DEPTH
    ensures RingOf(queue[At(head, count) := frame], head, count + 1) == RingOf(queue, head, count) + [frame]
  {
    forall i: nat | i < count ensures At(head, i) != At(head, count) {
    }
  }

  lemma RingShrinks<F>(queue: seq<F>, head: nat, count: nat)
    requires |queue| == DEPTH && head < DEPTH && 0 < count <= DEPTH
    ensures RingOf(queue, head, count)[0] == queue[head]
    ensures RingOf(queue, At(head, 1), count - 1) == RingOf(queue, head, count)[1..]
  {
    var next := At(head, 1);
    forall i: nat | i < count - 1 ensures At(next, i) == At(head, i + 1) {
      AtShift(head, i);
    }
  }

  lemma AtShift(head: nat, i: nat)
    requires head < DEPTH
    ensures At(At(head, 1), i) == At(head, i + 1)
  {
    if head + 1 == DEPTH {
      assert head + (i + 1) == i + DEPTH;
    }
  }

  // ---- whole runs --------------------------------------------------------------------

  /** Any interleaving of sends, transmit interrupts and changes of the peripheral. */
  datatype Event<F> = SendFrame(frame: F) | TxFifoEmpty | Peripheral(answers: seq<bool>)

  function Step<F>(tx: Tx<F>, e: Event<F>): Tx<F> {
    match e
    case SendFrame(frame) => Offered(tx, frame).0
    case TxFifoEmpty => Drained(tx)
    case Peripheral(answers) => tx.(answers := answers)
  }

  function Run<F>(answers: seq<bool>, run: seq<Event<F>>): Tx<F> {
    if run == [] then Tx([], [], 0, answers, false) else Step(Run(answers, run[..|run| - 1]), run[|run| - 1])
  }

  /** The frames whose sends returned kOk, in order. */
  function AcceptedFrames<F>(answers: seq<bool>, run: seq<Event<F>>): seq<F> {
    if run == [] then []
    else
      var prior, e := run[..|run| - 1], run[|run| - 1];
      AcceptedFrames(answers, prior) +
      if e.SendFrame? && Offered(Run(answers, prior), e.frame).1 == Ok then [e.frame] else []
  }

  /** How many sends returned kBusy. */
  function BusyResults<F>(answers: seq<bool>, run: seq<Event<F>>): nat {
    if run == [] then 0
    else
      var prior, e := run[..|run| - 1], run[|run| - 1];
      BusyResults(answers, prior) + if e.SendFrame? && Offered(Run(answers, prior), e.frame).1 == Busy then 1 else 0
  }

  /** Draining moves frames from the front of the queue to the bus and stops only when
      none is left or the peripheral has just refused one. */
  lemma {:induction false} DrainKeepsOrder<F>(tx: Tx<F>)
    ensures Drained(tx).sent + Drained(tx).waiting == tx.sent + tx.waiting
    ensures |Drained(tx).waiting| <= |tx.waiting| && Drained(tx).dropped == tx.dropped
    ensures Drained(tx).waiting == [] || Drained(tx).refused
    decreases |tx.waiting|
  {
    if tx.waiting != [] && Accepts(tx.answers) {
      var next := Tx(tx.waiting[1..], tx.sent + [tx.waiting[0]], tx.dropped, Rest(tx.answers), false);
      DrainKeepsOrder(next);
      assert next.sent + next.waiting == tx.sent + tx.waiting;
    }
  }

  /** Over every interleaving: no accepted frame is lost, repeated or overtaken; the
      queue never exceeds its depth; drops count the busy results, modulo 2^32. */
  lemma {:induction false} NothingLost<F>(answers: seq<bool>, run: seq<Event<F>>)
    ensures Run(answers, run).sent + Run(answers, run).waiting == AcceptedFrames(answers, run)
    ensures |Run(answers, run).waiting| <= DEPTH
    ensures Run(answers, run).dropped == BusyResults(answers, run) % TWO_TO_32
  {
    if run != [] {
      var prior, e := run[..|run| - 1], run[|run| - 1];
      NothingLost(answers, prior);
      var tx := Run(answers, prior);
      match e {
        case SendFrame(frame) => OfferKeepsOrder(tx, frame);
        case TxFifoEmpty => DrainKeepsOrder(tx);
        case Peripheral(_) =>
      }
    }
  }

  lemma OfferKeepsOrder<F>(tx: Tx<F>, frame: F)
    requires |tx.waiting| <= DEPTH
    ensures var (after, status) := Offered(tx, frame);
      && after.sent + after.waiting == tx.sent + tx.waiting + (if status == Ok then [frame] else [])
      && |after.waiting| <= DEPTH
      && after.dropped == (if status == Busy then (tx.dropped + 1) % TWO_TO_32 else tx.dropped)
      && (status == Busy <==> |tx.waiting| == DEPTH)
      && (status == Ok ==> after.waiting == [] || after.refused)
  {
    if tx.waiting == [] && Accepts(tx.answers) {
      assert tx.sent + [frame] + [] == tx.sent + [] + [frame];
    } else {
      var asked := if tx.waiting == [] then tx.(answers := Rest(tx.answers), refused := true) else tx;
      if |asked.waiting| != DEPTH {
        DrainKeepsOrder(asked.(waiting := asked.waiting + [frame]));
        assert tx.sent + (tx.waiting + [frame]) == tx.sent + tx.waiting + [frame];
      }
    }
  }

  /** A successful send and every transmit interrupt end with nothing waiting or a
      refusal by the peripheral. */
  lemma NoFrameIdles<F>(tx: Tx<F>, e: Event<F>)
    requires |tx.waiting| <= DEPTH
    requires e.TxFifoEmpty? || (e.SendFrame? && Offered(tx, e.frame).1 == Ok)
    ensures Step(tx, e).waiting == [] || Step(tx, e).refused
  {
    if e.TxFifoEmpty? {
      DrainKeepsOrder(tx);
    } else {
      OfferKeepsOrder(tx, e.frame);
    }
  }
}
