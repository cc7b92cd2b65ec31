/** The bounded event queue: a ring buffer of 64 event ids that drops the newest on overflow. */
module EventQueue {
  import opened Common

  const CAPACITY: nat := 64
  const UINT32_MAX: nat := 0xFFFF_FFFF

  // ----- the bounded FIFO it refines -----

  datatype Fifo = Fifo(pending: seq<int>, dropped: nat)

  const EMPTY: Fifo := Fifo([], 0)

  function Emit(q: Fifo, event: int): Fifo {
    if event == 0 then q
    else if |q.pending| >= CAPACITY then q.(dropped := if q.dropped == UINT32_MAX then q.dropped else q.dropped + 1)
    else q.(pending := q.pending + [event])
  }

  function Take(q: Fifo, n: nat): Fifo
    requires n <= |q.pending|
  {
    q.(pending := q.pending[n..])
  }

  // ----- the ring buffer -----

  function SlotIndex(head: nat, i: nat): nat { (head + i) % CAPACITY }

  class Ring {
    const slots: array<int>
    var head: nat
    var count: nat
    var dropped: nat

    ghost predicate Valid()
      reads this
    {
      slots.Length == CAPACITY && head < CAPACITY && count <= CAPACITY && dropped <= UINT32_MAX
    }

    ghost function State(): Fifo
      requires Valid()
      reads this, slots
    {
      Fifo(seq(count, (i: nat) reads this, slots requires Valid() => slots[SlotIndex(head, i)]), dropped)
    }

    constructor ()
      ensures Valid() && fresh(slots) && State() == EMPTY
    {
      slots := new int[CAPACITY];
      head, count, dropped := 0, 0, 0;
    }

    method Clear()
      requires Valid()
      modifies this
      ensures Valid() && State() == EMPTY
    {
      head, count, dropped := 0, 0, 0;
    }

    method Enqueue(event: int)
      requires Valid()
      modifies this, slots
      ensures Valid() && State() == Emit(old(State()), event)
    {
      if event == 0 { return; }
      if count >= CAPACITY {
        if dropped != UINT32_MAX { dropped := dropped + 1; }
        return;
      }
      var tail := SlotIndex(head, count);
      slots[tail] := event;
      count := count + 1;
      assert State().pending == old(State().pending) + [event];
    }

    /** The caller's buffers: event storage and a cell for the count, either of which may be absent. */
    ghost predicate Buffers(output: array?<int>, outputLength: nat, countCell: array?<int>, countLength: nat)
      reads this
    {
      && (output != null ==> outputLength <= output.Length && output != slots)
      && (countCell != null ==> countLength <= countCell.Length && countCell != slots)
      && (output != null && countCell != null ==> output != countCell)
    }

    /** A read of `n` events is possible. */
    predicate Admits(output: array?<int>, outputLength: nat, countCell: array?<int>, countLength: nat, n: nat) {
      countCell != null && countLength > 0 && n <= outputLength && (n > 0 ==> output != null)
    }

    /** Copy the first `n` pending events. */
    method CopyOut(output: array?<int>, n: nat)
      requires Valid() && n <= count && (n > 0 ==> output != null && n <= output.Length && output != slots)
      modifies output
      ensures output != null ==> n <= output.Length && output[..n] == State().pending[..n]
      ensures output != null ==> output[n..] == old(output[n..])
    {
      for index := 0 to n
        invariant output != null ==> index <= output.Length && output[..index] == State().pending[..index]
        invariant output != null ==> forall k :: n <= k < output.Length ==> output[k] == old(output[k])
      {
        output[index] := slots[SlotIndex(head, index)];
        assert output[..index + 1] == output[..index] + [State().pending[index]];
        assert State().pending[..index + 1] == State().pending[..index] + [State().pending[index]];
      }
    }

    /** Snapshot without consuming. A rejected read changes nothing at all. */
    method PeekExact(output: array?<int>, outputLength: nat, countCell: array?<int>, countLength: nat)
      returns (ok: bool)
      requires Valid() && Buffers(output, outputLength, countCell, countLength)
      modifies output, countCell
      ensures ok == Admits(output, outputLength, countCell, countLength, |State().pending|)
      ensures ok ==> countCell[0] == |State().pending|
      ensures ok && output != null ==> |State().pending| <= output.Length
                                       && output[..] == State().pending + old(output[..])[|State().pending|..]
      ensures !ok ==> (output != null ==> unchanged(output)) && (countCell != null ==> unchanged(countCell))
      ensures State() == old(State())
    {
      if !Admits(output, outputLength, countCell, countLength, count) { return false; }
      CopyOut(output, count);
      countCell[0] := count;
      assert State().pending[..count] == State().pending;
      ok := true;
    }

    /** Deliver everything pending. */
    method PollExact(output: array?<int>, outputLength: nat, countCell: array?<int>, countLength: nat)
      returns (ok: bool)
      requires Valid() && Buffers(output, outputLength, countCell, countLength)
      modifies this, output, countCell
      ensures Valid()
      ensures ok == Admits(output, outputLength, countCell, countLength, |old(State()).pending|)
      ensures ok ==> countCell[0] == |old(State()).pending|
      ensures ok && output != null ==>
                && |old(State()).pending| <= output.Length
                && output[..] == old(State()).pending + old(output[..])[|old(State()).pending|..]
      ensures !ok ==> (output != null ==> unchanged(output)) && (countCell != null ==> unchanged(countCell))
      ensures State() == if ok then Take(old(State()), |old(State()).pending|) else old(State())
    {
      if !Admits(output, outputLength, countCell, countLength, count) { return false; }
      CopyOut(output, count);
      assert State().pending[..count] == State().pending;
      countCell[0] := count;
      head, count := 0, 0;
      ok := true;
    }

    /** Deliver at most `maxEvents` and keep the rest in order. */
    method PollBatchExact(output: array?<int>, outputLength: nat, maxEvents: nat,
                          countCell: array?<int>, countLength: nat)
      returns (ok: bool)
      requires Valid() && Buffers(output, outputLength, countCell, countLength)
      modifies this, output, countCell
      ensures Valid()
      ensures var n := Min(|old(State()).pending|, maxEvents);
              && ok == Admits(output, outputLength, countCell, countLength, n)
              && (ok ==> countCell[0] == n)
              && (ok && output != null ==>
                    n <= output.Length && output[..] == old(State()).pending[..n] + old(output[..])[n..])
              && State() == if ok then Take(old(State()), n) else old(State())
      ensures !ok ==> (output != null ==> unchanged(output)) && (countCell != null ==> unchanged(countCell))
    {
      if countCell == null || countLength == 0 { return false; }
      var take := if count < maxEvents then count else maxEvents;
      if take > outputLength || (take > 0 && output == null) { return false; }
      CopyOut(output, take);
      countCell[0] := take;
      Advance(take);
      ok := true;
    }

    /** Drop the first `n` pending events; an emptied ring starts over at slot zero. */
    method Advance(n: nat)
      requires Valid() && n <= count
      modifies this`head, this`count
      ensures Valid() && State() == Take(old(State()), n)
    {
      forall i | 0 <= i < count - n ensures SlotIndex(SlotIndex(head, n), i) == SlotIndex(head, n + i) {
        RotateIndex(head, n, i);
      }
      head := SlotIndex(head, n);
      count := count - n;
      assert State().pending == old(State()).pending[n..];
      if count == 0 { head := 0; }
    }
  }

  /** Successive events take successive slots, and slot 63 is followed by slot 0. */
  lemma SlotsRunForward(head: nat, i: nat)
    ensures SlotIndex(head, i + 1) == if SlotIndex(head, i) == 63 then 0 else SlotIndex(head, i) + 1
  {
  }

  lemma RotateIndex(head: nat, n: nat, i: nat)
    ensures SlotIndex(SlotIndex(head, n), i) == SlotIndex(head, n + i)
  {
  }

  // ----- every run -----

  datatype Operation =
    | EmitEvent(event: int)
    | Peek(room: nat)                      // `room` is the length of the caller's buffer
    | Poll(room: nat)
    | PollBatch(room: nat, limit: nat)
    | ReadNowhere                          // a read without a place for the event count
    | ClearAll

  /** A run since the last clear: what was emitted, accepted and delivered. */
  datatype Log = Log(queue: Fifo, emitted: seq<int>, accepted: seq<int>, delivered: seq<int>)

  const START: Log := Log(EMPTY, [], [], [])

  function Step(log: Log, op: Operation): Log {
    match op
    case EmitEvent(event) =>
      var queue := Emit(log.queue, event);
      Log(queue,
          if event == 0 then log.emitted else log.emitted + [event],
          if event != 0 && |log.queue.pending| < CAPACITY then log.accepted + [event] else log.accepted,
          log.delivered)
    case Peek(_) => log
    case ReadNowhere => log
    case Poll(room) => Delivered(log, |log.queue.pending|, room)
    case PollBatch(room, limit) => Delivered(log, Min(|log.queue.pending|, limit), room)
    case ClearAll => START
  }

  /** The first `n` events reach the caller, unless they do not fit. */
  function Delivered(log: Log, n: nat, room: nat): Log
    requires n <= |log.queue.pending|
  {
    if n > room then log
    else log.(queue := Take(log.queue, n), delivered := log.delivered + log.queue.pending[..n])
  }

  function Play(log: Log, ops: seq<Operation>): Log
    decreases ops
  {
    if ops == [] then log else Play(Step(log, ops[0]), ops[1..])
  }

  /** FIFO order, no loss but counted drops, bounded occupancy. */
  ghost predicate Accounted(log: Log) {
    && log.delivered + log.queue.pending == log.accepted
    && |log.accepted| <= |log.emitted|
    && log.queue.dropped == Min(|log.emitted| - |log.accepted|, UINT32_MAX)
    && (log.queue.dropped == 0 ==> log.accepted == log.emitted)
    && |log.queue.pending| <= CAPACITY
    && (forall i :: 0 <= i < |log.accepted| ==> log.accepted[i] != 0)
  }

  lemma StepAccounted(log: Log, op: Operation)
    requires Accounted(log)
    ensures Accounted(Step(log, op))
  {
    match op
    case EmitEvent(event) =>
      if event != 0 && |log.queue.pending| < CAPACITY {
        assert log.delivered + (log.queue.pending + [event]) == (log.delivered + log.queue.pending) + [event];
      }
    case Poll(room) => DeliveredAccounted(log, |log.queue.pending|, room);
    case PollBatch(room, limit) => DeliveredAccounted(log, Min(|log.queue.pending|, limit), room);
    case _ =>
  }

  lemma DeliveredAccounted(log: Log, n: nat, room: nat)
    requires Accounted(log) && n <= |log.queue.pending|
    ensures Accounted(Delivered(log, n, room))
  {
    assert log.queue.pending == log.queue.pending[..n] + log.queue.pending[n..];
  }

  lemma {:induction false} PlayAccounted(log: Log, ops: seq<Operation>)
    requires Accounted(log)
    ensures Accounted(Play(log, ops))
    decreases ops
  {
    if ops != [] {
      StepAccounted(log, ops[0]);
      PlayAccounted(Step(log, ops[0]), ops[1..]);
    }
  }

  /** Over every run: delivered then pending are the accepted events in order, and until the drop
      counter saturates, emitted = delivered + pending + dropped. */
  lemma RunsAreAccounted(ops: seq<Operation>)
    ensures var end := Play(START, ops);
            && Accounted(end)
            && (end.queue.dropped < UINT32_MAX ==>
                  |end.emitted| == |end.delivered| + |end.queue.pending| + end.queue.dropped)
  {
    PlayAccounted(START, ops);
    var end := Play(START, ops);
    assert |end.delivered + end.queue.pending| == |end.accepted|;
  }

  /** One operation on the ring; `log` is the run so far, `got` what its reads have delivered. */
  method Perform(ring: Ring, op: Operation, ghost log: Log, got: seq<int>) returns (delivered: seq<int>)
    requires ring.Valid() && ring.State() == log.queue && got == log.delivered
    modifies ring, ring.slots
    ensures ring.Valid() && ring.State() == Step(log, op).queue && delivered == Step(log, op).delivered
  {
    delivered := got;
    match op
    {
      case EmitEvent(event) => ring.Enqueue(event);
      case ClearAll =>
        ring.Clear();
        delivered := [];
      case ReadNowhere => var _ := ring.PollExact(null, 0, null, 0);
      case Peek(room) =>
        var output, cell := new int[room], new int[1];
        var _ := ring.PeekExact(output, room, cell, 1);
      case Poll(room) =>
        var output, cell := new int[room], new int[1];
        var ok := ring.PollExact(output, room, cell, 1);
        if ok { delivered := got + output[..cell[0]]; }
      case PollBatch(room, limit) =>
        var output, cell := new int[room], new int[1];
        var ok := ring.PollBatchExact(output, room, limit, cell, 1);
        if ok { delivered := got + output[..cell[0]]; }
    }
  }

  /** A fresh ring driven through any operations holds and has delivered what the run says, and so
      keeps the account. */
  method Drive(ops: seq<Operation>) returns (ring: Ring, delivered: seq<int>)
    ensures ring.Valid() && ring.State() == Play(START, ops).queue && delivered == Play(START, ops).delivered
    ensures Accounted(Play(START, ops))
  {
    RunsAreAccounted(ops);
    ring := new Ring();
    delivered := [];
    ghost var log := START;
    for i := 0 to |ops|
      invariant fresh(ring) && fresh(ring.slots)
      invariant ring.Valid() && ring.State() == log.queue && delivered == log.delivered
      invariant Play(START, ops) == Play(log, ops[i..])
    {
      assert ops[i..][1..] == ops[i + 1..];
      delivered := Perform(ring, ops[i], log, delivered);
      log := Step(log, ops[i]);
    }
  }
}
