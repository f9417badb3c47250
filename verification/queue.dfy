/**
 * Queues: a named map from event id to event plus the next id to hand out
 * (src/exchange/queue.rs).
 */
module Queues {
  import opened Wrappers
  import opened Events

  /** The value a queue holds: its events by id and the next id `add_event` hands out. */
  datatype QueueState = QueueState(events: map<nat, Event>, eventIdx: nat)
  {
    /** Every stored id was handed out before, so the next id is always free. */
    ghost predicate Valid()
    {
      forall id :: id in events ==> id < eventIdx
    }

    /**
     * Everything this queue stores is still in `q2` under the same id, and
     * `q2` only adds events under ids this queue had not handed out yet.
     */
    ghost predicate ExtendedBy(q2: QueueState)
    {
      && eventIdx <= q2.eventIdx
      && (forall id :: id in events ==> id in q2.events && q2.events[id] == events[id])
      && (forall id :: id in q2.events ==> id in events || id >= eventIdx)
    }

    /** `add_event` on the value: the event goes in under the next id. */
    function WithEvent(e: Event): (r: QueueState)
      ensures r.eventIdx == eventIdx + 1
      ensures r.events.Keys == events.Keys + {eventIdx} && r.events[eventIdx] == e
      ensures forall id :: id in events && id != eventIdx ==> r.events[id] == events[id]
      ensures Valid() ==> r.Valid() && |r.events| == |events| + 1
    {
      QueueState(events[eventIdx := e], eventIdx + 1)
    }

    /**
     * The status update `exchange.rs` asks of a queue: an unknown id is left
     * alone, a terminal status removes the event and returns it with the new
     * status, a non-terminal one sets the status in place.
     */
    function UpdateStatus(id: nat, s: EventStatus): (r: (QueueState, Option<Event>))
      ensures r.0.eventIdx == eventIdx
      ensures r.0.events.Keys == if id in events && IsTerminal(s) then events.Keys - {id} else events.Keys
      ensures forall k :: k in r.0.events && k != id ==> r.0.events[k] == events[k]
      ensures id in r.0.events ==> r.0.events[id] == events[id].SetStatus(s)
      ensures r.1.Some? <==> id in events && IsTerminal(s)
      ensures r.1.Some? ==> r.1.value == events[id].SetStatus(s)
      ensures Valid() ==> r.0.Valid()
    {
      if id !in events then (this, None)
      else if IsTerminal(s) then (this.(events := events - {id}), Some(events[id].SetStatus(s)))
      else (this.(events := events[id := events[id].SetStatus(s)]), None)
    }
  }

  lemma ExtendedByReflexive(q: QueueState)
    ensures q.ExtendedBy(q)
  {
  }

  lemma ExtendedByTransitive(q1: QueueState, q2: QueueState, q3: QueueState)
    requires q1.ExtendedBy(q2) && q2.ExtendedBy(q3)
    ensures q1.ExtendedBy(q3)
  {
  }

  /** `add_event` only adds: the queue after it extends the queue before it. */
  lemma WithEventExtends(q: QueueState, e: Event)
    requires q.Valid()
    ensures q.ExtendedBy(q.WithEvent(e))
  {
  }

  /** The empty queue `Queue::new` builds. */
  const EmptyQueue := QueueState(map[], 0)

  /** Successive `add_event` calls on one queue, returning the ids in call order. */
  function AddInOrder(q: QueueState, es: seq<Event>): (r: (QueueState, seq<nat>))
    decreases |es|
  {
    if es == [] then (q, [])
    else
      var rest := AddInOrder(q.WithEvent(es[0]), es[1..]);
      (rest.0, [q.eventIdx] + rest.1)
  }

  /**
   * Successive `add_event` calls hand out consecutive ids starting at the
   * queue's counter, none of them already in use, and each event stays stored
   * under the id it was given.
   */
  lemma {:induction false} AddInOrderIds(q: QueueState, es: seq<Event>)
    requires q.Valid()
    ensures var r := AddInOrder(q, es);
      && |r.1| == |es|
      && r.0.Valid()
      && r.0.eventIdx == q.eventIdx + |es|
      && (forall i :: 0 <= i < |es| ==> r.1[i] == q.eventIdx + i && r.1[i] !in q.events)
      && (forall i :: 0 <= i < |es| ==> r.1[i] in r.0.events && r.0.events[r.1[i]] == es[i])
      && (forall id :: id in q.events ==> id in r.0.events && r.0.events[id] == q.events[id])
    decreases |es|
  {
    if es != [] {
      var q1 := q.WithEvent(es[0]);
      AddInOrderIds(q1, es[1..]);
      var r := AddInOrder(q, es);
      var rest := AddInOrder(q1, es[1..]);
      assert r.1 == [q.eventIdx] + rest.1;
      forall i | 0 <= i < |es|
        ensures r.1[i] == q.eventIdx + i && r.1[i] !in q.events
        ensures r.1[i] in r.0.events && r.0.events[r.1[i]] == es[i]
      {
        if i > 0 {
          assert r.1[i] == rest.1[i - 1];
          assert es[1..][i - 1] == es[i];
        }
      }
    }
  }

  /** From a new queue, the ids handed out are 0, 1, 2, ... in call order. */
  lemma NewQueueIdsFromZero(es: seq<Event>)
    ensures |AddInOrder(EmptyQueue, es).1| == |es|
    ensures forall i :: 0 <= i < |es| ==> AddInOrder(EmptyQueue, es).1[i] == i
  {
    AddInOrderIds(EmptyQueue, es);
  }

  /** A second terminal update of the same id finds nothing and changes nothing. */
  lemma TerminalUpdateIsFinal(q: QueueState, id: nat, s: EventStatus, s2: EventStatus)
    requires IsTerminal(s)
    ensures var q1 := q.UpdateStatus(id, s).0;
      id !in q1.events && q1.UpdateStatus(id, s2) == (q1, None)
  {
  }

  class Queue {
    const name: string
    var events: map<nat, Event>
    var eventIdx: nat

    /** The queue's value: its events and its next id. */
    function State(): QueueState
      reads this
    {
      QueueState(events, eventIdx)
    }

    ghost predicate Valid()
      reads this
    {
      State().Valid()
    }

    /** `Queue::new`: the given name, no events, and the first id to hand out is 0. */
    constructor (name: string)
      ensures this.name == name
      ensures State() == EmptyQueue && Valid()
    {
      this.name := name;
      events := map[];
      eventIdx := 0;
    }

    /** `name()`: the name the queue was built with; it is a constant, so no operation changes it. */
    function Name(): (n: string)
      ensures n == name
    {
      name
    }

    /**
     * `add_event`: stores the event under the current counter, which it
     * returns, and bumps the counter; no stored event is overwritten.
     */
    method AddEvent(event: Event) returns (id: nat)
      requires Valid()
      modifies this
      ensures Valid()
      ensures id == old(eventIdx) && id !in old(events)
      ensures eventIdx == old(eventIdx) + 1
      ensures events == old(events)[id := event]
      ensures State() == old(State()).WithEvent(event)
    {
      id := eventIdx;
      events := events[id := event];
      eventIdx := eventIdx + 1;
    }

    /** The status update `exchange.rs` relies on; see `QueueState.UpdateStatus`. */
    method UpdateEventStatus(eventId: nat, status: EventStatus) returns (removed: Option<Event>)
      requires Valid()
      modifies this
      ensures Valid()
      ensures (State(), removed) == old(State()).UpdateStatus(eventId, status)
    {
      removed := None;
      if eventId in events {
        var event := events[eventId].SetStatus(status);
        if IsTerminal(status) {
          events := events - {eventId};
          removed := Some(event);
        } else {
          events := events[eventId := event];
        }
      }
    }
  }
}
