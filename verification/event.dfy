/**
 * Events: the unit of work a queue holds (src/exchange/event.rs).
 *
 * An `Event` is a Rust value that is cloned and moved into its queue's map;
 * `set_id` and `set_status` overwrite one field of a uniquely owned value, so
 * they are modelled as record updates that return the changed event.
 */
module Events {

  /** Opaque metadata tag on an event; `Attribute::new` is the constructor. */
  datatype Attribute = Attribute(name: string, value: string)

  /** The lifecycle status of an event. */
  datatype EventStatus = Queued | Running | Complete | Errored | MissedHeartbeat | Timedout

  /** A terminal status removes the event from its queue. */
  predicate IsTerminal(s: EventStatus): (t: bool)
    ensures t <==> s in {Complete, Errored, MissedHeartbeat, Timedout}
  {
    !(s.Queued? || s.Running?)
  }

  datatype Event = Event(id: nat, data: seq<bv8>, attributes: seq<Attribute>, status: EventStatus)
  {
    /** `set_id`: only the id changes. */
    function SetId(newId: nat): (e: Event)
      ensures e.id == newId
      ensures e.data == data && e.attributes == attributes && e.status == status
    {
      this.(id := newId)
    }

    /** `set_status`: only the status changes, and it reads back as the value set. */
    function SetStatus(newStatus: EventStatus): (e: Event)
      ensures e.status == newStatus
      ensures e.id == id && e.data == data && e.attributes == attributes
    {
      this.(status := newStatus)
    }
  }

  /** `Event::new`: the caller's id, payload and attributes, in status `Queued`. */
  function NewEvent(id: nat, data: seq<bv8>, attributes: seq<Attribute>): (e: Event)
    ensures e.status == Queued && !IsTerminal(e.status)
    ensures e.id == id && e.data == data && e.attributes == attributes
  {
    Event(id, data, attributes, Queued)
  }

  /** Setting the same status twice is the same as setting it once. */
  lemma SetStatusIdempotent(e: Event, s: EventStatus)
    ensures e.SetStatus(s).SetStatus(s) == e.SetStatus(s)
  {
  }
}
