/** The Eventing concept, reduced to what it implements: a capacity check
    on a stored event and the newest-first listing. Every operation here
    only reads the event table, so it is a function of that table. */
module Eventing {
  import opened Collection

  /** A stored event; `start` and `end` are opaque timestamps. */
  datatype EventDoc = EventDoc(
    name: string,
    group: Id,
    host: Id,
    attendees: seq<Id>,
    start: int,
    end: int,
    capacity: int,
    location: Id)

  /** NotFound when no event has the id; the max-capacity error (a kind of
      NotAllowed) exactly when the attendee count EQUALS the capacity; a
      pass otherwise, including when the count is already past it. */
  function AssertNotAtCapacity(events: map<Id, EventDoc>, id: Id): (r: Outcome)
    ensures id !in events ==> r == Fail(NotFound)
    ensures id in events ==> (r == Fail(EventMaxCapacity) <==> |events[id].attendees| == events[id].capacity)
    ensures id in events && |events[id].attendees| != events[id].capacity ==> r == Pass
    ensures r.Fail? && r.error != NotFound ==> r.error.IsNotAllowed()
  {
    if id !in events then Fail(NotFound)
    else if |events[id].attendees| == events[id].capacity then Fail(EventMaxCapacity)
    else Pass
  }

  /** The event has a free place: fewer attendees than its capacity. */
  predicate HasRoom(event: EventDoc) {
    |event.attendees| < event.capacity
  }

  /** While an event has not been overfilled, the capacity check passes
      exactly when the event has a free place; once it holds more attendees
      than its capacity, the check passes although there is no room. */
  lemma CapacityCheckVersusRoom(events: map<Id, EventDoc>, id: Id)
    requires id in events
    ensures |events[id].attendees| <= events[id].capacity ==>
      (AssertNotAtCapacity(events, id) == Pass <==> HasRoom(events[id]))
    ensures |events[id].attendees| > events[id].capacity ==>
      AssertNotAtCapacity(events, id) == Pass && !HasRoom(events[id])
  {
  }

  /** Every event, newest first. */
  function GetAllEvents(events: map<Id, EventDoc>): (r: seq<(Id, EventDoc)>)
    ensures forall i, j :: 0 <= i < j < |r| ==> r[i].0 > r[j].0
    ensures forall p :: p in r ==> p.0 in events && events[p.0] == p.1
    ensures forall id :: id in events ==> (id, events[id]) in r
  {
    ReadAllNewestFirst(events)
  }
}
