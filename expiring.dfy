/** The Expiring concept: a table of timed resources, each binding a
    resource id and its type to an expiry time. Only insertion is
    implemented; removal and firing are empty. */
module Expiring {
  import opened Collection

  datatype TimedType = Request | Event

  /** A stored timer; `expiry` is an opaque timestamp. */
  datatype TimedResourceDoc = TimedResourceDoc(resource: Id, kind: TimedType, expiry: int)

  /** The timers bound to `resource`. */
  function TimersFor(active: map<Id, TimedResourceDoc>, resource: Id): (r: map<Id, TimedResourceDoc>)
    ensures forall id :: id in r <==> id in active && active[id].resource == resource
    ensures forall id :: id in r ==> r[id] == active[id]
  {
    Where(active, (t: TimedResourceDoc) => t.resource == resource)
  }

  /** Adding a timer for a resource under a fresh id adds exactly that timer
      to the resource's timers, next to the ones it already had. */
  lemma InsertAddsTimer(active: map<Id, TimedResourceDoc>, id: Id, timed: TimedResourceDoc)
    requires id !in active
    ensures TimersFor(active[id := timed], timed.resource) == TimersFor(active, timed.resource)[id := timed]
    ensures |TimersFor(active[id := timed], timed.resource)| == |TimersFor(active, timed.resource)| + 1
  {
  }

  class ExpiringConcept {
    var active: map<Id, TimedResourceDoc>
    var nextId: Id

    ghost predicate Valid()
      reads this
    {
      IdsBelow(active, nextId)
    }

    constructor ()
      ensures Valid() && active == map[]
    {
      active := map[];
      nextId := 0;
    }

    /** Stores a new timer and returns it. It never fails and does not look
        for an existing timer on the same resource, so the resource gains
        one more timer each time. */
    method Allocate(resource: Id, kind: TimedType, expiry: int) returns (id: Id, timed: TimedResourceDoc)
      requires Valid()
      modifies this
      ensures Valid()
      ensures id !in old(active)
      ensures timed == TimedResourceDoc(resource, kind, expiry)
      ensures active == old(active)[id := timed]
      ensures TimersFor(active, resource) == TimersFor(old(active), resource)[id := timed]
      ensures |TimersFor(active, resource)| == |TimersFor(old(active), resource)| + 1
    {
      id := nextId;
      timed := TimedResourceDoc(resource, kind, expiry);
      InsertAddsTimer(active, id, timed);
      active := active[id := timed];
      nextId := nextId + 1;
    }

    /** Has an empty body: the timer table is left as it is. */
    method Deallocate(id: Id)
      requires Valid()
      ensures Valid() && active == old(active)
    {
    }

    /** Has an empty body: the timer table is left as it is. */
    method Expire(id: Id)
      requires Valid()
      ensures Valid() && active == old(active)
    {
    }
  }
}
