/** The document store every concept keeps its records in, reduced to what the
    concepts rely on: a collection is a map from a generated id to a record,
    ids come from a counter so that a new record never reuses one, `readMany`
    with a filter selects a sub-map, and a read sorted by `_id: -1` lists the
    records newest (largest id) first. It also holds the error classes the
    concepts throw. */
module Collection {

  /** An ObjectId. */
  type Id = nat

  datatype Option<+T> = None | Some(value: T)

  /** The error classes of the concepts. EventMaxCapacity is a subclass of
      NotAllowed, the others are distinct classes. */
  datatype Error = NotFound | NotAllowed | EventMaxCapacity | AlreadyExists | BadValues
  {
    /** True when the error is a NotAllowedError or one of its subclasses. */
    predicate IsNotAllowed() {
      this == NotAllowed || this == EventMaxCapacity
    }
  }

  /** What an `assert*` helper does: return normally, or throw an error. */
  datatype Outcome = Pass | Fail(error: Error)

  /** What an operation that returns a value does: return it, or throw. */
  datatype Result<+T> = Success(value: T) | Failure(error: Error)

  /** Every id in use was handed out before `next`, so `next` is fresh. */
  ghost predicate IdsBelow<T>(m: map<Id, T>, next: Id) {
    forall id :: id in m ==> id < next
  }

  /** The records of `m` that pass `keep`, as `readMany(filter)` returns them. */
  function Where<T>(m: map<Id, T>, keep: T -> bool): (r: map<Id, T>)
    ensures forall id :: id in r <==> id in m && keep(m[id])
    ensures forall id :: id in r ==> r[id] == m[id]
  {
    map id | id in m && keep(m[id]) :: m[id]
  }

  predicate StrictlyDescending(ids: seq<Id>) {
    forall i, j :: 0 <= i < j < |ids| ==> ids[i] > ids[j]
  }

  predicate IsLargest(keys: set<Id>, top: Id) {
    top in keys && forall k :: k in keys ==> k <= top
  }

  /** A finite non-empty set of ids has a largest element. */
  lemma {:induction false} LargestExists(keys: set<Id>)
    requires keys != {}
    ensures exists top :: IsLargest(keys, top)
  {
    var x :| x in keys;
    if keys == {x} {
      assert IsLargest(keys, x);
    } else {
      LargestExists(keys - {x});
      var top :| IsLargest(keys - {x}, top);
      assert forall k :: k in keys ==> k == x || k in keys - {x};
      if x < top {
        assert IsLargest(keys, top);
      } else {
        assert IsLargest(keys, x);
      }
    }
  }

  /** The ids of `keys`, largest first, each exactly once. */
  function NewestFirst(keys: set<Id>): (ids: seq<Id>)
    ensures StrictlyDescending(ids)
    ensures forall id :: id in ids <==> id in keys
    decreases keys
  {
    if keys == {} then []
    else
      LargestExists(keys);
      var top :| IsLargest(keys, top);
      [top] + NewestFirst(keys - {top})
  }

  /** Every record of a collection with its id, newest first: a read sorted
      by `_id: -1`. */
  function ReadAllNewestFirst<T>(m: map<Id, T>): (r: seq<(Id, T)>)
    ensures forall i, j :: 0 <= i < j < |r| ==> r[i].0 > r[j].0
    ensures forall p :: p in r ==> p.0 in m && m[p.0] == p.1
    ensures forall id :: id in m ==> (id, m[id]) in r
  {
    var ids := NewestFirst(m.Keys);
    var r := seq(|ids|, i requires 0 <= i < |ids| => (ids[i], m[ids[i]]));
    assert forall id :: id in m ==> (id, m[id]) in r by {
      forall id | id in m
        ensures (id, m[id]) in r
      {
        var i :| 0 <= i < |ids| && ids[i] == id;
        assert r[i] == (id, m[id]);
      }
    }
    r
  }
}
