/** The Requesting concept: a ledger of requests from one user to another
    (to befriend them, to join their group, to attend their event). */
module Requesting {
  import opened Collection

  datatype RequestType = Friend | Group | Event

  datatype Status = Pending | Declined | Accepted

  /** A stored request. `resource` names the group or event concerned and
      `expires` is an opaque timestamp; `open` sets neither. */
  datatype RequestDoc = RequestDoc(
    sender: Id,
    recipient: Id,
    kind: RequestType,
    status: Status,
    message: Option<string>,
    resource: Option<Id>,
    expires: Option<int>)

  /** What a successful `respond` returns: whether its message says
      "accepted" and the `accepted` flag. */
  datatype Response = Response(saysAccepted: bool, accepted: bool)

  /** Some request, of any status, goes from `sender` to `recipient` with
      type `kind`. */
  predicate HasRequest(requests: map<Id, RequestDoc>, sender: Id, recipient: Id, kind: RequestType) {
    exists id | id in requests ::
      requests[id].sender == sender && requests[id].recipient == recipient && requests[id].kind == kind
  }

  /** No two requests share sender, recipient and type, whatever their
      status: what `open` maintains. */
  ghost predicate UniqueTriples(requests: map<Id, RequestDoc>) {
    forall i, j :: i in requests && j in requests && i != j ==>
      !(requests[i].sender == requests[j].sender &&
        requests[i].recipient == requests[j].recipient &&
        requests[i].kind == requests[j].kind)
  }

  /** The records `deleteByResourceType` may remove: group requests about
      `resource`. */
  predicate IsGroupRequestFor(doc: RequestDoc, resource: Id) {
    doc.resource == Some(resource) && doc.kind == Group
  }

  // ---------------------------------------------------------------------
  // Read-only checks and queries

  /** Throws AlreadyExists exactly when some request already joins the same
      sender, recipient and type, whatever its status. */
  function AssertNewRequest(requests: map<Id, RequestDoc>, sender: Id, recipient: Id, kind: RequestType): (r: Outcome)
    ensures r == Pass || r == Fail(AlreadyExists)
    ensures r == Pass <==> forall id :: id in requests ==>
      !(requests[id].sender == sender && requests[id].recipient == recipient && requests[id].kind == kind)
  {
    if HasRequest(requests, sender, recipient, kind) then Fail(AlreadyExists) else Pass
  }

  /** Throws NotFound exactly when no request has the id. */
  function AssertRequestExists(requests: map<Id, RequestDoc>, id: Id): (r: Outcome)
    ensures r == Pass || r == Fail(NotFound)
    ensures r == Pass <==> id in requests
  {
    if id in requests then Pass else Fail(NotFound)
  }

  /** Throws NotAllowed unless a request with this id has `user` as sender
      (so also when the id is absent). */
  function AssertUserIsSender(requests: map<Id, RequestDoc>, id: Id, user: Id): (r: Outcome)
    ensures r == Pass || r == Fail(NotAllowed)
    ensures r == Pass <==> id in requests && requests[id].sender == user
  {
    if id in requests && requests[id].sender == user then Pass else Fail(NotAllowed)
  }

  /** Throws NotAllowed unless a request with this id has `user` as
      recipient (so also when the id is absent). */
  function AssertUserIsRecipient(requests: map<Id, RequestDoc>, id: Id, user: Id): (r: Outcome)
    ensures r == Pass || r == Fail(NotAllowed)
    ensures r == Pass <==> id in requests && requests[id].recipient == user
  {
    if id in requests && requests[id].recipient == user then Pass else Fail(NotAllowed)
  }

  /** Throws BadValues unless the reply is exactly "true" or "false". */
  function AssertValidResponse(reply: string): (r: Outcome)
    ensures r == Pass || r == Fail(BadValues)
    ensures r == Pass <==> reply == "true" || reply == "false"
  {
    if reply != "true" && reply != "false" then Fail(BadValues) else Pass
  }

  /** The requests `sender` has sent, and nothing else. */
  function GetSentRequests(requests: map<Id, RequestDoc>, sender: Id): (r: map<Id, RequestDoc>)
    ensures forall id :: id in r <==> id in requests && requests[id].sender == sender
    ensures forall id :: id in r ==> r[id] == requests[id]
  {
    Where(requests, (doc: RequestDoc) => doc.sender == sender)
  }

  /** The requests `recipient` has received, and nothing else. */
  function GetReceivedRequests(requests: map<Id, RequestDoc>, recipient: Id): (r: map<Id, RequestDoc>)
    ensures forall id :: id in r <==> id in requests && requests[id].recipient == recipient
    ensures forall id :: id in r ==> r[id] == requests[id]
  {
    Where(requests, (doc: RequestDoc) => doc.recipient == recipient)
  }

  /** The new status `respond` writes. */
  function ReplyStatus(accept: string): Status {
    if accept == "true" then Accepted else Declined
  }

  /** JavaScript truthiness of a string: it is truthy unless empty. */
  predicate Truthy(s: string) {
    |s| > 0
  }

  // ---------------------------------------------------------------------
  // Lemmas about the ledger invariant

  /** Adding a request that passed `assertNewRequest` under a fresh id keeps
      the triples unique. */
  lemma InsertKeepsUnique(requests: map<Id, RequestDoc>, id: Id, doc: RequestDoc)
    requires UniqueTriples(requests)
    requires id !in requests
    requires AssertNewRequest(requests, doc.sender, doc.recipient, doc.kind) == Pass
    ensures UniqueTriples(requests[id := doc])
  {
  }

  /** Rewriting a request's status keeps the triples unique. */
  lemma StatusUpdateKeepsUnique(requests: map<Id, RequestDoc>, id: Id, status: Status)
    requires UniqueTriples(requests)
    requires id in requests
    ensures UniqueTriples(requests[id := requests[id].(status := status)])
  {
  }

  /** Once a request is in the ledger, `open` refuses its triple again,
      whether it is pending, accepted or declined. */
  lemma StoredRequestBlocksReopen(requests: map<Id, RequestDoc>, id: Id)
    requires id in requests
    ensures AssertNewRequest(requests, requests[id].sender, requests[id].recipient, requests[id].kind) == Fail(AlreadyExists)
  {
  }

  // ---------------------------------------------------------------------
  // The concept

  class RequestingConcept {
    var requests: map<Id, RequestDoc>
    var nextId: Id

    ghost predicate Valid()
      reads this
    {
      IdsBelow(requests, nextId) && UniqueTriples(requests)
    }

    constructor ()
      ensures Valid() && requests == map[]
    {
      requests := map[];
      nextId := 0;
    }

    /** Stores a new pending request, unless any request (of any status)
        already has the same sender, recipient and type. */
    method Open(sender: Id, recipient: Id, kind: RequestType, message: Option<string>)
      returns (r: Result<(Id, RequestDoc)>)
      requires Valid()
      modifies this
      ensures Valid()
      ensures r.Failure? <==> HasRequest(old(requests), sender, recipient, kind)
      ensures r.Failure? ==> r.error == AlreadyExists && requests == old(requests)
      ensures r.Success? ==>
        && r.value.0 !in old(requests)
        && r.value.1 == RequestDoc(sender, recipient, kind, Pending, message, None, None)
        && requests == old(requests)[r.value.0 := r.value.1]
    {
      var check := AssertNewRequest(requests, sender, recipient, kind);
      if check.Fail? {
        return Failure(check.error);
      }
      var id := nextId;
      var doc := RequestDoc(sender, recipient, kind, Pending, message, None, None);
      InsertKeepsUnique(requests, id, doc);
      requests := requests[id := doc];
      nextId := nextId + 1;
      r := Success((id, doc));
    }

    /** Checks, in this order, that the request exists, that `user` is its
        recipient and that the reply is "true" or "false"; then overwrites
        the status, whatever it was before. */
    method Respond(id: Id, user: Id, accept: string) returns (r: Result<Response>)
      requires Valid()
      modifies this
      ensures Valid()
      ensures id !in old(requests) ==> r == Failure(NotFound)
      ensures id in old(requests) && old(requests)[id].recipient != user ==> r == Failure(NotAllowed)
      ensures id in old(requests) && old(requests)[id].recipient == user && accept != "true" && accept != "false" ==>
        r == Failure(BadValues)
      ensures r.Success? <==>
        id in old(requests) && old(requests)[id].recipient == user && (accept == "true" || accept == "false")
      ensures r.Failure? ==> requests == old(requests)
      ensures r.Success? ==>
        && r.value.accepted == (accept == "true")
        && r.value.saysAccepted
        && requests == old(requests)[id := old(requests)[id].(status := ReplyStatus(accept))]
    {
      var check := AssertRequestExists(requests, id);
      if check.Fail? {
        return Failure(check.error);
      }
      check := AssertUserIsRecipient(requests, id, user);
      if check.Fail? {
        return Failure(check.error);
      }
      check := AssertValidResponse(accept);
      if check.Fail? {
        return Failure(check.error);
      }
      StatusUpdateKeepsUnique(requests, id, ReplyStatus(accept));
      requests := requests[id := requests[id].(status := ReplyStatus(accept))];
      r := Success(Response(Truthy(accept), accept == "true"));
    }

    /** Withdraws one request: NotFound if it is absent, NotAllowed if
        `user` did not send it; otherwise removes it and nothing else. */
    method Delete(id: Id, user: Id) returns (r: Outcome)
      requires Valid()
      modifies this
      ensures Valid()
      ensures id !in old(requests) ==> r == Fail(NotFound)
      ensures id in old(requests) && old(requests)[id].sender != user ==> r == Fail(NotAllowed)
      ensures r == Pass <==> id in old(requests) && old(requests)[id].sender == user
      ensures r.Fail? ==> requests == old(requests)
      ensures r == Pass ==> requests == old(requests) - {id}
    {
      r := AssertRequestExists(requests, id);
      if r.Fail? {
        return;
      }
      r := AssertUserIsSender(requests, id, user);
      if r.Fail? {
        return;
      }
      requests := requests - {id};
    }

    /** Removes every request `sender` has sent and keeps all others. */
    method DeleteBySender(sender: Id)
      requires Valid()
      modifies this
      ensures Valid()
      ensures requests == old(requests) - GetSentRequests(old(requests), sender).Keys
      ensures forall id :: id in requests ==> requests[id].sender != sender
      ensures forall id :: id in old(requests) && old(requests)[id].sender != sender ==>
        id in requests && requests[id] == old(requests)[id]
    {
      requests := requests - GetSentRequests(requests, sender).Keys;
    }

    /** Removes every request `recipient` has received and keeps all others. */
    method DeleteByRecipient(recipient: Id)
      requires Valid()
      modifies this
      ensures Valid()
      ensures requests == old(requests) - GetReceivedRequests(old(requests), recipient).Keys
      ensures forall id :: id in requests ==> requests[id].recipient != recipient
      ensures forall id :: id in old(requests) && old(requests)[id].recipient != recipient ==>
        id in requests && requests[id] == old(requests)[id]
    {
      requests := requests - GetReceivedRequests(requests, recipient).Keys;
    }

    /** Removes ONE group request about `resource`, if there is one. The
        `kind` argument is ignored: the filter always says type "group".
        Which matching record goes is the store's choice. */
    method DeleteByResourceType(resource: Id, kind: RequestType)
      requires Valid()
      modifies this
      ensures Valid()
      ensures !(exists id :: id in old(requests) && IsGroupRequestFor(old(requests)[id], resource)) ==>
        requests == old(requests)
      ensures (exists id :: id in old(requests) && IsGroupRequestFor(old(requests)[id], resource)) ==>
        exists id :: id in old(requests) && IsGroupRequestFor(old(requests)[id], resource) &&
          requests == old(requests) - {id}
    {
      if exists id :: id in requests && IsGroupRequestFor(requests[id], resource) {
        var id :| id in requests && IsGroupRequestFor(requests[id], resource);
        requests := requests - {id};
      }
    }
  }
}
