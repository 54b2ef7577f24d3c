/** The request handlers that synchronize the concepts. The concept objects
    are the application's shared instances; the session's user is passed in
    as `user`, and the set of stored locations stands for the Locating
    concept's existence check. */
module Routes {
  import opened Collection
  import opened Requesting
  import opened Grouping

  /** Deleting the session user purges the requests the user sent, then the
      ones the user received; no remaining request mentions the user and
      every other request is kept. */
  method DeleteUser(requesting: RequestingConcept, user: Id)
    requires requesting.Valid()
    modifies requesting
    ensures requesting.Valid()
    ensures forall id :: id in requesting.requests ==>
      requesting.requests[id].sender != user && requesting.requests[id].recipient != user
    ensures requesting.requests.Keys <= old(requesting.requests).Keys
    ensures forall id ::
      (id in old(requesting.requests) &&
       old(requesting.requests)[id].sender != user && old(requesting.requests)[id].recipient != user) ==>
        id in requesting.requests && requesting.requests[id] == old(requesting.requests)[id]
    ensures forall id :: id in requesting.requests ==> requesting.requests[id] == old(requesting.requests)[id]
  {
    requesting.DeleteBySender(user);
    requesting.DeleteByRecipient(user);
  }

  /** Creates a group owned by the session user after the input checks and
      the location check pass; on any failure no group is added. */
  method CreateGroup(grouping: GroupingConcept, user: Id, name: string, capacity: string, privacy: string,
                     location: Id, locations: set<Id>)
    returns (r: Result<(Id, GroupDoc)>)
    requires grouping.Valid()
    modifies grouping
    ensures grouping.Valid()
    ensures AssertGoodInputs(old(grouping.groups), name, privacy, capacity).Fail? ==>
      r == Failure(AssertGoodInputs(old(grouping.groups), name, privacy, capacity).error)
    ensures AssertGoodInputs(old(grouping.groups), name, privacy, capacity) == Pass && location !in locations ==>
      r == Failure(NotFound)
    ensures r.Failure? ==> grouping.groups == old(grouping.groups)
    ensures r.Success? <==> AssertGoodInputs(old(grouping.groups), name, privacy, capacity) == Pass && location in locations
    ensures r.Success? ==>
      && r.value.0 !in old(grouping.groups)
      && r.value.1 == GroupDoc(name, user, [user], capacity, privacy == "true", location)
      && grouping.groups == old(grouping.groups)[r.value.0 := r.value.1]
    ensures UniqueNames(old(grouping.groups)) ==> UniqueNames(grouping.groups)
  {
    var check := AssertGoodInputs(grouping.groups, name, privacy, capacity);
    if check.Fail? {
      return Failure(check.error);
    }
    if location !in locations {
      return Failure(NotFound);
    }
    ghost var before := grouping.groups;
    var id, group := grouping.Create(name, user, capacity, privacy, location);
    if UniqueNames(before) {
      CheckedInsertKeepsNamesUnique(before, id, group, privacy, capacity);
    }
    r := Success((id, group));
  }

  /** Opens a group request from the session user to the group's owner:
      NotFound (and no request) when the group does not exist, AlreadyExists
      when the user has any request of type group to that owner already. */
  method OpenGroupRequest(requesting: RequestingConcept, grouping: GroupingConcept, user: Id, groupId: Id,
                          message: Option<string>)
    returns (r: Result<(Id, RequestDoc)>)
    requires requesting.Valid() && grouping.Valid()
    modifies requesting
    ensures requesting.Valid()
    ensures groupId !in grouping.groups ==> r == Failure(NotFound)
    ensures groupId in grouping.groups ==>
      (r.Failure? <==> HasRequest(old(requesting.requests), user, grouping.groups[groupId].owner, Group))
    ensures r.Failure? && groupId in grouping.groups ==> r.error == AlreadyExists
    ensures r.Failure? ==> requesting.requests == old(requesting.requests)
    ensures r.Success? ==>
      && groupId in grouping.groups
      && r.value.0 !in old(requesting.requests)
      && r.value.1 == RequestDoc(user, grouping.groups[groupId].owner, Group, Pending, message, None, None)
      && requesting.requests == old(requesting.requests)[r.value.0 := r.value.1]
  {
    var check := AssertGroupExists(grouping.groups, groupId);
    if check.Fail? {
      return Failure(check.error);
    }
    var recipient := GetOwner(grouping.groups, groupId).value;
    r := requesting.Open(user, recipient, Group, message);
  }

  /** Records the session user's reply to a request. Only the request's
      status changes: the groups, and so every membership list, stay as
      they were. */
  method ReplyToGroupRequest(requesting: RequestingConcept, grouping: GroupingConcept, user: Id, id: Id,
                             accept: string)
    returns (r: Result<Response>)
    requires requesting.Valid()
    modifies requesting
    ensures requesting.Valid()
    ensures grouping.groups == old(grouping.groups)
    ensures id !in old(requesting.requests) ==> r == Failure(NotFound)
    ensures id in old(requesting.requests) && old(requesting.requests)[id].recipient != user ==>
      r == Failure(NotAllowed)
    ensures id in old(requesting.requests) && old(requesting.requests)[id].recipient == user &&
            accept != "true" && accept != "false" ==>
      r == Failure(BadValues)
    ensures r.Success? <==>
      id in old(requesting.requests) && old(requesting.requests)[id].recipient == user &&
      (accept == "true" || accept == "false")
    ensures r.Failure? ==> requesting.requests == old(requesting.requests)
    ensures r.Success? ==>
      && r.value.accepted == (accept == "true")
      && r.value.saysAccepted
      && requesting.requests ==
           old(requesting.requests)[id := old(requesting.requests)[id].(status := ReplyStatus(accept))]
  {
    r := requesting.Respond(id, user, accept);
  }

  /** Deletes one group request about the group, THEN disbands it. The
      request is deleted whether or not the user owns the group, and a
      request without a resource (every request `open` creates) is never
      deleted. */
  method DisbandGroup(requesting: RequestingConcept, grouping: GroupingConcept, user: Id, groupId: Id)
    returns (r: Outcome)
    requires requesting.Valid() && grouping.Valid()
    modifies requesting, grouping
    ensures requesting.Valid() && grouping.Valid()
    ensures groupId !in old(grouping.groups) ==> r == Fail(NotFound)
    ensures groupId in old(grouping.groups) && old(grouping.groups)[groupId].owner != user ==> r == Fail(NotAllowed)
    ensures r == Pass <==> groupId in old(grouping.groups) && old(grouping.groups)[groupId].owner == user
    ensures r.Fail? ==> grouping.groups == old(grouping.groups)
    ensures r == Pass ==> grouping.groups == old(grouping.groups) - {groupId}
    ensures requesting.requests.Keys <= old(requesting.requests).Keys
    ensures forall id :: id in requesting.requests ==> requesting.requests[id] == old(requesting.requests)[id]
    ensures forall id :: id in old(requesting.requests) && id !in requesting.requests ==>
      IsGroupRequestFor(old(requesting.requests)[id], groupId)
    ensures (exists id :: id in old(requesting.requests) && IsGroupRequestFor(old(requesting.requests)[id], groupId)) ==>
      |requesting.requests| == |old(requesting.requests)| - 1
    ensures forall id :: id in old(requesting.requests) && old(requesting.requests)[id].resource == None ==>
      id in requesting.requests
  {
    requesting.DeleteByResourceType(groupId, Group);
    r := grouping.Disband(groupId, user);
  }

  /** Withdraws a request; it succeeds exactly when the session user sent
      it, and then removes only that request. */
  method WithdrawRequest(requesting: RequestingConcept, user: Id, id: Id) returns (r: Outcome)
    requires requesting.Valid()
    modifies requesting
    ensures requesting.Valid()
    ensures r == Pass <==> id in old(requesting.requests) && old(requesting.requests)[id].sender == user
    ensures id !in old(requesting.requests) ==> r == Fail(NotFound)
    ensures id in old(requesting.requests) && old(requesting.requests)[id].sender != user ==> r == Fail(NotAllowed)
    ensures r.Fail? ==> requesting.requests == old(requesting.requests)
    ensures r == Pass ==> requesting.requests == old(requesting.requests) - {id}
  {
    r := requesting.Delete(id, user);
  }

  /** The requests the session user sent. */
  function SentRequests(requesting: RequestingConcept, user: Id): (r: map<Id, RequestDoc>)
    reads requesting
    ensures forall id :: id in r <==> id in requesting.requests && requesting.requests[id].sender == user
    ensures forall id :: id in r ==> r[id] == requesting.requests[id]
  {
    GetSentRequests(requesting.requests, user)
  }

  /** The requests the session user received. */
  function ReceivedRequests(requesting: RequestingConcept, user: Id): (r: map<Id, RequestDoc>)
    reads requesting
    ensures forall id :: id in r <==> id in requesting.requests && requesting.requests[id].recipient == user
    ensures forall id :: id in r ==> r[id] == requesting.requests[id]
  {
    GetReceivedRequests(requesting.requests, user)
  }

  /** A request opened through `OpenGroupRequest` is still there after any
      `DisbandGroup`, by anyone, of any group. */
  method OpenedRequestSurvivesDisband(requesting: RequestingConcept, grouping: GroupingConcept,
                                      sender: Id, groupId: Id, message: Option<string>,
                                      disbander: Id, disbanded: Id)
    returns (request: Result<(Id, RequestDoc)>)
    requires requesting.Valid() && grouping.Valid()
    modifies requesting, grouping
    ensures request.Success? ==> request.value.0 in requesting.requests
  {
    request := OpenGroupRequest(requesting, grouping, sender, groupId, message);
    var _ := DisbandGroup(requesting, grouping, disbander, disbanded);
  }
}
