# Requests, groups, events and timers of a social-coordination backend

This project models the concept layer of a social-coordination backend
and the request handlers that chain its concepts together. Users send each
other requests (to befriend someone, to join a group, to attend an event),
and the recipient accepts or declines them. Users also create and disband
groups. Events expose a capacity check. A timer table records expiry times.

Each concept keeps one document collection. Here a collection is a `map`
from an id to a record, and a counter hands out fresh ids
(`Collection.IdsBelow` is part of the `Valid()` of each concept class;
Eventing has no class, because nothing in it changes the event table):

- `Collection`: ids, the error classes (NotFound, NotAllowed and its
  subclass EventMaxCapacity, AlreadyExists, BadValues), the outcome of an
  `assert*` helper, filtered reads, and the newest-first listing.
- `Requesting`: the request ledger, the class `RequestingConcept`.
  `Valid()` also keeps the fact that no two requests share sender,
  recipient and type, whatever their status. `open` is what guarantees
  this.
- `Grouping`: the group registry, the class `GroupingConcept`. `Valid()`
  also keeps the fact that every group's member list is exactly `[owner]`,
  because nothing ever changes a member list. It also holds the input
  validators, including the capacity pattern `^-?\d+(\.\d+)?$`. The pattern
  is modelled twice: once as a grammar (`MatchesCapacityPattern`) and once
  as an evaluator (`IsNumericCapacity`), and a lemma proves the two accept
  the same strings.
- `Eventing`: the capacity check and the listing. Both only read the event
  table, so they are functions of it.
- `Expiring`: the timer table, the class `ExpiringConcept`.
- `Routes`: the handlers. They take the concept objects and the session's
  user as parameters.

The model follows what the code does, including these behaviours:

- `open` refuses a request when ANY request with the same sender,
  recipient and type exists, even one that was accepted or declined.
- `respond` never checks that a request is still pending, so a second
  reply overwrites the status.
- `respond` builds its message from the truthiness of the reply string.
  A reply that gets past validation is never empty, so the message always
  says "accepted" (`Response.saysAccepted`).
- `deleteByResourceType` ignores its type argument, always filters on type
  "group", and deletes at most one record.
- `open` never sets `resource` or `expires`. So the cleanup in
  `disbandGroup` can never remove a request that `openGroupRequest`
  created.
- `disbandGroup` runs its request cleanup before the ownership check. A
  disband that fails can therefore still have deleted a request.
- The event capacity check fails only when the attendee count EQUALS the
  capacity. An event that already holds more attendees passes.
- `allocate` does not look for an existing timer on the same resource.

What the code does NOT do is not modelled either: `respond` never checks
the status, `allocate` never looks for an existing timer, and no handler
adds a user to a group or an event (the call in `replyToGroupRequest` is
commented out, and the member list of a group never changes).

## Model

| member | source | states |
|---|---|---|
| `Requesting.AssertNewRequest` | server/concepts/requesting.ts:66-71 | passes iff no request of any status has the same sender, recipient and type; otherwise AlreadyExists |
| `Requesting.AssertRequestExists` | server/concepts/requesting.ts:73-78 | passes iff the id is stored; otherwise NotFound |
| `Requesting.AssertUserIsSender` | server/concepts/requesting.ts:80-85 | passes iff the id is stored and the user sent it; otherwise NotAllowed, which also covers an absent id |
| `Requesting.AssertUserIsRecipient` | server/concepts/requesting.ts:87-92 | passes iff the id is stored and the user received it; otherwise NotAllowed |
| `Requesting.AssertValidResponse` | server/concepts/requesting.ts:94-98 | passes iff the reply is exactly "true" or "false"; otherwise BadValues |
| `Requesting.GetSentRequests` | server/concepts/requesting.ts:39-41 | returns exactly the stored requests whose sender is the user, unchanged |
| `Requesting.GetReceivedRequests` | server/concepts/requesting.ts:43-45 | returns exactly the stored requests whose recipient is the user, unchanged |
| `Requesting.InsertKeepsUnique` | server/concepts/requesting.ts:25-27 | a request that passed the duplicate check, stored under a fresh id, keeps (sender, recipient, type) unique |
| `Requesting.StatusUpdateKeepsUnique` | server/concepts/requesting.ts:35 | rewriting one request's status keeps (sender, recipient, type) unique |
| `Requesting.StoredRequestBlocksReopen` | server/concepts/requesting.ts:66-70 | any stored request, whatever its status, makes the duplicate check fail with AlreadyExists for its triple |
| `Requesting.RequestingConcept.Open` | server/concepts/requesting.ts:25-29 | fails with AlreadyExists and changes nothing iff a request with that triple exists; otherwise adds one pending record under a fresh id with the given fields and no resource or expiry, and keeps all others |
| `Requesting.RequestingConcept.Respond` | server/concepts/requesting.ts:31-37 | NotFound, then NotAllowed (not the recipient), then BadValues (bad reply), changing nothing on failure; succeeds iff all three pass; then sets only that request's status (accepted iff the reply is "true"), whatever it was before; `accepted` equals reply == "true" and the message always says accepted |
| `Requesting.RequestingConcept.Delete` | server/concepts/requesting.ts:47-52 | NotFound if absent, otherwise NotAllowed unless the user is the sender; passes iff the user sent it, and then removes exactly that request |
| `Requesting.RequestingConcept.DeleteBySender` | server/concepts/requesting.ts:54-56 | removes exactly the requests `GetSentRequests` returns: none with that sender remain, and all others are kept unchanged |
| `Requesting.RequestingConcept.DeleteByRecipient` | server/concepts/requesting.ts:58-60 | removes exactly the requests `GetReceivedRequests` returns: none with that recipient remain, and all others are kept unchanged |
| `Requesting.RequestingConcept.DeleteByResourceType` | server/concepts/requesting.ts:62-64 | removes one group request about the resource if there is one, whatever type was passed; otherwise changes nothing |
| `Grouping.CapacityCheckIsPattern` | server/concepts/grouping.ts:76 | the evaluator accepts a string iff it is an optional "-", one or more digits, and optionally "." with one or more digits |
| `Grouping.CapacityCheckSound` | server/concepts/grouping.ts:76 | every string the evaluator accepts splits as the pattern requires |
| `Grouping.CapacityCheckComplete` | server/concepts/grouping.ts:76 | every string that splits as the pattern requires is accepted by the evaluator |
| `Grouping.CapacityExamples` | server/concepts/grouping.ts:76-78 | "-3" and "2.5" match the pattern; "", "3." and "a" do not |
| `Grouping.AssertOwnerIsUser` | server/concepts/grouping.ts:58-66 | NotFound if the group is absent, otherwise NotAllowed unless the user owns it; passes iff the user owns it |
| `Grouping.AssertGoodInputs` | server/concepts/grouping.ts:68-79 | AlreadyExists if the name is taken, before anything else; then BadValues unless privacy is "true" or "false"; then BadValues unless the capacity matches the pattern; passes iff all three hold |
| `Grouping.AssertGroupExists` | server/concepts/grouping.ts:81-86 | passes iff a group has the id; otherwise NotFound |
| `Grouping.GetOwner` | server/concepts/grouping.ts:47-50 | the stored owner of the group, and nothing when the group is absent |
| `Grouping.GetAllGroups` | server/concepts/grouping.ts:35-37 | every stored group with its id, each exactly as stored, ordered by id descending |
| `Grouping.GetByOwner` | server/concepts/grouping.ts:39-41 | exactly the groups owned by the user |
| `Grouping.GetByName` | server/concepts/grouping.ts:43-45 | exactly the groups with that name |
| `Grouping.OwnerCheckAgreesWithGetOwner` | server/concepts/grouping.ts:47-66 | for a stored group, the owner check passes for a user iff `getOwner` reports that user |
| `Grouping.CheckedInsertKeepsNamesUnique` | server/concepts/grouping.ts:68-72 | adding a group whose inputs passed the checks under a fresh id keeps group names unique |
| `Grouping.GroupingConcept.Create` | server/concepts/grouping.ts:25-29 | adds one group under a fresh id: members exactly [owner], private iff privacy is "true", other fields as given; keeps all other groups |
| `Grouping.GroupingConcept.Disband` | server/concepts/grouping.ts:52-56 | NotFound if absent, otherwise NotAllowed unless the user owns it, changing nothing on failure; otherwise removes exactly that group |
| `Collection.NewestFirst` | server/concepts/grouping.ts:36 | the ids of a collection, each exactly once, strictly descending |
| `Eventing.AssertNotAtCapacity` | server/concepts/eventing.ts:44-52 | NotFound when no event has the id; the max-capacity error, a NotAllowed kind, iff the attendee count equals the capacity; a pass whenever they differ, including past capacity |
| `Eventing.CapacityCheckVersusRoom` | server/concepts/eventing.ts:49 | within capacity, the check passes iff the event has a free place; past capacity it passes although there is no free place |
| `Eventing.GetAllEvents` | server/concepts/eventing.ts:28-30 | every stored event with its id, each exactly as stored, ordered by id descending |
| `Expiring.InsertAddsTimer` | server/concepts/expiring.ts:21-22 | inserting a timer under a fresh id adds exactly that timer to its resource's timers, so their number grows by one |
| `Expiring.ExpiringConcept.Allocate` | server/concepts/expiring.ts:21-24 | never fails; adds one record with the given resource, type and expiry under a fresh id and returns it; keeps every earlier record, so the resource gains one more timer each time |
| `Expiring.ExpiringConcept.Deallocate` | server/concepts/expiring.ts:26 | leaves the timer table unchanged |
| `Expiring.ExpiringConcept.Expire` | server/concepts/expiring.ts:28 | leaves the timer table unchanged |
| `Routes.DeleteUser` | server/routes.ts:57-64 | afterwards no request has the user as sender or recipient, every request that mentioned neither is kept unchanged, and no request is rewritten: the purge only removes |
| `Routes.CreateGroup` | server/routes.ts:179-186 | the input checks run first and their error is returned; then a missing location gives NotFound; no group is added on failure; on success the group has the session user as owner and only member; group names stay unique |
| `Routes.OpenGroupRequest` | server/routes.ts:188-197 | NotFound and no request when the group does not exist; otherwise fails, with AlreadyExists, iff a group request from the user to the owner exists; on success adds a pending "group" request from the user to the group's owner with no resource |
| `Routes.ReplyToGroupRequest` | server/routes.ts:199-208 | NotFound, then NotAllowed (not the recipient), then BadValues (bad reply); succeeds iff the session user received the request and the reply is "true" or "false"; then only the request's status changes (accepted iff the reply is "true"), the message always says accepted, and the groups (and so every member list) are unchanged |
| `Routes.DisbandGroup` | server/routes.ts:210-216 | NotFound, then NotAllowed; passes iff the session user owns the group, and then removes exactly that group; whatever that outcome, at most one group request about the group is removed, one is removed if any exists, and requests with no resource are never removed |
| `Routes.WithdrawRequest` | server/routes.ts:260-265 | succeeds iff the session user sent the request, then removes only it; NotFound when absent, NotAllowed when someone else sent it |
| `Routes.SentRequests` | server/routes.ts:248-252 | exactly the requests the session user sent |
| `Routes.ReceivedRequests` | server/routes.ts:254-258 | exactly the requests the session user received |
| `Routes.OpenedRequestSurvivesDisband` | server/routes.ts:188-216 | a request opened through the group-request handler is still stored after any disband of any group |

## Left out

- The document store's I/O, query language and sort options. A collection is a map with fresh ids. `readMany` without a sort returns an array in the store's order; it is modelled as a map, so that order is left out.
- Requesting.RequestingConcept.DeleteByResourceType: `deleteOne` removes the first match in the store's natural order. The model says only that SOME matching record is removed.
- The concepts `Authing`, `Sessioning`, `Posting`, `Friending` and `Locating` are not part of this model. The session user is a parameter, so a missing session is not modelled. `Routes.DeleteUser` models the request purge but not `Authing.delete`, which runs after it. The location check is membership in a set of location ids, and its failure is modelled as NotFound.
- `new ObjectId(id)` throwing on a malformed id string. Ids are given as ids.
- `Number(capacity)` in `create`, a floating-point conversion. The group stores the capacity text it was given. The event capacity is an integer.
- The capacity pattern is applied to the capacity's text. JavaScript's conversion of a non-string value to text is not modelled.
- Message strings. Only the fact that `respond`'s message always says "accepted" is kept.
- Dates: `expires`, `expiry`, `start` and `end` are opaque integers. Nothing fires on a clock.
- The stubs with empty bodies are not modelled: `addUserToGroup`, `removeUserFromGroup`, and Eventing's `create`, `getByName`, `getHost`, `register`, `unregister` and `delete`. The event handlers (server/routes.ts:271-311) are comment-only and are left out too. `Deallocate` and `Expire` are modelled as the no-ops they are.
- The handlers for users, posts, friends and locations only call concepts that are not part of this model.
- The handler `getGroups` is left out because it only forwards to `Grouping.getAllGroups`, which is modelled as `Grouping.GetAllGroups`.
- HTTP routing, zod validation and response serialisation.
- Concurrency: every `await` chain is taken as one sequential step.
