/** The Grouping concept: a registry of groups, each with an owner, a member
    list, a capacity, a privacy flag and a location. */
module Grouping {
  import opened Collection

  /** A stored group. `capacity` is kept as the text the caller gave; the
      conversion to a JavaScript number is not modelled. */
  datatype GroupDoc = GroupDoc(
    name: string,
    owner: Id,
    members: seq<Id>,
    capacity: string,
    privacy: bool,
    location: Id)

  /** Nothing ever adds or removes members, so every group has exactly its
      owner as member. */
  ghost predicate MembersAreOwner(groups: map<Id, GroupDoc>) {
    forall id :: id in groups ==> groups[id].members == [groups[id].owner]
  }

  /** No two groups share a name: what creating groups through
      `assertGoodInputs` maintains. */
  ghost predicate UniqueNames(groups: map<Id, GroupDoc>) {
    forall i, j :: i in groups && j in groups && i != j ==> groups[i].name != groups[j].name
  }

  predicate NameTaken(groups: map<Id, GroupDoc>, name: string) {
    exists id | id in groups :: groups[id].name == name
  }

  // ---------------------------------------------------------------------
  // The capacity language ^-?\d+(\.\d+)?$

  predicate IsDigit(c: char) {
    '0' <= c <= '9'
  }

  /** One or more ASCII digits: `\d+`. */
  predicate IsDigits(s: string) {
    |s| > 0 && forall i :: 0 <= i < |s| ==> IsDigit(s[i])
  }

  /** The optional tail of the pattern: empty, or a point followed by
      `\d+`. */
  predicate IsFraction(f: string) {
    f == "" || (f[0] == '.' && IsDigits(f[1..]))
  }

  /** `s` reads as `sign`, then `whole`, then `fraction`, each of the shape
      the pattern asks for. */
  predicate IsPatternSplit(s: string, sign: string, whole: string, fraction: string) {
    && s == sign + whole + fraction
    && (sign == "" || sign == "-")
    && IsDigits(whole)
    && IsFraction(fraction)
  }

  /** The strings the capacity pattern accepts, read off the pattern: an
      optional minus sign, one or more digits, then optionally a point and
      one or more digits, and nothing else. */
  ghost predicate MatchesCapacityPattern(s: string) {
    exists sign: string, whole: string, fraction: string :: IsPatternSplit(s, sign, whole, fraction)
  }

  /** The position of the first `c` in `s`, or `|s|` when there is none. */
  function IndexOf(s: string, c: char): (k: nat)
    ensures k <= |s|
    ensures forall i :: 0 <= i < k ==> s[i] != c
    ensures k < |s| ==> s[k] == c
  {
    if |s| == 0 then 0
    else if s[0] == c then 0
    else 1 + IndexOf(s[1..], c)
  }

  /** The leading minus sign of `s`, if it has one. */
  function SignOf(s: string): string {
    if |s| > 0 && s[0] == '-' then "-" else ""
  }

  /** Evaluates the unsigned part of the pattern: split at the first point
      and require digits before it and a well-formed fraction from it on. */
  predicate IsUnsignedNumber(body: string) {
    var dot := IndexOf(body, '.');
    IsDigits(body[..dot]) && IsFraction(body[dot..])
  }

  /** Evaluates the capacity pattern: drop one leading minus sign and read
      the rest as an unsigned number. */
  predicate IsNumericCapacity(s: string) {
    IsUnsignedNumber(s[|SignOf(s)|..])
  }

  /** The evaluator accepts exactly the language of the pattern. */
  lemma CapacityCheckIsPattern(s: string)
    ensures IsNumericCapacity(s) <==> MatchesCapacityPattern(s)
  {
    if IsNumericCapacity(s) {
      CapacityCheckSound(s);
    }
    if MatchesCapacityPattern(s) {
      var sign: string, whole: string, fraction: string :| IsPatternSplit(s, sign, whole, fraction);
      CapacityCheckComplete(s, sign, whole, fraction);
    }
  }

  lemma CapacityCheckSound(s: string)
    requires IsNumericCapacity(s)
    ensures MatchesCapacityPattern(s)
  {
    var sign := SignOf(s);
    var body := s[|sign|..];
    assert s == sign + body;
    var dot := IndexOf(body, '.');
    var whole, fraction := body[..dot], body[dot..];
    assert body == whole + fraction;
    assert IsPatternSplit(s, sign, whole, fraction);
  }

  lemma CapacityCheckComplete(s: string, sign: string, whole: string, fraction: string)
    requires IsPatternSplit(s, sign, whole, fraction)
    ensures IsNumericCapacity(s)
  {
    var body := whole + fraction;
    assert s == sign + body;
    assert SignOf(s) == sign by {
      assert s[|sign|] == whole[0];
    }
    assert s[|sign|..] == body;
    UnsignedComplete(whole, fraction);
  }

  lemma UnsignedComplete(whole: string, fraction: string)
    requires IsDigits(whole)
    requires IsFraction(fraction)
    ensures IsUnsignedNumber(whole + fraction)
  {
    var body := whole + fraction;
    var dot := IndexOf(body, '.');
    if fraction != "" {
      assert body[|whole|] == '.';
    }
    assert dot == |whole|;
    assert body[..dot] == whole && body[dot..] == fraction;
  }

  /** The cases the pattern is meant to separate: a negative integer and a
      decimal pass; the empty string, a trailing point and a letter fail. */
  lemma CapacityExamples()
    ensures MatchesCapacityPattern("-3")
    ensures MatchesCapacityPattern("2.5")
    ensures !MatchesCapacityPattern("")
    ensures !MatchesCapacityPattern("3.")
    ensures !MatchesCapacityPattern("a")
  {
    CapacityCheckIsPattern("-3");
    CapacityCheckIsPattern("2.5");
    CapacityCheckIsPattern("");
    CapacityCheckIsPattern("3.");
    CapacityCheckIsPattern("a");
    assert "2.5"[..1] == "2" && "2.5"[1..] == ".5";
    assert "3."[..1] == "3" && "3."[1..] == ".";
  }

  // ---------------------------------------------------------------------
  // Read-only checks and queries

  /** NotFound when the group is absent, otherwise NotAllowed unless `user`
      owns it. */
  function AssertOwnerIsUser(groups: map<Id, GroupDoc>, id: Id, user: Id): (r: Outcome)
    ensures id !in groups ==> r == Fail(NotFound)
    ensures id in groups && groups[id].owner != user ==> r == Fail(NotAllowed)
    ensures r == Pass <==> id in groups && groups[id].owner == user
  {
    if id !in groups then Fail(NotFound)
    else if groups[id].owner != user then Fail(NotAllowed)
    else Pass
  }

  /** Validates the inputs of a new group, in this order: the name is not
      taken (AlreadyExists), privacy is "true" or "false" (BadValues), and
      the capacity matches the numeric pattern (BadValues). */
  function AssertGoodInputs(groups: map<Id, GroupDoc>, name: string, privacy: string, capacity: string): (r: Outcome)
    ensures NameTaken(groups, name) ==> r == Fail(AlreadyExists)
    ensures !NameTaken(groups, name) && privacy != "true" && privacy != "false" ==> r == Fail(BadValues)
    ensures (!NameTaken(groups, name) && (privacy == "true" || privacy == "false") &&
             !MatchesCapacityPattern(capacity)) ==> r == Fail(BadValues)
    ensures r == Pass <==>
      !NameTaken(groups, name) && (privacy == "true" || privacy == "false") && MatchesCapacityPattern(capacity)
  {
    CapacityCheckIsPattern(capacity);
    if NameTaken(groups, name) then Fail(AlreadyExists)
    else if privacy != "true" && privacy != "false" then Fail(BadValues)
    else if !IsNumericCapacity(capacity) then Fail(BadValues)
    else Pass
  }

  /** NotFound exactly when no group has the id. */
  function AssertGroupExists(groups: map<Id, GroupDoc>, id: Id): (r: Outcome)
    ensures r == Pass || r == Fail(NotFound)
    ensures r == Pass <==> id in groups
  {
    if id in groups then Pass else Fail(NotFound)
  }

  /** The owner of the group, or nothing (`undefined`) when it is absent. */
  function GetOwner(groups: map<Id, GroupDoc>, id: Id): (r: Option<Id>)
    ensures r.Some? <==> id in groups
    ensures r.Some? ==> r.value == groups[id].owner
  {
    if id in groups then Some(groups[id].owner) else None
  }

  /** Every group, newest first. */
  function GetAllGroups(groups: map<Id, GroupDoc>): (r: seq<(Id, GroupDoc)>)
    ensures forall i, j :: 0 <= i < j < |r| ==> r[i].0 > r[j].0
    ensures forall p :: p in r ==> p.0 in groups && groups[p.0] == p.1
    ensures forall id :: id in groups ==> (id, groups[id]) in r
  {
    ReadAllNewestFirst(groups)
  }

  /** The groups `owner` owns. */
  function GetByOwner(groups: map<Id, GroupDoc>, owner: Id): (r: map<Id, GroupDoc>)
    ensures forall id :: id in r <==> id in groups && groups[id].owner == owner
    ensures forall id :: id in r ==> r[id] == groups[id]
  {
    Where(groups, (g: GroupDoc) => g.owner == owner)
  }

  /** The groups called `name`. */
  function GetByName(groups: map<Id, GroupDoc>, name: string): (r: map<Id, GroupDoc>)
    ensures forall id :: id in r <==> id in groups && groups[id].name == name
    ensures forall id :: id in r ==> r[id] == groups[id]
  {
    Where(groups, (g: GroupDoc) => g.name == name)
  }

  /** The owner check passes for the owner `getOwner` reports, and for no
      other user. */
  lemma OwnerCheckAgreesWithGetOwner(groups: map<Id, GroupDoc>, id: Id, user: Id)
    requires id in groups
    ensures AssertOwnerIsUser(groups, id, user) == Pass <==> GetOwner(groups, id) == Some(user)
  {
  }

  /** A group whose inputs passed the checks can be added under a fresh id
      without creating a second group of that name. */
  lemma CheckedInsertKeepsNamesUnique(groups: map<Id, GroupDoc>, id: Id, group: GroupDoc, privacy: string, capacity: string)
    requires UniqueNames(groups)
    requires id !in groups
    requires AssertGoodInputs(groups, group.name, privacy, capacity) == Pass
    ensures UniqueNames(groups[id := group])
  {
  }

  // ---------------------------------------------------------------------
  // The concept

  class GroupingConcept {
    var groups: map<Id, GroupDoc>
    var nextId: Id

    ghost predicate Valid()
      reads this
    {
      IdsBelow(groups, nextId) && MembersAreOwner(groups)
    }

    constructor ()
      ensures Valid() && groups == map[]
    {
      groups := map[];
      nextId := 0;
    }

    /** Stores a new group whose only member is its owner; private iff the
        privacy text is exactly "true". It checks nothing itself. */
    method Create(name: string, owner: Id, capacity: string, privacy: string, location: Id)
      returns (id: Id, group: GroupDoc)
      requires Valid()
      modifies this
      ensures Valid()
      ensures id !in old(groups)
      ensures group.members == [owner] && group.owner == owner
      ensures group.privacy <==> privacy == "true"
      ensures group == GroupDoc(name, owner, [owner], capacity, privacy == "true", location)
      ensures groups == old(groups)[id := group]
    {
      id := nextId;
      group := GroupDoc(name, owner, [owner], capacity, privacy == "true", location);
      groups := groups[id := group];
      nextId := nextId + 1;
    }

    /** Removes a group: NotFound if it is absent, NotAllowed unless `user`
        owns it; otherwise removes exactly that group. */
    method Disband(id: Id, user: Id) returns (r: Outcome)
      requires Valid()
      modifies this
      ensures Valid()
      ensures id !in old(groups) ==> r == Fail(NotFound)
      ensures id in old(groups) && old(groups)[id].owner != user ==> r == Fail(NotAllowed)
      ensures r.Fail? ==> groups == old(groups)
      ensures r == Pass <==> id in old(groups) && old(groups)[id].owner == user
      ensures r == Pass ==> groups == old(groups) - {id}
    {
      r := AssertOwnerIsUser(groups, id, user);
      if r.Fail? {
        return;
      }
      groups := groups - {id};
    }
  }
}
