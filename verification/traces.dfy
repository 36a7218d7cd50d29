/**
  Sequences of calls on one service instance. Whatever calls are made, the
  ids stay distinct and below the counter, every id handed out is larger
  than all ids handed out before it (so none is ever reused, deleted or
  not), and the birth date found under an id never changes.
 */
module Traces {
  import opened Results
  import opened Dates
  import opened Users
  import opened UserService
  import opened ServiceProperties

  /** One call on the service; a create carries the clock reading it is made at. */
  datatype Call =
    | Create(candidate: User, today: Date)
    | UpdateFields(id: int, fields: seq<Entry>)
    | Update(id: int, candidate: User)
    | Delete(id: int)
    | FindByBirthDateRange(from: Date, to: Date)

  /** The store after one call, whether the call returned or raised. */
  function Perform(s: Store, c: Call, minimalAge: int): Store {
    match c
    case Create(candidate, today) => CreateUser(s, candidate, minimalAge, today).store
    case UpdateFields(id, fields) => UpdateUserFields(s, id, fields).store
    case Update(id, candidate) => UpdateUser(s, id, candidate).store
    case Delete(id) => DeletedUser(s, id).store
    case FindByBirthDateRange(_, _) => s
  }

  /** The id a call hands out: only a successful create hands one out. */
  function Assigned(s: Store, c: Call, minimalAge: int): Option<int> {
    match c
    case Create(candidate, today) =>
      var r := CreateUser(s, candidate, minimalAge, today);
      if r.result.Ok? then Some(r.result.value.id) else None
    case _ => None
  }

  function Run(s: Store, calls: seq<Call>, minimalAge: int): Store
    decreases |calls|
  {
    if |calls| == 0 then s
    else Run(Perform(s, calls[0], minimalAge), calls[1..], minimalAge)
  }

  /** The ids handed out along a run, in the order they were handed out. */
  function AssignedIds(s: Store, calls: seq<Call>, minimalAge: int): seq<int>
    decreases |calls|
  {
    if |calls| == 0 then []
    else
      var first := match Assigned(s, calls[0], minimalAge)
        case Some(id) => [id]
        case None => [];
      first + AssignedIds(Perform(s, calls[0], minimalAge), calls[1..], minimalAge)
  }

  /** One call keeps the ids distinct and below the counter, and never lowers the counter. */
  lemma PerformPreservesValid(s: Store, c: Call, minimalAge: int)
    requires Valid(s)
    ensures Valid(Perform(s, c, minimalAge))
    ensures Perform(s, c, minimalAge).nextId >= s.nextId
    ensures Assigned(s, c, minimalAge).Some? ==>
      && Assigned(s, c, minimalAge).value == s.nextId
      && Perform(s, c, minimalAge).nextId == s.nextId + 1
    ensures Assigned(s, c, minimalAge).None? ==> Perform(s, c, minimalAge).nextId == s.nextId
  {
    if c.Delete? && DeletedUser(s, c.id).result.Ok? {
      DeleteThenFind(s, c.id, c.id);
    }
  }

  /** Any run from a consistent store ends in a consistent store with a counter no lower. */
  lemma {:induction false} RunPreservesValid(s: Store, calls: seq<Call>, minimalAge: int)
    requires Valid(s)
    ensures Valid(Run(s, calls, minimalAge))
    ensures Run(s, calls, minimalAge).nextId >= s.nextId
    decreases |calls|
  {
    if |calls| > 0 {
      PerformPreservesValid(s, calls[0], minimalAge);
      RunPreservesValid(Perform(s, calls[0], minimalAge), calls[1..], minimalAge);
    }
  }

  /** Strictly increasing, with every element in [lo, hi). */
  predicate IncreasingWithin(ids: seq<int>, lo: int, hi: int) {
    && (forall k :: 0 <= k < |ids| ==> lo <= ids[k] < hi)
    && (forall j, k :: 0 <= j < k < |ids| ==> ids[j] < ids[k])
  }

  lemma PrependIncreasing(id: int, rest: seq<int>, hi: int)
    requires IncreasingWithin(rest, id + 1, hi) && id < hi
    ensures IncreasingWithin([id] + rest, id, hi)
  {
    var ids := [id] + rest;
    assert forall k :: 1 <= k < |ids| ==> ids[k] == rest[k - 1];
  }

  /**
    The ids handed out along a run are strictly increasing, start at the
    counter's value and stay below its final value: no id is handed out twice,
    and none that a record carried when the run began.
   */
  lemma {:induction false} AssignedIdsIncrease(s: Store, calls: seq<Call>, minimalAge: int)
    requires Valid(s)
    ensures IncreasingWithin(AssignedIds(s, calls, minimalAge), s.nextId, Run(s, calls, minimalAge).nextId)
    decreases |calls|
  {
    if |calls| > 0 {
      var t := Perform(s, calls[0], minimalAge);
      var hi := Run(s, calls, minimalAge).nextId;
      assert hi == Run(t, calls[1..], minimalAge).nextId;
      PerformPreservesValid(s, calls[0], minimalAge);
      AssignedIdsIncrease(t, calls[1..], minimalAge);
      RunPreservesValid(t, calls[1..], minimalAge);
      var rest := AssignedIds(t, calls[1..], minimalAge);
      match Assigned(s, calls[0], minimalAge)
      case None =>
        assert AssignedIds(s, calls, minimalAge) == rest;
      case Some(id) =>
        assert AssignedIds(s, calls, minimalAge) == [id] + rest;
        PrependIncreasing(id, rest, hi);
    }
  }

  /** Equal ids position by position give equal first positions for every id. */
  lemma {:induction false} IndexOfSameIds(xs: seq<User>, ys: seq<User>, id: int)
    requires |xs| == |ys|
    requires forall i :: 0 <= i < |xs| ==> xs[i].id == ys[i].id
    ensures IndexOf(xs, id) == IndexOf(ys, id)
    decreases |xs|
  {
    if |xs| > 0 && xs[0].id != id {
      IndexOfSameIds(xs[1..], ys[1..], id);
    }
  }

  /**
    An id below the counter that is found after a call was found before it,
    with the same birth date: no call brings a record back or alters a
    birth date.
   */
  lemma LookupAfterCall(s: Store, c: Call, minimalAge: int, id: int)
    requires Valid(s) && id < s.nextId
    requires FindUserById(Perform(s, c, minimalAge), id).Ok?
    ensures FindUserById(s, id).Ok?
    ensures FindUserById(s, id).value.birthDate
         == FindUserById(Perform(s, c, minimalAge), id).value.birthDate
  {
    var t := Perform(s, c, minimalAge);
    match c
    case Create(candidate, today) =>
      if CreateUser(s, candidate, minimalAge, today).result.Ok? {
        CreateThenFind(s, candidate, minimalAge, today, id);
      }
    case UpdateFields(_, _) =>
      IndexOfSameIds(s.users, t.users, id);
    case Update(_, _) =>
      IndexOfSameIds(s.users, t.users, id);
    case Delete(x) =>
      if DeletedUser(s, x).result.Ok? {
        DeleteThenFind(s, x, id);
      }
    case FindByBirthDateRange(_, _) =>
  }

  /**
    Over any run, a record found under an id at the start and one found under
    the same id at the end carry the same birth date.
   */
  lemma {:induction false} BirthDateStableOverRun(s: Store, calls: seq<Call>, minimalAge: int, id: int)
    requires Valid(s)
    ensures FindUserById(s, id).Ok? && FindUserById(Run(s, calls, minimalAge), id).Ok? ==>
      FindUserById(s, id).value.birthDate == FindUserById(Run(s, calls, minimalAge), id).value.birthDate
    decreases |calls|
  {
    if |calls| > 0 && FindUserById(s, id).Ok? && FindUserById(Run(s, calls, minimalAge), id).Ok? {
      var t := Perform(s, calls[0], minimalAge);
      PerformPreservesValid(s, calls[0], minimalAge);
      FoundBelowCounter(t, calls[1..], minimalAge, id);
      LookupAfterCall(s, calls[0], minimalAge, id);
      BirthDateStableOverRun(t, calls[1..], minimalAge, id);
    }
  }

  /**
    An id found at the end of a run, and below the counter where the run
    began, was found at every earlier point of it.
   */
  lemma {:induction false} FoundBelowCounter(s: Store, calls: seq<Call>, minimalAge: int, id: int)
    requires Valid(s)
    requires FindUserById(Run(s, calls, minimalAge), id).Ok?
    requires FindUserById(s, id).Ok? || id < s.nextId
    ensures FindUserById(s, id).Ok?
    decreases |calls|
  {
    if |calls| > 0 {
      var t := Perform(s, calls[0], minimalAge);
      PerformPreservesValid(s, calls[0], minimalAge);
      if FindUserById(s, id).Err? {
        FoundBelowCounter(t, calls[1..], minimalAge, id);
        LookupAfterCall(s, calls[0], minimalAge, id);
      }
    }
  }
}
