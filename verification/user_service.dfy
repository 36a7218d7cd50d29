/**
  The in-memory user directory: an ordered list of records and the next id to
  hand out. Every call takes the store and returns a `Step` holding the store
  as the call leaves it together with the value returned or the exception
  raised. The clock and the configured minimum age are parameters.
 */
module UserService {
  import opened Results
  import opened Dates
  import opened Users

  /** The service's state: the list `users` and the counter `nextId`. */
  datatype Store = Store(users: seq<User>, nextId: int)

  /** What a call leaves behind: the store after it, and its outcome. */
  datatype Step<+T> = Step(store: Store, result: Result<T>)

  /** One key/value pair of a partial update, in the order the map yields them. */
  datatype Entry = Entry(name: string, value: string)

  /** The record after a partial update stopped, and the error it stopped on, if any. */
  datatype Applied = Applied(user: User, failure: Option<Error>)

  /** Stored ids are distinct, and all lie in [1, nextId). */
  predicate Valid(s: Store) {
    && s.nextId >= 1
    && (forall i :: 0 <= i < |s.users| ==> 1 <= s.users[i].id < s.nextId)
    && (forall i, j :: 0 <= i < j < |s.users| ==> s.users[i].id != s.users[j].id)
  }

  /** The store of a freshly constructed service. */
  function Init(): (s: Store)
    ensures Valid(s)
    ensures |s.users| == 0
  {
    Store([], 1)
  }

  /** `xs` is what remains of `ys` after dropping some of its elements. */
  predicate IsSubsequence<T(==)>(xs: seq<T>, ys: seq<T>)
    decreases |ys|
  {
    if |ys| == 0 then |xs| == 0
    else (|xs| > 0 && xs[0] == ys[0] && IsSubsequence(xs[1..], ys[1..]))
         || IsSubsequence(xs, ys[1..])
  }

  /** Position of the first record carrying `id`: the stream's `filter(...).findFirst()`. */
  function IndexOf(users: seq<User>, id: int): (r: Option<nat>)
    ensures r.Some? ==> r.value < |users| && users[r.value].id == id
    ensures r.Some? ==> forall j :: 0 <= j < r.value ==> users[j].id != id
    ensures r.None? <==> forall j :: 0 <= j < |users| ==> users[j].id != id
  {
    if |users| == 0 then None
    else if users[0].id == id then Some(0)
    else match IndexOf(users[1..], id)
      case None => None
      case Some(k) => Some(k + 1)
  }

  /** `findUserById`: the first record with the id, or `UserNotFoundException`. */
  function FindUserById(s: Store, id: int): (r: Result<User>)
    ensures r.Ok? ==> r.value in s.users && r.value.id == id
    ensures r.Err? <==> forall u :: u in s.users ==> u.id != id
    ensures r.Err? ==> r.error == UserNotFound(id)
    ensures Valid(s) && r.Ok? ==> forall u :: u in s.users && u.id == id ==> u == r.value
  {
    match IndexOf(s.users, id)
    case None => Err(UserNotFound(id))
    case Some(i) => Ok(s.users[i])
  }

  /**
    `isUserHasMinimalAge`: whole years from birth to today reach the minimum;
    for a birth date on or before today, the everyday age reaches it.
   */
  predicate HasMinimalAge(birthDate: Date, today: Date, minimalAge: int)
    ensures ValidDate(birthDate) && ValidDate(today) && !Before(today, birthDate) ==>
      (HasMinimalAge(birthDate, today, minimalAge) <==> AgeInYears(birthDate, today) >= minimalAge)
  {
    PeriodYears(birthDate, today) >= minimalAge
  }

  /**
    `createUser`: refuses a candidate under the minimum age; otherwise stamps
    it with the counter's value, advances the counter and appends the record.
    The candidate's own id is ignored.
   */
  function CreateUser(s: Store, candidate: User, minimalAge: int, today: Date): (r: Step<User>)
    ensures r.result.Err? <==> PeriodYears(candidate.birthDate, today) < minimalAge
    ensures r.result.Err? ==> r == Step(s, Err(InvalidAge))
    ensures r.result.Ok? ==>
      && r.result.value.id == s.nextId
      && r.result.value.birthDate == candidate.birthDate
      && (forall f: Field :: Get(r.result.value, f) == Get(candidate, f))
      && r.store.nextId == s.nextId + 1
      && r.store.users == s.users + [r.result.value]
    ensures Valid(s) ==> Valid(r.store)
    ensures Valid(s) && r.result.Ok? ==> forall u :: u in s.users ==> u.id < r.result.value.id
  {
    if !HasMinimalAge(candidate.birthDate, today, minimalAge) then
      Step(s, Err(InvalidAge))
    else
      var user := candidate.(id := s.nextId);
      Step(Store(s.users + [user], s.nextId + 1), Ok(user))
  }

  /**
    The body of the `forEach` in `updateUserFields`, entry by entry: each
    settable key assigns its value at once; `birthDate` or an unknown key
    stops the walk, and whatever was assigned before it stays assigned.
   */
  function ApplyFields(u: User, fields: seq<Entry>): (r: Applied)
    ensures r.user.id == u.id && r.user.birthDate == u.birthDate
    ensures r.failure.Some? ==> r.failure.value.IllegalArgument?
    decreases |fields|
  {
    if |fields| == 0 then Applied(u, None)
    else match ParseField(fields[0].name)
      case Err(e) => Applied(u, Some(e))
      case Ok(f) => ApplyFields(Set(u, f, fields[0].value), fields[1..])
  }

  /**
    `updateUserFields`: looks the record up, then applies the entries to it in
    place. The record is mutated even when a later entry raises, so the store
    returned on failure carries the entries applied before the failing one.
   */
  function UpdateUserFields(s: Store, id: int, fields: seq<Entry>): (r: Step<User>)
    ensures (forall u :: u in s.users ==> u.id != id) ==> r == Step(s, Err(UserNotFound(id)))
    ensures r.store.nextId == s.nextId && |r.store.users| == |s.users|
    ensures forall i :: 0 <= i < |s.users| ==>
      && r.store.users[i].id == s.users[i].id
      && r.store.users[i].birthDate == s.users[i].birthDate
    ensures r.result.Err? ==> r.result.error.UserNotFound? || r.result.error.IllegalArgument?
    ensures r.result.Ok? ==> r.result.value.id == id && r.result.value in r.store.users
    ensures Valid(s) ==> Valid(r.store)
  {
    match IndexOf(s.users, id)
    case None => Step(s, Err(UserNotFound(id)))
    case Some(i) =>
      var applied := ApplyFields(s.users[i], fields);
      var store := s.(users := s.users[i := applied.user]);
      match applied.failure
      case None => Step(store, Ok(applied.user))
      case Some(e) => Step(store, Err(e))
  }

  /**
    `updateUser`: looks the record up, refuses a different birth date, and
    otherwise overwrites the record's fields with the candidate's in place.
   */
  function UpdateUser(s: Store, id: int, candidate: User): (r: Step<User>)
    ensures (forall u :: u in s.users ==> u.id != id) ==> r == Step(s, Err(UserNotFound(id)))
    ensures r.result.Ok? <==>
      FindUserById(s, id).Ok? && FindUserById(s, id).value.birthDate == candidate.birthDate
    ensures r.result.Err? ==> r.store == s
    ensures FindUserById(s, id).Ok? && r.result.Err? ==>
      r.result.error == IllegalArgument(BirthDateChange)
    ensures r.result.Ok? ==>
      && r.result.value.id == id
      && r.result.value.birthDate == candidate.birthDate
      && (forall f: Field :: Get(r.result.value, f) == Get(candidate, f))
      && IndexOf(s.users, id).Some?
      && r.store == s.(users := s.users[IndexOf(s.users, id).value := r.result.value])
    ensures r.store.nextId == s.nextId && |r.store.users| == |s.users|
    ensures forall i :: 0 <= i < |s.users| ==>
      && r.store.users[i].id == s.users[i].id
      && r.store.users[i].birthDate == s.users[i].birthDate
    ensures Valid(s) ==> Valid(r.store)
  {
    match IndexOf(s.users, id)
    case None => Step(s, Err(UserNotFound(id)))
    case Some(i) =>
      var stored := s.users[i];
      assert FindUserById(s, id) == Ok(stored);
      if stored.birthDate != candidate.birthDate then
        Step(s, Err(IllegalArgument(BirthDateChange)))
      else
        var user := stored.(
          email := candidate.email,
          firstName := candidate.firstName,
          lastName := candidate.lastName,
          birthDate := candidate.birthDate,
          address := candidate.address,
          phoneNumber := candidate.phoneNumber);
        Step(s.(users := s.users[i := user]), Ok(user))
  }

  /** `List.remove(Object)`: drops the first element equal to `x`, if there is one. */
  function RemoveFirst(xs: seq<User>, x: User): (r: seq<User>)
    ensures x !in xs ==> r == xs
    ensures x in xs ==> |r| == |xs| - 1
  {
    if |xs| == 0 then []
    else if xs[0] == x then xs[1..]
    else [xs[0]] + RemoveFirst(xs[1..], x)
  }

  /** Removing the first equal element is removing at its position. */
  lemma {:induction false} RemoveFirstAt(xs: seq<User>, x: User, i: nat)
    requires i < |xs| && xs[i] == x
    requires forall j :: 0 <= j < i ==> xs[j] != x
    ensures RemoveFirst(xs, x) == xs[..i] + xs[i + 1..]
    decreases i
  {
    if i == 0 {
      assert RemoveFirst(xs, x) == xs[1..];
      assert xs[..0] + xs[1..] == xs[1..];
    } else {
      var tail := xs[1..];
      assert RemoveFirst(xs, x) == [xs[0]] + RemoveFirst(tail, x);
      assert forall j :: 0 <= j < i - 1 ==> tail[j] != x by {
        forall j | 0 <= j < i - 1 ensures tail[j] != x {
          assert tail[j] == xs[j + 1];
        }
      }
      RemoveFirstAt(tail, x, i - 1);
      assert tail[..i - 1] == xs[1..i] && tail[i..] == xs[i + 1..];
      assert [xs[0]] + xs[1..i] == xs[..i];
    }
  }

  /**
    `deletedUser`: looks the record up and removes it; the counter is left
    alone, so a deleted id is never handed out again.
   */
  function DeletedUser(s: Store, id: int): (r: Step<()>)
    ensures r.result.Err? <==> forall u :: u in s.users ==> u.id != id
    ensures r.result.Err? ==> r == Step(s, Err(UserNotFound(id)))
    ensures r.store.nextId == s.nextId
    ensures r.result.Ok? ==>
      exists i ::
        && 0 <= i < |s.users|
        && s.users[i].id == id
        && (forall j :: 0 <= j < i ==> s.users[j].id != id)
        && r.store.users == s.users[..i] + s.users[i + 1..]
  {
    match IndexOf(s.users, id)
    case None => Step(s, Err(UserNotFound(id)))
    case Some(i) =>
      var found := s.users[i];
      RemoveFirstAt(s.users, found, i);
      Step(s.(users := RemoveFirst(s.users, found)), Ok(()))
  }

  /**
    Born strictly after `from` and strictly before `to`; only a range whose
    start is before its end holds any birth date.
   */
  predicate BornWithin(u: User, from: Date, to: Date)
    ensures BornWithin(u, from, to) ==> Before(from, to)
  {
    Before(from, u.birthDate) && Before(u.birthDate, to)
  }

  /**
    The stream `filter` of the range query, keeping list order: it never
    grows the list and keeps only in-range records (`FilterBornSpec` states
    that it keeps all of them, each as often, in order).
   */
  function FilterBorn(users: seq<User>, from: Date, to: Date): (r: seq<User>)
    ensures |r| <= |users|
    ensures forall i :: 0 <= i < |r| ==> BornWithin(r[i], from, to)
    decreases |users|
  {
    if |users| == 0 then []
    else if BornWithin(users[0], from, to) then [users[0]] + FilterBorn(users[1..], from, to)
    else FilterBorn(users[1..], from, to)
  }

  /**
    The filter keeps exactly the in-range records, each as often as the list
    holds it, in list order.
   */
  lemma FilterBornSpec(users: seq<User>, from: Date, to: Date)
    ensures forall u :: u in FilterBorn(users, from, to) <==> u in users && BornWithin(u, from, to)
    ensures forall u :: multiset(FilterBorn(users, from, to))[u]
                     == if BornWithin(u, from, to) then multiset(users)[u] else 0
    ensures IsSubsequence(FilterBorn(users, from, to), users)
  {
    FilterBornCounts(users, from, to);
    FilterBornOrder(users, from, to);
  }

  lemma {:induction false} FilterBornCounts(users: seq<User>, from: Date, to: Date)
    ensures forall u :: multiset(FilterBorn(users, from, to))[u]
                     == if BornWithin(u, from, to) then multiset(users)[u] else 0
    decreases |users|
  {
    if |users| > 0 {
      FilterBornCounts(users[1..], from, to);
      assert users == [users[0]] + users[1..];
    }
  }

  lemma {:induction false} FilterBornOrder(users: seq<User>, from: Date, to: Date)
    ensures IsSubsequence(FilterBorn(users, from, to), users)
    decreases |users|
  {
    if |users| > 0 {
      var rest := FilterBorn(users[1..], from, to);
      FilterBornOrder(users[1..], from, to);
      if BornWithin(users[0], from, to) {
        assert ([users[0]] + rest)[1..] == rest;
      }
    }
  }

  /**
    `findUsersByBirthDateRange`: refuses a range whose start is not before its
    end; otherwise the records born strictly inside it, in list order.
   */
  function FindUsersByBirthDateRange(s: Store, from: Date, to: Date): (r: Result<seq<User>>)
    ensures r.Err? <==> !Before(from, to)
    ensures r.Err? ==> r.error == IllegalArgument(RangeNotIncreasing)
    ensures r.Ok? ==> forall u :: u in r.value <==> u in s.users && BornWithin(u, from, to)
    ensures r.Ok? ==> forall u :: multiset(r.value)[u] == if BornWithin(u, from, to) then multiset(s.users)[u] else 0
    ensures r.Ok? ==> IsSubsequence(r.value, s.users)
    ensures r.Ok? && |s.users| == 0 ==> r.value == []
  {
    if !Before(from, to) then Err(IllegalArgument(RangeNotIncreasing))
    else
      FilterBornSpec(s.users, from, to);
      Ok(FilterBorn(s.users, from, to))
  }
}
