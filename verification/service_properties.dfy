/**
  Properties of the directory that relate one call to the lookups and queries
  made after it: the age rule, lookup after create and delete, the
  immutability of birth dates, and the range query after a create.
 */
module ServiceProperties {
  import opened Results
  import opened Dates
  import opened Users
  import opened UserService

  /**
    For a birth date on or before today, a candidate is refused exactly when
    its everyday age in whole years is below the minimum.
   */
  lemma CreateUserAgeRule(s: Store, candidate: User, minimalAge: int, today: Date)
    requires ValidDate(candidate.birthDate) && ValidDate(today)
    requires !Before(today, candidate.birthDate)
    ensures CreateUser(s, candidate, minimalAge, today).result.Err?
        <==> AgeInYears(candidate.birthDate, today) < minimalAge
  {

  }

  /**
    The age check alone does not refuse a birth date later this year: its
    period counts zero years, which meets a minimum of zero.
   */
  lemma CreateUserAdmitsFutureBirthDate(s: Store, candidate: User, minimalAge: int, today: Date)
    requires ValidDate(candidate.birthDate) && ValidDate(today)
    requires Before(today, candidate.birthDate) && today.year == candidate.birthDate.year
    requires minimalAge <= 0
    ensures CreateUser(s, candidate, minimalAge, today).result.Ok?
  {

  }

  /**
    After a successful create the new record is found under its id, and
    every other id is found (or not) exactly as before.
   */
  lemma CreateThenFind(s: Store, candidate: User, minimalAge: int, today: Date, other: int)
    requires Valid(s)
    requires CreateUser(s, candidate, minimalAge, today).result.Ok?
    ensures
      var r := CreateUser(s, candidate, minimalAge, today);
      && FindUserById(r.store, r.result.value.id) == Ok(r.result.value)
      && (other != r.result.value.id ==> FindUserById(r.store, other) == FindUserById(s, other))
  {
    var r := CreateUser(s, candidate, minimalAge, today);
    var u := r.result.value;
    assert r.store.users[|s.users|] == u;
    assert u in r.store.users;
    if other != u.id {
      match IndexOf(s.users, other)
      case None =>
        assert forall v :: v in r.store.users ==> v in s.users || v == u;
      case Some(i) =>
        assert r.store.users[i] == s.users[i];
    }
  }

  /**
    After a successful delete the id is no longer found, every other id is
    found (or not) exactly as before, and the ids stay distinct and below
    the counter.
   */
  lemma DeleteThenFind(s: Store, id: int, other: int)
    requires Valid(s)
    requires DeletedUser(s, id).result.Ok?
    ensures
      var r := DeletedUser(s, id);
      && Valid(r.store)
      && FindUserById(r.store, id) == Err(UserNotFound(id))
      && (other != id ==> FindUserById(r.store, other) == FindUserById(s, other))
  {
    DeletedUserRemovesAt(s, id);
    var i := IndexOf(s.users, id).value;
    var t := Store(s.users[..i] + s.users[i + 1..], s.nextId);
    RemovedAtShifts(s.users, i, t.users);
    RemovedIdIsGone(s, i, t);
    if other != id {
      OthersUnaffected(s, i, t, other);
    }
  }

  /** A successful delete removes the record at the position the lookup found. */
  lemma DeletedUserRemovesAt(s: Store, id: int)
    requires DeletedUser(s, id).result.Ok?
    ensures IndexOf(s.users, id).Some?
    ensures
      var i := IndexOf(s.users, id).value;
      DeletedUser(s, id).store == Store(s.users[..i] + s.users[i + 1..], s.nextId)
  {
    var i := IndexOf(s.users, id).value;
    RemoveFirstAt(s.users, s.users[i], i);
  }

  lemma RemovedIdIsGone(s: Store, i: nat, t: Store)
    requires Valid(s) && i < |s.users|
    requires t.nextId == s.nextId && |t.users| == |s.users| - 1
    requires forall k :: 0 <= k < i ==> t.users[k] == s.users[k]
    requires forall k :: i <= k < |t.users| ==> t.users[k] == s.users[k + 1]
    ensures Valid(t)
    ensures forall v :: v in t.users ==> v.id != s.users[i].id
  {
    forall v | v in t.users ensures v.id != s.users[i].id {
      var k :| 0 <= k < |t.users| && t.users[k] == v;
      if k >= i {
        assert t.users[k] == s.users[k + 1];
      }
    }
    forall a, b | 0 <= a < b < |t.users| ensures t.users[a].id != t.users[b].id {
      var a' := if a < i then a else a + 1;
      var b' := if b < i then b else b + 1;
      assert t.users[a] == s.users[a'] && t.users[b] == s.users[b'];
    }
  }

  lemma OthersUnaffected(s: Store, i: nat, t: Store, other: int)
    requires i < |s.users| && other != s.users[i].id
    requires |t.users| == |s.users| - 1
    requires forall k :: 0 <= k < i ==> t.users[k] == s.users[k]
    requires forall k :: i <= k < |t.users| ==> t.users[k] == s.users[k + 1]
    ensures FindUserById(t, other) == FindUserById(s, other)
  {
    match IndexOf(s.users, other)
    case None =>
      forall k | 0 <= k < |t.users| ensures t.users[k].id != other {
        if k >= i {
          assert t.users[k] == s.users[k + 1];
        }
      }
      assert IndexOf(t.users, other).None?;
    case Some(j) =>
      var k := if j < i then j else j - 1;
      assert t.users[k] == s.users[j];
      forall m | 0 <= m < k ensures t.users[m].id != other {
        if m >= i {
          assert t.users[m] == s.users[m + 1];
        }
      }
      assert IndexOf(t.users, other) == Some(k);
  }

  /**
    A successful full update replaces the record in place, and a lookup of
    the id afterwards yields the updated record.
   */
  lemma UpdateUserThenFind(s: Store, id: int, candidate: User)
    requires Valid(s)
    requires UpdateUser(s, id, candidate).result.Ok?
    ensures
      var r := UpdateUser(s, id, candidate);
      && r.store == s.(users := s.users[IndexOf(s.users, id).value := r.result.value])
      && FindUserById(r.store, id) == r.result
  {
    var r := UpdateUser(s, id, candidate);
    var i := IndexOf(s.users, id).value;
    assert r.store.users[i] == r.result.value;
  }

  /** A full update whose birth date differs from the stored one is refused and changes nothing. */
  lemma UpdateUserRefusesBirthDateChange(s: Store, id: int, candidate: User)
    requires FindUserById(s, id).Ok?
    requires FindUserById(s, id).value.birthDate != candidate.birthDate
    ensures UpdateUser(s, id, candidate) == Step(s, Err(IllegalArgument(BirthDateChange)))
  {
  }

  /** Any record carrying an id in both stores carries the same birth date in both. */
  ghost predicate BirthDatesKept(s: Store, t: Store) {
    forall u, v :: u in s.users && v in t.users && u.id == v.id ==> u.birthDate == v.birthDate
  }

  /** Two stores of equal length agreeing position by position on ids and birth dates. */
  lemma KeptPositionwise(s: Store, t: Store)
    requires Valid(s)
    requires |t.users| == |s.users|
    requires forall i :: 0 <= i < |s.users| ==>
      t.users[i].id == s.users[i].id && t.users[i].birthDate == s.users[i].birthDate
    ensures BirthDatesKept(s, t)
  {
    forall u, v | u in s.users && v in t.users && u.id == v.id
      ensures u.birthDate == v.birthDate
    {
      var i :| 0 <= i < |s.users| && s.users[i] == u;
      var j :| 0 <= j < |t.users| && t.users[j] == v;
      assert s.users[j].id == u.id;
    }
  }

  /** No call of the service changes the birth date stored under an id. */
  lemma BirthDateNeverChanges(s: Store, candidate: User, minimalAge: int, today: Date,
                              id: int, fields: seq<Entry>)
    requires Valid(s)
    ensures BirthDatesKept(s, CreateUser(s, candidate, minimalAge, today).store)
    ensures BirthDatesKept(s, UpdateUserFields(s, id, fields).store)
    ensures BirthDatesKept(s, UpdateUser(s, id, candidate).store)
    ensures BirthDatesKept(s, DeletedUser(s, id).store)
  {
    CreateKeepsBirthDates(s, candidate, minimalAge, today);
    KeptPositionwise(s, UpdateUserFields(s, id, fields).store);
    KeptPositionwise(s, UpdateUser(s, id, candidate).store);
    DeleteKeepsBirthDates(s, id);
  }

  lemma CreateKeepsBirthDates(s: Store, candidate: User, minimalAge: int, today: Date)
    requires Valid(s)
    ensures BirthDatesKept(s, CreateUser(s, candidate, minimalAge, today).store)
  {
    var t := CreateUser(s, candidate, minimalAge, today).store;
    forall u, v | u in s.users && v in t.users && u.id == v.id
      ensures u.birthDate == v.birthDate
    {
      var i :| 0 <= i < |s.users| && s.users[i] == u;
      var j :| 0 <= j < |t.users| && t.users[j] == v;
      if j < |s.users| {
        assert t.users[j] == s.users[j];
      }
    }
  }

  lemma DeleteKeepsBirthDates(s: Store, id: int)
    requires Valid(s)
    ensures BirthDatesKept(s, DeletedUser(s, id).store)
  {
    if DeletedUser(s, id).result.Ok? {
      DeletedUserRemovesAt(s, id);
      var i := IndexOf(s.users, id).value;
      var t := Store(s.users[..i] + s.users[i + 1..], s.nextId);
      RemovedAtShifts(s.users, i, t.users);
      RemovalKeepsBirthDates(s, i, t);
    }
  }

  /** Positions of a list with one element removed, against the original list. */
  lemma RemovedAtShifts(xs: seq<User>, i: nat, ys: seq<User>)
    requires i < |xs| && ys == xs[..i] + xs[i + 1..]
    ensures |ys| == |xs| - 1
    ensures forall k :: 0 <= k < i ==> ys[k] == xs[k]
    ensures forall k :: i <= k < |ys| ==> ys[k] == xs[k + 1]
  {
  }

  lemma RemovalKeepsBirthDates(s: Store, i: nat, t: Store)
    requires Valid(s) && i < |s.users|
    requires |t.users| == |s.users| - 1
    requires forall k :: 0 <= k < i ==> t.users[k] == s.users[k]
    requires forall k :: i <= k < |t.users| ==> t.users[k] == s.users[k + 1]
    ensures BirthDatesKept(s, t)
  {
    forall u, v | u in s.users && v in t.users && u.id == v.id
      ensures u.birthDate == v.birthDate
    {
      var k :| 0 <= k < |t.users| && t.users[k] == v;
      var j := if k < i then k else k + 1;
      assert v == s.users[j];
      var m :| 0 <= m < |s.users| && s.users[m] == u;
    }
  }

  /** The range filter distributes over concatenation. */
  lemma {:induction false} FilterBornAppend(a: seq<User>, b: seq<User>, from: Date, to: Date)
    ensures FilterBorn(a + b, from, to) == FilterBorn(a, from, to) + FilterBorn(b, from, to)
    decreases |a|
  {
    if |a| == 0 {
      assert a + b == b;
    } else {
      assert (a + b)[0] == a[0];
      assert (a + b)[1..] == a[1..] + b;
      FilterBornAppend(a[1..], b, from, to);
    }
  }

  /**
    A range query after a successful create returns what it returned before,
    followed by the new record when that record was born inside the range.
   */
  lemma CreateThenRange(s: Store, candidate: User, minimalAge: int, today: Date, from: Date, to: Date)
    requires CreateUser(s, candidate, minimalAge, today).result.Ok?
    requires Before(from, to)
    ensures
      var r := CreateUser(s, candidate, minimalAge, today);
      var u := r.result.value;
      FindUsersByBirthDateRange(r.store, from, to)
        == Ok(FindUsersByBirthDateRange(s, from, to).value
              + (if BornWithin(u, from, to) then [u] else []))
  {
    var r := CreateUser(s, candidate, minimalAge, today);
    var u := r.result.value;
    FilterBornAppend(s.users, [u], from, to);
    FilterBornSingle(u, from, to);
  }

  lemma FilterBornSingle(u: User, from: Date, to: Date)
    ensures FilterBorn([u], from, to) == if BornWithin(u, from, to) then [u] else []
  {
    assert [u][1..] == [];
  }
}
