/**
  What a partial update does to a record: with only settable keys, each field
  ends up holding the value of the last entry naming it; otherwise the walk
  stops at the first unsettable key with the earlier entries already applied.
  A validate-first variant is given alongside and shown to differ from the
  entry-by-entry original only in the store it leaves behind on failure.
 */
module PartialUpdate {
  import opened Results
  import opened Users
  import opened UserService

  /** Every key names one of the five settable fields. */
  predicate AllSettable(fields: seq<Entry>) {
    forall i :: 0 <= i < |fields| ==> ParseField(fields[i].name).Ok?
  }

  /** The value of the last entry whose key is `name`, if there is one. */
  function LastValue(fields: seq<Entry>, name: string): (r: Option<string>)
    ensures r.None? <==> forall i :: 0 <= i < |fields| ==> fields[i].name != name
    ensures r.Some? ==>
      exists i ::
        && 0 <= i < |fields|
        && fields[i] == Entry(name, r.value)
        && (forall j :: i < j < |fields| ==> fields[j].name != name)
    decreases |fields|
  {
    if |fields| == 0 then None
    else
      var last := fields[|fields| - 1];
      if last.name == name then Some(last.value)
      else LastValue(fields[..|fields| - 1], name)
  }

  /** What field `f` should hold after the entries: the last value given for it, else the old one. */
  function ValueAfter(u: User, fields: seq<Entry>, f: Field): string {
    match LastValue(fields, FieldName(f))
    case Some(v) => v
    case None => Get(u, f)
  }

  /** Position of the first entry whose key cannot be set. */
  function FirstUnsettable(fields: seq<Entry>): (r: Option<nat>)
    ensures r.None? <==> AllSettable(fields)
    ensures r.Some? ==>
      && r.value < |fields|
      && ParseField(fields[r.value].name).Err?
      && AllSettable(fields[..r.value])
    decreases |fields|
  {
    if |fields| == 0 then None
    else if ParseField(fields[0].name).Err? then Some(0)
    else match FirstUnsettable(fields[1..])
      case None => None
      case Some(k) =>
        assert fields[..k + 1] == [fields[0]] + fields[1..][..k];
        Some(k + 1)
  }

  /** Applying settable entries never fails, and splits over concatenation. */
  lemma {:induction false} ApplyFieldsAppend(u: User, a: seq<Entry>, b: seq<Entry>)
    requires AllSettable(a)
    ensures ApplyFields(u, a).failure == None
    ensures ApplyFields(u, a + b) == ApplyFields(ApplyFields(u, a).user, b)
    decreases |a|
  {
    if |a| > 0 {
      var f := ParseField(a[0].name).value;
      assert (a + b)[0] == a[0];
      assert (a + b)[1..] == a[1..] + b;
      ApplyFieldsAppend(Set(u, f, a[0].value), a[1..], b);
    } else {
      assert a + b == b;
    }
  }

  /**
    With only settable keys the update succeeds and every field holds the
    value of the last entry naming it, or its old value if none does.
   */
  lemma {:induction false} ApplyFieldsLastWins(u: User, fields: seq<Entry>)
    requires AllSettable(fields)
    ensures ApplyFields(u, fields).failure == None
    ensures forall f: Field :: Get(ApplyFields(u, fields).user, f) == ValueAfter(u, fields, f)
    decreases |fields|
  {
    if |fields| > 0 {
      var n := |fields| - 1;
      var init, last := fields[..n], fields[n];
      assert fields == init + [last];
      assert AllSettable(init) by {
        forall i | 0 <= i < |init| ensures ParseField(init[i].name).Ok? {
          assert init[i] == fields[i];
        }
      }
      ApplyFieldsAppend(u, init, [last]);
      ApplyFieldsLastWins(u, init);
      var v := ApplyFields(u, init).user;
      var f := ParseField(last.name).value;
      assert ApplyFields(v, [last]) == ApplyFields(Set(v, f, last.value), []);
      forall g: Field
        ensures Get(ApplyFields(u, fields).user, g) == ValueAfter(u, fields, g)
      {
        if g != f {
          assert FieldName(g) != last.name by {
            ParseFieldName(g);
          }
        }
      }
    } else {
      ApplyFieldsIsEmpty(u, fields);
    }
  }

  lemma ApplyFieldsIsEmpty(u: User, fields: seq<Entry>)
    requires |fields| == 0
    ensures ApplyFields(u, fields) == Applied(u, None)
    ensures forall f: Field :: ValueAfter(u, fields, f) == Get(u, f)
  {
  }

  /**
    The walk stops at the first unsettable key with that key's error, and
    the record keeps every assignment made by the entries before it.
   */
  lemma {:induction false} ApplyFieldsStopsAtFirstUnsettable(u: User, fields: seq<Entry>, k: nat)
    requires k < |fields| && ParseField(fields[k].name).Err?
    requires AllSettable(fields[..k])
    ensures ApplyFields(u, fields)
         == Applied(ApplyFields(u, fields[..k]).user, Some(ParseField(fields[k].name).error))
  {
    assert fields == fields[..k] + fields[k..];
    ApplyFieldsAppend(u, fields[..k], fields[k..]);
    assert fields[k..][0] == fields[k];
  }

  /**
    A partial update of an existing record with only settable keys succeeds;
    the record keeps its id, birth date and position, each settable field
    holds the last value given for it, and no other record changes.
   */
  lemma UpdateUserFieldsSucceeds(s: Store, id: int, fields: seq<Entry>)
    requires FindUserById(s, id).Ok?
    requires AllSettable(fields)
    ensures
      var r := UpdateUserFields(s, id, fields);
      var before := FindUserById(s, id).value;
      var i := IndexOf(s.users, id).value;
      && r.result.Ok?
      && r.result.value.id == id
      && r.result.value.birthDate == before.birthDate
      && (forall f: Field :: Get(r.result.value, f) == ValueAfter(before, fields, f))
      && r.store == s.(users := s.users[i := r.result.value])
  {
    ApplyFieldsLastWins(FindUserById(s, id).value, fields);
  }

  /**
    A partial update of an existing record fails at the first unsettable key
    (`birthDate` or an unknown name) with that key's error, but the record in
    the store already carries the entries before it; nothing else changes.
   */
  lemma UpdateUserFieldsFailsEagerly(s: Store, id: int, fields: seq<Entry>, k: nat)
    requires FindUserById(s, id).Ok?
    requires k < |fields| && ParseField(fields[k].name).Err?
    requires AllSettable(fields[..k])
    ensures
      var r := UpdateUserFields(s, id, fields);
      var before := FindUserById(s, id).value;
      var i := IndexOf(s.users, id).value;
      && r.result == Err(ParseField(fields[k].name).error)
      && r.store.users[i].id == id
      && r.store.users[i].birthDate == before.birthDate
      && (forall f: Field :: Get(r.store.users[i], f) == ValueAfter(before, fields[..k], f))
      && r.store == s.(users := s.users[i := r.store.users[i]])
  {
    var before := FindUserById(s, id).value;
    ApplyFieldsStopsAtFirstUnsettable(before, fields, k);
    ApplyFieldsLastWins(before, fields[..k]);
  }

  /** The verdict: success exactly when the id exists and every key is settable. */
  lemma UpdateUserFieldsVerdict(s: Store, id: int, fields: seq<Entry>)
    ensures UpdateUserFields(s, id, fields).result.Ok?
        <==> FindUserById(s, id).Ok? && AllSettable(fields)
  {
    if FindUserById(s, id).Ok? {
      match FirstUnsettable(fields)
      case None => UpdateUserFieldsSucceeds(s, id, fields);
      case Some(k) => UpdateUserFieldsFailsEagerly(s, id, fields, k);
    }
  }

  /**
    A `birthDate` key is refused whatever its value: the call fails, and
    with an existing record and only settable keys before it the failure is
    the birth-date error.
   */
  lemma UpdateUserFieldsRefusesBirthDate(s: Store, id: int, fields: seq<Entry>, k: nat)
    requires k < |fields| && fields[k].name == "birthDate"
    ensures UpdateUserFields(s, id, fields).result.Err?
    ensures FindUserById(s, id).Ok? && AllSettable(fields[..k]) ==>
      UpdateUserFields(s, id, fields).result == Err(IllegalArgument(BirthDateChange))
  {
    UpdateUserFieldsVerdict(s, id, fields);
    if FindUserById(s, id).Ok? && AllSettable(fields[..k]) {
      UpdateUserFieldsFailsEagerly(s, id, fields, k);
    }
  }

  /**
    Validate-first partial update: every key is checked before any is
    applied, so a refused update leaves the store exactly as it was.
   */
  function UpdateUserFieldsAtomic(s: Store, id: int, fields: seq<Entry>): (r: Step<User>)
    ensures r.result.Err? ==> r.store == s
    ensures r.result.Ok? <==> FindUserById(s, id).Ok? && AllSettable(fields)
  {
    match IndexOf(s.users, id)
    case None => Step(s, Err(UserNotFound(id)))
    case Some(i) =>
      match FirstUnsettable(fields)
      case Some(k) => Step(s, Err(ParseField(fields[k].name).error))
      case None =>
        ApplyFieldsLastWins(s.users[i], fields);
        var user := ApplyFields(s.users[i], fields).user;
        Step(s.(users := s.users[i := user]), Ok(user))
  }

  /**
    The two disciplines report the same outcome on every input, and leave the
    same store whenever the update succeeds; they differ only in the store
    left behind by a refused update.
   */
  lemma AtomicAgreesWithEager(s: Store, id: int, fields: seq<Entry>)
    ensures UpdateUserFieldsAtomic(s, id, fields).result == UpdateUserFields(s, id, fields).result
    ensures AllSettable(fields) ==>
      UpdateUserFieldsAtomic(s, id, fields) == UpdateUserFields(s, id, fields)
  {
    if FindUserById(s, id).Ok? {
      match FirstUnsettable(fields)
      case None => UpdateUserFieldsSucceeds(s, id, fields);
      case Some(k) => UpdateUserFieldsFailsEagerly(s, id, fields, k);
    }
  }
}
