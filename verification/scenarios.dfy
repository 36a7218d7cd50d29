/**
  Concrete runs of the directory, mirroring the service's unit tests and the
  behaviour they pin down, with a minimum age of 18.
 */
module Scenarios {
  import opened Results
  import opened Dates
  import opened Users
  import opened UserService

  const MinimalAge := 18

  function Jane(birthDate: Date): User {
    User(0, "jane.doe@example.org", "Jane", "Doe", birthDate, "42 Main St", "6625550144")
  }

  /** The directory after creating Jane, born on 1990-01-01, on an empty service. */
  function WithJane(): (s: Store)
    ensures s == Store([Jane(Date(1990, 1, 1)).(id := 1)], 2)
  {
    CreateUser(Init(), Jane(Date(1990, 1, 1)), MinimalAge, Date(2024, 3, 1)).store
  }

  /** Born 1997-07-13 and created on 2015-07-13: exactly 18, accepted with id 1. */
  lemma CreateOnEighteenthBirthday()
    ensures CreateUser(Init(), Jane(Date(1997, 7, 13)), MinimalAge, Date(2015, 7, 13))
         == Step(Store([Jane(Date(1997, 7, 13)).(id := 1)], 2), Ok(Jane(Date(1997, 7, 13)).(id := 1)))
  {
  }

  /** Born one day too late, or yesterday: refused, and the service is untouched. */
  lemma CreateUnderage()
    ensures CreateUser(Init(), Jane(Date(1997, 7, 14)), MinimalAge, Date(2015, 7, 13))
         == Step(Init(), Err(InvalidAge))
    ensures CreateUser(Init(), Jane(Date(2015, 7, 12)), MinimalAge, Date(2015, 7, 13))
         == Step(Init(), Err(InvalidAge))
  {
  }

  /** A partial update naming `birthDate` is refused and the stored birth date stays. */
  lemma PartialUpdateOfBirthDate()
    ensures UpdateUserFields(WithJane(), 1, [Entry("birthDate", "1997-07-13")])
         == Step(WithJane(), Err(IllegalArgument(BirthDateChange)))
  {
  }

  /** A partial update naming an unknown field is refused with that field's name. */
  lemma PartialUpdateOfUnknownField()
    ensures UpdateUserFields(WithJane(), 1, [Entry("country", "Ukraine")])
         == Step(WithJane(), Err(IllegalArgument(UnknownField("country"))))
  {
  }

  /**
    An entry before the unknown one is already applied when the call fails:
    the refused update still leaves the new email in the directory.
   */
  lemma PartialUpdateIsNotAtomic()
    ensures
      var r := UpdateUserFields(WithJane(), 1,
        [Entry("email", "bob.ten@example.org"), Entry("country", "Ukraine")]);
      && r.result == Err(IllegalArgument(UnknownField("country")))
      && r.store.users[0].email == "bob.ten@example.org"
      && r.store != WithJane()
  {
    var fields := [Entry("email", "bob.ten@example.org"), Entry("country", "Ukraine")];
    assert fields[1..] == [Entry("country", "Ukraine")];
  }

  /** The five entries of the unit test's partial update, in one of the orders a map may yield. */
  function BobFields(): seq<Entry> {
    [Entry("email", "bob.ten@example.org"), Entry("firstName", "Bob"), Entry("lastName", "Ten"),
     Entry("address", "57 Main St"), Entry("phoneNumber", "3800000000")]
  }

  /** A partial update of all five settable fields assigns each of them and keeps the rest. */
  lemma PartialUpdateOfAllFields()
    ensures
      var bob := User(1, "bob.ten@example.org", "Bob", "Ten", Date(1990, 1, 1), "57 Main St", "3800000000");
      UpdateUserFields(WithJane(), 1, BobFields()) == Step(Store([bob], 2), Ok(bob))
  {
    var bob := User(1, "bob.ten@example.org", "Bob", "Ten", Date(1990, 1, 1), "57 Main St", "3800000000");
    BobFieldsApplied();
    assert WithJane().users[0 := bob] == [bob];
  }

  lemma BobFieldsApplied()
    ensures ApplyFields(Jane(Date(1990, 1, 1)).(id := 1), BobFields())
         == Applied(User(1, "bob.ten@example.org", "Bob", "Ten", Date(1990, 1, 1), "57 Main St", "3800000000"), None)
  {
    var fields := BobFields();
    var u0 := Jane(Date(1990, 1, 1)).(id := 1);
    var u1 := u0.(email := "bob.ten@example.org");
    var u2 := u1.(firstName := "Bob");
    var u3 := u2.(lastName := "Ten");
    var u4 := u3.(address := "57 Main St");
    var u5 := u4.(phoneNumber := "3800000000");
    assert ApplyFields(u5, fields[5..]) == Applied(u5, None);
    assert fields[4..][1..] == fields[5..];
    assert ApplyFields(u4, fields[4..]) == Applied(u5, None);
    assert fields[3..][1..] == fields[4..];
    assert ApplyFields(u3, fields[3..]) == Applied(u5, None);
    assert fields[2..][1..] == fields[3..];
    assert ApplyFields(u2, fields[2..]) == Applied(u5, None);
    assert fields[1..][1..] == fields[2..];
    assert ApplyFields(u1, fields[1..]) == Applied(u5, None);
  }

  /** A full update keeping the stored birth date replaces every other field in place. */
  lemma UpdateUserKeepingBirthDate()
    ensures
      var bob := User(0, "bob.ten@example.org", "Bob", "Ten", Date(1990, 1, 1), "57 Main St", "6625550144");
      UpdateUser(WithJane(), 1, bob) == Step(Store([bob.(id := 1)], 2), Ok(bob.(id := 1)))
  {
  }

  /** A full update moving the birth date by one day is refused and changes nothing. */
  lemma UpdateUserMovingBirthDate()
    ensures UpdateUser(WithJane(), 1, Jane(Date(1990, 1, 2)))
         == Step(WithJane(), Err(IllegalArgument(BirthDateChange)))
  {
  }

  /** Every call on an id no record carries raises not-found. */
  lemma CallsOnMissingId()
    ensures UpdateUser(Init(), 1, Jane(Date(1970, 1, 1))) == Step(Init(), Err(UserNotFound(1)))
    ensures UpdateUserFields(Init(), 1, [Entry("birthDate", "1997-07-13")])
         == Step(Init(), Err(UserNotFound(1)))
    ensures DeletedUser(Init(), 1) == Step(Init(), Err(UserNotFound(1)))
  {
  }

  /** Three records born inside the range come back in the order they were stored. */
  lemma RangeKeepsStoreOrder()
    ensures
      var a := Jane(Date(1997, 7, 13)).(id := 1);
      var b := Jane(Date(1998, 5, 15)).(id := 2);
      var c := Jane(Date(1999, 4, 20)).(id := 3);
      FindUsersByBirthDateRange(Store([a, b, c], 4), Date(1996, 1, 1), Date(2000, 1, 1))
        == Ok([a, b, c])
  {
    var a := Jane(Date(1997, 7, 13)).(id := 1);
    var b := Jane(Date(1998, 5, 15)).(id := 2);
    var c := Jane(Date(1999, 4, 20)).(id := 3);
    var from, to := Date(1996, 1, 1), Date(2000, 1, 1);
    assert [c][1..] == [];
    assert FilterBorn([c], from, to) == [c];
    assert [b, c][1..] == [c];
    assert FilterBorn([b, c], from, to) == [b, c];
    assert [a, b, c][1..] == [b, c];
    assert FilterBorn([a, b, c], from, to) == [a, b, c];
  }

  /** An empty directory yields an empty result; a reversed range is refused. */
  lemma RangeEdgeCases()
    ensures FindUsersByBirthDateRange(Init(), Date(1970, 1, 1), Date(1970, 1, 2)) == Ok([])
    ensures FindUsersByBirthDateRange(Init(), Date(1970, 1, 2), Date(1970, 1, 1))
         == Err(IllegalArgument(RangeNotIncreasing))
  {
  }
}
