# User directory service — a Dafny model

This project models the in-memory user directory at the core of a small
user-management service (`UserServiceImpl`). The directory keeps an ordered
list of `User` records and a counter `nextId`, which starts at 1. It offers
five calls:

- **create**: checks the minimum age, stamps the record with the counter's
  value, advances the counter and appends the record;
- **partial update**: applies a key/value map to one record;
- **full update**: replaces a record's fields but refuses to change its birth date;
- **delete**;
- **birth-date range query**: returns the records born strictly between two
  dates, in list order.

The calls raise three kinds of exception: `InvalidAgeException`,
`UserNotFoundException` and `IllegalArgumentException`.

The model is functional. `UserService.Store` is an immutable value
(`users`, `nextId`). Each mutating call returns a `Step` that holds two
things: the store as the call leaves it, and either the value returned or an
`Error` (`InvalidAge`, `UserNotFound(id)` or `IllegalArgument(problem)`).
The store is kept even when the call fails. This matters for the partial
update: the service mutates the record entry by entry, so when a later key
is refused, the earlier assignments stay applied. That behaviour is modelled
as written and stated as a lemma (`PartialUpdate.UpdateUserFieldsFailsEagerly`).
Every other call provably leaves the store untouched when it fails.

Three things become parameters of the calls:

- the clock (`LocalDate.now()`) becomes `today`;
- the configured `user.minimum.age` becomes `minimalAge`;
- the partial-update map becomes a sequence of `Entry(name, value)` pairs.
  A Java `Map` iterates in an unspecified order, so the sequence stands for
  whichever order it yields.

Age follows `Period.between(birth, today).getYears()` as the JDK computes it.
It counts whole months, adjusts by one when the day of the month has not been
reached, and divides by twelve with Java's truncating division
(`Dates.PeriodYears`). For a birth date on or before today this equals the
everyday age: the year difference, less one before the birthday. The
contract of `Dates.PeriodYears` states this.

Modules and files:

- `results.dfy` (`Results`): `Option`, `Result`, and the error kinds.
- `dates.dfy` (`Dates`): dates as (year, month, day) triples, their order,
  and `PeriodYears`.
- `user.dfy` (`Users`): the `User` record, the five settable fields, and how a
  key maps to a field.
- `user_service.dfy` (`UserService`): the store, its invariant, and the calls.
- `partial_update.dfy` (`PartialUpdate`): what a partial update does, plus a
  validate-first variant proved to agree with it.
- `service_properties.dfy` (`ServiceProperties`): how one call relates to the
  lookups and queries after it.
- `traces.dfy` (`Traces`): properties of any sequence of calls.
- `scenarios.dfy` (`Scenarios`): the unit tests' cases on concrete stores.

Two behaviours of the code are worth noting:

- A refused partial update is not rolled back
  (`UserServiceImpl.java:39-49`), and neither is the model's.
- `UserRequestDTO` marks `birthDate` `@Past`, but the service never checks
  it. The age check alone admits a birth date later in the current year
  when the minimum is 0 (`ServiceProperties.CreateUserAdmitsFutureBirthDate`).

## Model

| member | source | states |
|---|---|---|
| Users.ParseField | src/main/java/clear/solution/test/service/impl/UserServiceImpl.java:40-48 | a key is accepted exactly when it names one of the five settable fields, and it is accepted as that field; `birthDate` is refused as a birth-date change and any other key as an unknown field carrying its name |
| Users.Set | src/main/java/clear/solution/test/entity/User.java:10-18 | a setter gives the chosen field the new value and leaves every other field, the id and the birth date as they were |
| Dates.Before | src/main/java/clear/solution/test/service/impl/UserServiceImpl.java:75 | `isBefore` as lexicographic order on (year, month, day); on valid dates it agrees with the order of a numeric day ordinal |
| Dates.PeriodYears | src/main/java/clear/solution/test/service/impl/UserServiceImpl.java:84-85 | the whole years of `Period.between`; for valid dates with birth on or before today they equal the everyday age (year difference, less one before the birthday) and are never negative; a birth date after today counts at most zero years, and exactly zero within the same year |
| UserService.Init | src/main/java/clear/solution/test/service/impl/UserServiceImpl.java:20-23 | a new service has no records and satisfies the id invariant |
| UserService.IndexOf | src/main/java/clear/solution/test/service/impl/UserServiceImpl.java:88-92 | the result is the first position holding the id; there is none exactly when no record carries it |
| UserService.HasMinimalAge | src/main/java/clear/solution/test/service/impl/UserServiceImpl.java:83-86 | the age rule; for valid dates with birth on or before today it holds exactly when the everyday age reaches the minimum |
| UserService.FindUserById | src/main/java/clear/solution/test/service/impl/UserServiceImpl.java:88-93 | a found record is stored and carries the id; not-found happens exactly when no record carries the id; with distinct ids the found record is the only one |
| UserService.CreateUser | src/main/java/clear/solution/test/service/impl/UserServiceImpl.java:26-33 | refused with InvalidAge exactly when the age is below the minimum, and then nothing changes; otherwise the record gets the old counter as id, keeps every other candidate field, is appended at the end, the counter goes up by one, the invariant is kept and the new id exceeds every stored id |
| UserService.ApplyFields | src/main/java/clear/solution/test/service/impl/UserServiceImpl.java:39-49 | applying entries never changes the id or the birth date, and any failure is an illegal-argument error |
| UserService.UpdateUserFields | src/main/java/clear/solution/test/service/impl/UserServiceImpl.java:36-51 | a missing id gives not-found with nothing changed; in every case the ids, birth dates, record count and counter stay the same, and the invariant is kept; a returned record carries the id and is in the store |
| UserService.UpdateUser | src/main/java/clear/solution/test/service/impl/UserServiceImpl.java:54-66 | succeeds exactly when the id is found and the stored birth date equals the candidate's; a missing id gives not-found and a found id with a differing birth date gives the birth-date error, both with nothing changed; on success the record at the looked-up position is replaced by one with the id, the candidate's birth date and every settable field of the candidate, and nothing else in the store changes |
| UserService.RemoveFirst | src/main/java/clear/solution/test/service/impl/UserServiceImpl.java:70 | removing a record that is not in the list leaves it unchanged; removing one that is shortens the list by exactly one |
| UserService.RemoveFirstAt | src/main/java/clear/solution/test/service/impl/UserServiceImpl.java:70 | removing the first element equal to the looked-up record removes exactly that position |
| UserService.DeletedUser | src/main/java/clear/solution/test/service/impl/UserServiceImpl.java:68-71 | not-found exactly when no record carries the id, with nothing changed; otherwise the first record with the id is removed and the others keep their order; the counter is never lowered |
| UserService.BornWithin | src/main/java/clear/solution/test/service/impl/UserServiceImpl.java:79 | born strictly after `from` and strictly before `to`; only a range whose start is before its end holds any birth date |
| UserService.FilterBorn | src/main/java/clear/solution/test/service/impl/UserServiceImpl.java:78-80 | the stream filter keeps list order, never grows the list and keeps only in-range records; `FilterBornSpec` ties it to the membership and count specification |
| UserService.FilterBornSpec | src/main/java/clear/solution/test/service/impl/UserServiceImpl.java:78-80 | the result is a subsequence of the list, holding every in-range record as often as the list does and nothing else |
| UserService.FindUsersByBirthDateRange | src/main/java/clear/solution/test/service/impl/UserServiceImpl.java:74-81 | refused exactly when `from` is not before `to`; otherwise it returns exactly the records born strictly inside the range, in list order, and nothing for an empty directory |
| PartialUpdate.LastValue | src/main/java/clear/solution/test/service/impl/UserServiceImpl.java:39 | the value of the last entry with a given key, and nothing exactly when no entry has that key |
| PartialUpdate.ApplyFieldsAppend | src/main/java/clear/solution/test/service/impl/UserServiceImpl.java:39-49 | settable entries never fail, and applying `a + b` is applying `a` and then `b` |
| PartialUpdate.ApplyFieldsLastWins | src/main/java/clear/solution/test/service/impl/UserServiceImpl.java:39-49 | with only settable keys every field ends up holding the last value given for it, or its old value when no entry names it |
| PartialUpdate.ApplyFieldsStopsAtFirstUnsettable | src/main/java/clear/solution/test/service/impl/UserServiceImpl.java:39-49 | the walk fails with the error of the first unsettable key, and keeps every assignment made before it |
| PartialUpdate.UpdateUserFieldsSucceeds | src/main/java/clear/solution/test/service/impl/UserServiceImpl.java:36-51 | for an existing id and settable keys, the update succeeds; the record keeps its id, birth date and position, takes the last value given for each field, and no other record changes |
| PartialUpdate.UpdateUserFieldsFailsEagerly | src/main/java/clear/solution/test/service/impl/UserServiceImpl.java:36-51 | for an existing id, the call fails at the first unsettable key with that key's error, yet the stored record already carries the entries before it |
| PartialUpdate.UpdateUserFieldsVerdict | src/main/java/clear/solution/test/service/impl/UserServiceImpl.java:36-51 | a partial update succeeds exactly when the id exists and every key is settable |
| PartialUpdate.UpdateUserFieldsRefusesBirthDate | src/main/java/clear/solution/test/service/impl/UserServiceImpl.java:44 | a `birthDate` key makes the call fail whatever its value, and with only settable keys before it the failure is the birth-date error |
| PartialUpdate.UpdateUserFieldsAtomic | src/main/java/clear/solution/test/service/impl/UserServiceImpl.java:39-49 | validate-first variant: a refused update leaves the store unchanged, and it succeeds exactly when the id exists and every key is settable |
| PartialUpdate.AtomicAgreesWithEager | src/main/java/clear/solution/test/service/impl/UserServiceImpl.java:39-49 | the validate-first and entry-by-entry updates return the same outcome on every input, and leave the same store whenever every key is settable |
| ServiceProperties.CreateUserAgeRule | src/main/java/clear/solution/test/service/impl/UserServiceImpl.java:26-29 | for a birth date on or before today, create is refused exactly when the everyday age is below the minimum |
| ServiceProperties.CreateUserAdmitsFutureBirthDate | src/main/java/clear/solution/test/service/impl/UserServiceImpl.java:83-86 | with a minimum of 0 or less, the age check accepts a birth date later in the current year |
| ServiceProperties.CreateThenFind | src/main/java/clear/solution/test/service/impl/UserServiceImpl.java:30-32 | after a create, the new id finds the new record and every other id is found exactly as before |
| ServiceProperties.DeleteThenFind | src/main/java/clear/solution/test/service/impl/UserServiceImpl.java:68-71 | after a delete, the id is not found, every other id is found exactly as before, and the invariant is kept |
| ServiceProperties.DeletedUserRemovesAt | src/main/java/clear/solution/test/service/impl/UserServiceImpl.java:70 | a successful delete removes exactly the position the lookup found |
| ServiceProperties.UpdateUserThenFind | src/main/java/clear/solution/test/service/impl/UserServiceImpl.java:54-66 | a successful full update replaces the record in place, and looking the id up afterwards yields the updated record |
| ServiceProperties.UpdateUserRefusesBirthDateChange | src/main/java/clear/solution/test/service/impl/UserServiceImpl.java:56-58 | a full update whose birth date differs from the stored one gives the birth-date error and changes nothing |
| ServiceProperties.BirthDateNeverChanges | src/main/java/clear/solution/test/service/impl/UserServiceImpl.java:26-71 | after create, either update or delete, any record found under an id before and after the call has the same birth date |
| ServiceProperties.FilterBornAppend | src/main/java/clear/solution/test/service/impl/UserServiceImpl.java:78-80 | the range filter of a concatenation is the concatenation of the filters |
| ServiceProperties.CreateThenRange | src/main/java/clear/solution/test/service/impl/UserServiceImpl.java:31 | after a create, a range query returns its earlier result followed by the new record when that record is in range |
| Traces.PerformPreservesValid | src/main/java/clear/solution/test/service/impl/UserServiceImpl.java:20-23 | every call keeps ids distinct and below the counter; a create that hands out an id hands out the old counter value and raises the counter by one; any other call leaves the counter alone |
| Traces.RunPreservesValid | src/main/java/clear/solution/test/service/impl/UserServiceImpl.java:20-23 | any sequence of calls keeps the invariant and never lowers the counter |
| Traces.AssignedIdsIncrease | src/main/java/clear/solution/test/service/impl/UserServiceImpl.java:30 | the ids handed out along any run strictly increase and lie between the starting and final counter, so no id is ever reused, even after a delete |
| Traces.IndexOfSameIds | src/main/java/clear/solution/test/service/impl/UserServiceImpl.java:88-92 | the lookup depends only on the ids in the list, position by position |
| Traces.LookupAfterCall | src/main/java/clear/solution/test/service/impl/UserServiceImpl.java:26-71 | an id below the counter found after any call was found before it, with the same birth date |
| Traces.FoundBelowCounter | src/main/java/clear/solution/test/service/impl/UserServiceImpl.java:23 | an id found at the end of a run and already handed out at its start was found at its start: a deleted id never comes back |
| Traces.BirthDateStableOverRun | src/main/java/clear/solution/test/service/impl/UserServiceImpl.java:26-71 | over any run, the records found under one id at its start and at its end have the same birth date |
| Scenarios.WithJane | src/test/java/clear/solution/test/service/impl/UserServiceImplTest.java:30-43 | creating a first user on an empty service stores it with id 1 and all of its fields, and sets the counter to 2 |
| Scenarios.CreateOnEighteenthBirthday | src/main/java/clear/solution/test/service/impl/UserServiceImpl.java:26-32 | a user turning 18 on the day of creation is accepted with id 1 |
| Scenarios.CreateUnderage | src/test/java/clear/solution/test/service/impl/UserServiceImplTest.java:46-50 | a user one day short of 18, or born yesterday, is refused with InvalidAge and the service is unchanged |
| Scenarios.PartialUpdateOfBirthDate | src/test/java/clear/solution/test/service/impl/UserServiceImplTest.java:80-85 | a partial update naming `birthDate` gives the birth-date error and leaves the directory as it was |
| Scenarios.PartialUpdateOfUnknownField | src/test/java/clear/solution/test/service/impl/UserServiceImplTest.java:88-93 | a partial update naming `country` gives the unknown-field error for `country` |
| Scenarios.PartialUpdateIsNotAtomic | src/main/java/clear/solution/test/service/impl/UserServiceImpl.java:39-49 | an email entry followed by an unknown key fails, yet the new email stays in the directory |
| Scenarios.PartialUpdateOfAllFields | src/test/java/clear/solution/test/service/impl/UserServiceImplTest.java:53-69 | a partial update of all five settable fields on the first user assigns each value and keeps id 1 and the birth date |
| Scenarios.UpdateUserKeepingBirthDate | src/test/java/clear/solution/test/service/impl/UserServiceImplTest.java:96-112 | a full update of the first user with the same birth date returns and stores the candidate's fields under id 1 |
| Scenarios.UpdateUserMovingBirthDate | src/test/java/clear/solution/test/service/impl/UserServiceImplTest.java:115-124 | a full update moving the birth date by one day gives the birth-date error and leaves the directory as it was |
| Scenarios.CallsOnMissingId | src/test/java/clear/solution/test/service/impl/UserServiceImplTest.java:72-136 | update, partial update and delete on an empty service all give not-found, even when the partial update names `birthDate` |
| Scenarios.RangeKeepsStoreOrder | src/main/java/clear/solution/test/service/impl/UserServiceImpl.java:78-80 | three records born in 1997, 1998 and 1999 come back from a 1996–2000 query in their stored order |
| Scenarios.RangeEdgeCases | src/test/java/clear/solution/test/service/impl/UserServiceImplTest.java:139-152 | an empty directory yields an empty result, and a reversed range is refused |

## Left out

- HTTP routing (`UserController`), exception-to-status translation (`GlobalExceptionHandler`) and the generated `UserMapper` are adapters outside the directory.
- The request validation annotations on `UserRequestDTO` (`@Email`, `@NotBlank`, `@NotNull` and `@Past`) run in a library before the service is called. The model places no precondition on candidates: every call is total, and a birth date is always present. A `null` birth date reaching the service would raise a `NullPointerException` in `Period.between` (`UserServiceImpl.java:84`), or an `IllegalArgumentException` from the `equals` in a full update (`UserServiceImpl.java:56`); neither path is modelled.
- Exception messages are not rendered as text. Each error carries the data its message is built from: the id for not-found, and the field name for an unknown key.
- The clock, configuration loading and Spring wiring are outside the model. `today` and `minimalAge` are parameters, and the constructed service is `UserService.Init`.
- Java `null` strings are not modelled. Every text field is a `string`, and the service only copies these values, never inspects them.
- Casting partial-update values with `(String) value`, and the `ClassCastException` it may raise, are not modelled. Values arrive as strings.
- A Java `Map` never holds the same key twice. The entry sequence allows repeats; the last entry for a key wins, which covers the map case.
- `nextId` is a Java `Long`, but the model's counter is an unbounded integer. Overflow after 2^63 - 1 creates is not modelled.
- Records are values, not shared objects. The case where the same request object is passed to create twice and its id is rewritten in place is not modelled; the controller always maps a fresh object.
- `Dates.ValidDate` checks only month 1–12 and day 1–31. It does not check month lengths or leap years, and the whole-year count never depends on them.
- Concurrent calls are not modelled: the service has no locking, and the model is sequential.
