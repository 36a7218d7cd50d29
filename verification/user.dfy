/**
  The `User` entity and the five fields a caller may set by name.
 */
module Users {
  import opened Results
  import opened Dates

  /** One stored record, in the field order of the entity class. */
  datatype User = User(
    id: int,
    email: string,
    firstName: string,
    lastName: string,
    birthDate: Date,
    address: string,
    phoneNumber: string)

  /** The fields that a partial update may assign; `birthDate` and `id` are not among them. */
  datatype Field = Email | FirstName | LastName | Address | PhoneNumber

  /** The key under which each settable field is addressed in a partial update. */
  function FieldName(f: Field): string {
    match f
    case Email => "email"
    case FirstName => "firstName"
    case LastName => "lastName"
    case Address => "address"
    case PhoneNumber => "phoneNumber"
  }

  /**
    The `switch` on a partial-update key: one of the five settable names, or
    `birthDate` (refused whatever its value), or anything else (unknown).
   */
  function ParseField(name: string): (r: Result<Field>)
    ensures r.Ok? ==> FieldName(r.value) == name
    ensures r.Err? <==> forall f: Field :: FieldName(f) != name
    ensures r.Err? ==> r.error.IllegalArgument?
    ensures r.Err? && name == "birthDate" ==> r.error == IllegalArgument(BirthDateChange)
    ensures r.Err? && name != "birthDate" ==> r.error == IllegalArgument(UnknownField(name))
  {
    match name
    case "email" => Ok(Email)
    case "firstName" => Ok(FirstName)
    case "lastName" => Ok(LastName)
    case "birthDate" => Err(IllegalArgument(BirthDateChange))
    case "address" => Ok(Address)
    case "phoneNumber" => Ok(PhoneNumber)
    case _ => Err(IllegalArgument(UnknownField(name)))
  }

  /** Every settable field is found again under its own key. */
  lemma ParseFieldName(f: Field)
    ensures ParseField(FieldName(f)) == Ok(f)
  {
  }

  function Get(u: User, f: Field): string {
    match f
    case Email => u.email
    case FirstName => u.firstName
    case LastName => u.lastName
    case Address => u.address
    case PhoneNumber => u.phoneNumber
  }

  /** A setter of the entity: assigns one field and leaves every other one as it was. */
  function Set(u: User, f: Field, value: string): (r: User)
    ensures Get(r, f) == value
    ensures forall g: Field :: g != f ==> Get(r, g) == Get(u, g)
    ensures r.id == u.id && r.birthDate == u.birthDate
  {
    match f
    case Email => u.(email := value)
    case FirstName => u.(firstName := value)
    case LastName => u.(lastName := value)
    case Address => u.(address := value)
    case PhoneNumber => u.(phoneNumber := value)
  }
}
