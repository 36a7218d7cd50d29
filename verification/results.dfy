/**
  Outcome types shared by the user directory: an optional value and the
  result of a service call, whose failure side is one of the three kinds of
  exception the service raises.
 */
module Results {

  datatype Option<+T> = None | Some(value: T)

  /** Why an `IllegalArgumentException` was raised. */
  datatype ArgumentProblem =
    | BirthDateChange          // "User can't change DOB"
    | UnknownField(name: string) // "Field <name> not found on User."
    | RangeNotIncreasing       // "fromDate must be less than toDate"

  /** The exceptions of the service, one constructor each. */
  datatype Error =
    | InvalidAge                      // InvalidAgeException
    | UserNotFound(id: int)           // UserNotFoundException
    | IllegalArgument(problem: ArgumentProblem) // IllegalArgumentException

  datatype Result<+T> = Ok(value: T) | Err(error: Error)
}
