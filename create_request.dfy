/** Employees/CreateEmployeeRequest.cs: the body of a create request and its
    validator, which requires a first and a last name. */
module CreateRequest {
  import opened Common

  datatype CreateEmployeeRequest = CreateEmployeeRequest(
    firstName: Option<string>,
    lastName: Option<string>,
    socialSecurityNumber: Option<string>,
    address1: Option<string>,
    address2: Option<string>,
    city: Option<string>,
    state: Option<string>,
    zipCode: Option<string>,
    phoneNumber: Option<string>,
    email: Option<string>)

  /** The validation library's `NotEmpty` rule on a string: not null, not
      empty and not white space only. */
  predicate NotEmpty(s: Option<string>)
    ensures NotEmpty(s) ==> s.Some? && |s.value| > 0
  {
    !IsNullOrWhiteSpace(s)
  }

  /** The failures `NotEmpty` reports under its default message. */
  const FirstNameRequired := ValidationFailure("FirstName", "'First Name' must not be empty.")
  const LastNameRequired := ValidationFailure("LastName", "'Last Name' must not be empty.")

  /** `CreateEmployeeRequestValidator`: one failure per missing name, first
      name before last name; no other property is checked. */
  function CreateRequestErrors(req: CreateEmployeeRequest): (errors: seq<ValidationFailure>)
    ensures errors == [] <==> NotEmpty(req.firstName) && NotEmpty(req.lastName)
    ensures FirstNameRequired in errors <==> !NotEmpty(req.firstName)
    ensures LastNameRequired in errors <==> !NotEmpty(req.lastName)
    ensures |errors| == (if NotEmpty(req.firstName) then 0 else 1) + (if NotEmpty(req.lastName) then 0 else 1)
    ensures !NotEmpty(req.firstName) ==> errors[0] == FirstNameRequired
  {
    (if NotEmpty(req.firstName) then [] else [FirstNameRequired])
    + (if NotEmpty(req.lastName) then [] else [LastNameRequired])
  }

  /** Social security number, address and contact properties never affect
      the outcome: only the two names are validated. */
  lemma OnlyNamesAreValidated(req: CreateEmployeeRequest, other: CreateEmployeeRequest)
    requires req.firstName == other.firstName && req.lastName == other.lastName
    ensures CreateRequestErrors(req) == CreateRequestErrors(other)
  {
  }
}
