/** Employees/UpdateEmployeeRequest.cs: the body of an update request and its
    stateful validator, which consults the employee repository to stop an
    update from blanking an address that is already set. */
module UpdateRequest {
  import opened Common
  import opened Entities
  import opened Repository

  /** The seven properties an update may carry; there is no name and no
      social security number among them. */
  datatype UpdateEmployeeRequest = UpdateEmployeeRequest(
    address1: Option<string>,
    address2: Option<string>,
    city: Option<string>,
    state: Option<string>,
    zipCode: Option<string>,
    phoneNumber: Option<string>,
    email: Option<string>)

  const Address1Erased :=
    ValidationFailure("Address1", "Address1 must not be empty as an address was already set for the employee.")

  /** `NotBeEmptyIfItIsSetOnEmployeeAlreadyAsync` over a snapshot of the
      repository's contents: the employee with the route's id must exist, and
      if its Address1 is set the new Address1 must not be blank. */
  function AddressRuleHolds(address: Option<string>, routeId: int, stored: seq<EmployeeRecord>): (ok: bool)
    ensures !HasId(stored, routeId) ==> !ok
    ensures forall k :: FindIndex(stored, routeId) == Some(k) && stored[k].address1.Some? && IsNullOrWhiteSpace(address) ==> !ok
    ensures forall k :: FindIndex(stored, routeId) == Some(k) && stored[k].address1.None? ==> ok
    ensures HasId(stored, routeId) && !IsNullOrWhiteSpace(address) ==> ok
  {
    match FindIndex(stored, routeId)
    case None => false
    case Some(k) => !(stored[k].address1.Some? && IsNullOrWhiteSpace(address))
  }

  /** `UpdateEmployeeRequestValidator`: at most the one Address1 failure. */
  function UpdateRequestErrors(req: UpdateEmployeeRequest, routeId: int, stored: seq<EmployeeRecord>): (errors: seq<ValidationFailure>)
    ensures errors == [] <==> AddressRuleHolds(req.address1, routeId, stored)
    ensures errors != [] ==> errors == [Address1Erased]
  {
    if AddressRuleHolds(req.address1, routeId, stored) then [] else [Address1Erased]
  }

  /** Only Address1 is constrained: the other six properties accept any value. */
  lemma OnlyAddress1IsConstrained(req: UpdateEmployeeRequest, other: UpdateEmployeeRequest, routeId: int, stored: seq<EmployeeRecord>)
    requires req.address1 == other.address1
    ensures UpdateRequestErrors(req, routeId, stored) == UpdateRequestErrors(other, routeId, stored)
  {
  }

  /** The rule as the validator runs it: one `GetById` on the repository and
      no change to it (the method has no modifies clause). */
  method NotBeEmptyIfItIsSetOnEmployeeAlready(address: Option<string>, routeId: Int32, repository: EmployeeRepository)
    returns (ok: bool)
    ensures ok == AddressRuleHolds(address, routeId, repository.Records())
  {
    var employee := repository.GetById(routeId);
    if employee == null {
      return false;
    }
    assert employee.Value() == repository.Records()[FindIndex(repository.Records(), routeId).value];
    if employee.address1 != None && IsNullOrWhiteSpace(address) {
      return false;
    }
    return true;
  }
}
