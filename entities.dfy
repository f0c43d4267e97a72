/** The entity types of Employee.cs: an employee, its benefits and the
    benefit kinds. `EmployeeRecord` is the value of an employee (what a
    database row or a snapshot holds); `Employee` is the mutable object that
    the in-memory repository stores and updates in place. */
module Entities {
  import opened Common

  datatype BenefitType = Health | Dental | Vision

  /** A C# `decimal`, carried as its scaled integer and never computed with. */
  datatype Decimal = Decimal(units: int, scale: nat)

  datatype EmployeeBenefit = EmployeeBenefit(
    id: Int32,
    employeeId: Int32,
    benefitType: BenefitType,
    cost: Decimal)

  datatype EmployeeRecord = EmployeeRecord(
    id: Int32,
    firstName: string,
    lastName: string,
    socialSecurityNumber: Option<string>,
    address1: Option<string>,
    address2: Option<string>,
    city: Option<string>,
    state: Option<string>,
    zipCode: Option<string>,
    phoneNumber: Option<string>,
    email: Option<string>,
    benefits: seq<EmployeeBenefit>)

  /** Some record in `rs` carries identity `id`. */
  predicate HasId(rs: seq<EmployeeRecord>, id: int) {
    exists k :: 0 <= k < |rs| && rs[k].id == id
  }

  /** No two records share an identity (the primary key). */
  predicate UniqueIds(rs: seq<EmployeeRecord>) {
    forall i, j :: 0 <= i < j < |rs| ==> rs[i].id != rs[j].id
  }

  /** Every identity is at least 1. */
  predicate PositiveIds(rs: seq<EmployeeRecord>) {
    forall k :: 0 <= k < |rs| ==> rs[k].id >= 1
  }

  /** Position of the first record whose identity is `id`, the lookup behind
      `FirstOrDefault(e => e.Id == id)`. */
  function FindIndex(rs: seq<EmployeeRecord>, id: int): (r: Option<nat>)
    ensures r.None? <==> !HasId(rs, id)
    ensures r.Some? ==> r.value < |rs| && rs[r.value].id == id
    ensures r.Some? ==> forall j :: 0 <= j < r.value ==> rs[j].id != id
  {
    if rs == [] then None
    else if rs[0].id == id then Some(0)
    else match FindIndex(rs[1..], id)
      case None => None
      case Some(k) =>
        assert forall j :: 1 <= j <= k + 1 ==> rs[j] == rs[1..][j - 1];
        Some(k + 1)
  }

  /** With unique identities, the first match is the only match. */
  lemma FindIndexOfUnique(rs: seq<EmployeeRecord>, k: nat)
    requires UniqueIds(rs) && k < |rs|
    ensures FindIndex(rs, rs[k].id) == Some(k)
  {
  }

  /** An employee object: the fields of Employee.cs, updated in place. */
  class Employee {
    var id: Int32
    var firstName: string
    var lastName: string
    var socialSecurityNumber: Option<string>
    var address1: Option<string>
    var address2: Option<string>
    var city: Option<string>
    var state: Option<string>
    var zipCode: Option<string>
    var phoneNumber: Option<string>
    var email: Option<string>
    var benefits: seq<EmployeeBenefit>

    /** `new Employee { ... }` with every property given. */
    constructor (r: EmployeeRecord)
      ensures Value() == r
    {
      id := r.id;
      firstName, lastName := r.firstName, r.lastName;
      socialSecurityNumber := r.socialSecurityNumber;
      address1, address2 := r.address1, r.address2;
      city, state, zipCode := r.city, r.state, r.zipCode;
      phoneNumber, email := r.phoneNumber, r.email;
      benefits := r.benefits;
    }

    /** The current value of this object's fields. */
    function Value(): EmployeeRecord
      reads this
    {
      EmployeeRecord(id, firstName, lastName, socialSecurityNumber, address1, address2,
                     city, state, zipCode, phoneNumber, email, benefits)
    }
  }
}
