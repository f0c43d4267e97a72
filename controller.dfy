/** Controllers/EmployeesController.cs: the employee endpoints. The database
    context is the `Employees` table, a list of employee values in table
    order whose identities are unique; every endpoint answers with an
    `ActionResult`. The validation filter registered for all actions runs
    the request's validator first and answers 400 with its failures. */
module Controller {
  import opened Common
  import opened Entities
  import opened CreateRequest
  import opened ListRequest
  import opened UpdateRequest
  import Repository

  datatype GetEmployeeResponseEmployeeBenefit = GetEmployeeResponseEmployeeBenefit(
    id: Int32,
    employeeId: Int32,
    benefitType: BenefitType,
    cost: Decimal)

  /** What a read endpoint returns for an employee: no identity and no social
      security number. */
  datatype GetEmployeeResponse = GetEmployeeResponse(
    firstName: string,
    lastName: string,
    address1: Option<string>,
    address2: Option<string>,
    city: Option<string>,
    state: Option<string>,
    zipCode: Option<string>,
    phoneNumber: Option<string>,
    email: Option<string>,
    benefits: seq<GetEmployeeResponseEmployeeBenefit>)

  /** The results the actions produce, with what they carry. */
  datatype ActionResult =
    | OkList(employees: seq<GetEmployeeResponse>)
    | OkEmployee(response: GetEmployeeResponse)
    | OkEntity(entity: EmployeeRecord)
    | CreatedAt(id: Int32, entity: EmployeeRecord)
    | NoContent
    | NotFound
    | BadRequest(errors: seq<ValidationFailure>)
    | ServerError(message: Option<string>)

  function StatusCode(r: ActionResult): int {
    match r
    case OkList(_) => 200
    case OkEmployee(_) => 200
    case OkEntity(_) => 200
    case CreatedAt(_, _) => 201
    case NoContent => 204
    case NotFound => 404
    case BadRequest(_) => 400
    case ServerError(_) => 500
  }

  const UpdateFailedMessage := "An error occurred while updating the employee"

  // ---------------------------------------------------------------------
  // Projections between entities and request/response shapes

  /** `BenefitToBenefitResponse`; the same mapping is written inline in
      `EmployeeToGetEmployeeResponse`. */
  function BenefitToBenefitResponse(b: EmployeeBenefit): (r: GetEmployeeResponseEmployeeBenefit)
    ensures BenefitFromResponse(r) == b
  {
    GetEmployeeResponseEmployeeBenefit(b.id, b.employeeId, b.benefitType, b.cost)
  }

  /** The benefit a benefit response describes. */
  function BenefitFromResponse(r: GetEmployeeResponseEmployeeBenefit): EmployeeBenefit {
    EmployeeBenefit(r.id, r.employeeId, r.benefitType, r.cost)
  }

  /** `EmployeeToGetEmployeeResponse`: benefits are mapped one to one, in
      order. */
  function EmployeeToGetEmployeeResponse(e: EmployeeRecord): (r: GetEmployeeResponse)
    ensures |r.benefits| == |e.benefits|
    ensures forall k :: 0 <= k < |e.benefits| ==> r.benefits[k] == BenefitToBenefitResponse(e.benefits[k])
  {
    GetEmployeeResponse(
      e.firstName, e.lastName, e.address1, e.address2, e.city, e.state,
      e.zipCode, e.phoneNumber, e.email,
      seq(|e.benefits|, k requires 0 <= k < |e.benefits| => BenefitToBenefitResponse(e.benefits[k])))
  }

  function Responses(rows: seq<EmployeeRecord>): (rs: seq<GetEmployeeResponse>)
    ensures |rs| == |rows|
    ensures forall k :: 0 <= k < |rows| ==> rs[k] == EmployeeToGetEmployeeResponse(rows[k])
  {
    seq(|rows|, k requires 0 <= k < |rows| => EmployeeToGetEmployeeResponse(rows[k]))
  }

  /** An employee rebuilt from a response and the two values it omits. */
  function FromResponse(r: GetEmployeeResponse, id: Int32, ssn: Option<string>): EmployeeRecord {
    EmployeeRecord(
      id, r.firstName, r.lastName, ssn, r.address1, r.address2, r.city, r.state,
      r.zipCode, r.phoneNumber, r.email,
      seq(|r.benefits|, k requires 0 <= k < |r.benefits| => BenefitFromResponse(r.benefits[k])))
  }

  /** The response loses exactly the identity and the social security number:
      everything else, benefits included, can be read back from it. */
  lemma ResponseOmitsOnlyIdAndSsn(e: EmployeeRecord)
    ensures FromResponse(EmployeeToGetEmployeeResponse(e), e.id, e.socialSecurityNumber) == e
  {
  }

  /** The response does not depend on the social security number. */
  lemma ResponseIgnoresSsn(e: EmployeeRecord, ssn: Option<string>)
    ensures EmployeeToGetEmployeeResponse(e.(socialSecurityNumber := ssn)) == EmployeeToGetEmployeeResponse(e)
  {
  }

  /** The employee `CreateEmployee` builds from a validated request. */
  function NewEmployee(req: CreateEmployeeRequest, id: Int32): (e: EmployeeRecord)
    requires req.firstName.Some? && req.lastName.Some?
    ensures e.id == id && e.benefits == []
    ensures AsCreateRequest(e) == req
  {
    EmployeeRecord(
      id, req.firstName.value, req.lastName.value, req.socialSecurityNumber,
      req.address1, req.address2, req.city, req.state, req.zipCode,
      req.phoneNumber, req.email, [])
  }

  /** The create request that describes an employee's fields. */
  function AsCreateRequest(e: EmployeeRecord): CreateEmployeeRequest {
    CreateEmployeeRequest(
      Some(e.firstName), Some(e.lastName), e.socialSecurityNumber, e.address1,
      e.address2, e.city, e.state, e.zipCode, e.phoneNumber, e.email)
  }

  /** Creating from an employee's own fields rebuilds it. */
  lemma NewEmployeeFromOwnFields(e: EmployeeRecord)
    requires e.benefits == []
    ensures NewEmployee(AsCreateRequest(e), e.id) == e
  {
  }

  /** The seven properties an update may change, read off an employee. */
  function UpdatableFields(e: EmployeeRecord): UpdateEmployeeRequest {
    UpdateEmployeeRequest(e.address1, e.address2, e.city, e.state, e.zipCode, e.phoneNumber, e.email)
  }

  /** The whitelist copy of `UpdateEmployee`: the seven properties take the
      request's values, nulls included; identity, names, social security
      number and benefits stay. */
  function ApplyUpdate(e: EmployeeRecord, req: UpdateEmployeeRequest): (r: EmployeeRecord)
    ensures UpdatableFields(r) == req
    ensures r.id == e.id && r.firstName == e.firstName && r.lastName == e.lastName
    ensures r.socialSecurityNumber == e.socialSecurityNumber && r.benefits == e.benefits
  {
    e.(address1 := req.address1, address2 := req.address2, city := req.city, state := req.state,
       zipCode := req.zipCode, phoneNumber := req.phoneNumber, email := req.email)
  }

  /** Updating with an employee's own values changes nothing. */
  lemma ApplyOwnFieldsIsIdentity(e: EmployeeRecord)
    ensures ApplyUpdate(e, UpdatableFields(e)) == e
  {
  }

  // ---------------------------------------------------------------------
  // The list query

  /** `request?.Page ?? 1`: the request's page when it gives one, else 1. */
  function PageNumber(request: Option<GetAllEmployeesRequest>): (page: Int32)
    ensures request.Some? && request.value.page.Some? ==> page == request.value.page.value
    ensures request.None? || request.value.page.None? ==> page == 1
  {
    if request.Some? && request.value.page.Some? then request.value.page.value else 1
  }

  /** `request?.RecordsPerPage ?? 100`: the request's page size when it gives
      one, else 100. */
  function RecordsPerPage(request: Option<GetAllEmployeesRequest>): (n: Int32)
    ensures request.Some? && request.value.recordsPerPage.Some? ==> n == request.value.recordsPerPage.value
    ensures request.None? || request.value.recordsPerPage.None? ==> n == 100
  {
    if request.Some? && request.value.recordsPerPage.Some? then request.value.recordsPerPage.value else 100
  }

  /** The number of rows to skip, `(page - 1) * numberOfRecords`, computed
      without overflow. */
  function SkipCount(page: int, numberOfRecords: int): (skip: int)
    ensures page >= 1 && numberOfRecords >= 0 ==> skip >= 0
    ensures page == 1 ==> skip == 0
  {
    (page - 1) * numberOfRecords
  }

  /** The same product as the source computes it, in unchecked 32-bit `int`
      arithmetic. */
  function SkipCountAsWritten(page: Int32, numberOfRecords: Int32): (skip: Int32)
    ensures (SkipCount(page, numberOfRecords) - skip) % 0x1_0000_0000 == 0
    ensures Int32Min <= SkipCount(page, numberOfRecords) <= Int32Max ==> skip == SkipCount(page, numberOfRecords)
  {
    Wrap32((page - 1) * numberOfRecords)
  }

  /** Every accepted request, and the absent one, pages from a non-negative
      offset with a page size between 1 and 100; absent values default to
      page 1 of 100 records. */
  lemma AcceptedRequestBounds(request: Option<GetAllEmployeesRequest>)
    requires request.None? || ListRequestErrors(request.value) == []
    ensures PageNumber(request) >= 1
    ensures 1 <= RecordsPerPage(request) <= 100
    ensures SkipCount(PageNumber(request), RecordsPerPage(request)) >= 0
    ensures request.None? || request.value.page.None? ==> PageNumber(request) == 1
    ensures request.None? || request.value.recordsPerPage.None? ==> RecordsPerPage(request) == 100
  {
  }

  function Min(a: int, b: int): int { if a <= b then a else b }

  function Max(a: int, b: int): int { if a <= b then b else a }

  /** LINQ `Skip`: drops the first `n` elements; a negative count skips
      nothing and a count past the end leaves nothing. */
  function Skip<T>(s: seq<T>, n: int): (r: seq<T>)
    ensures |r| == Max(0, |s| - Max(0, n))
    ensures forall k :: 0 <= k < |r| ==> r[k] == s[k + Max(0, n)]
  {
    if n <= 0 then s else if n >= |s| then [] else s[n..]
  }

  /** LINQ `Take`: keeps the first `n` elements; a negative count takes
      nothing and a count past the end keeps everything. */
  function Take<T>(s: seq<T>, n: int): (r: seq<T>)
    ensures |r| == Min(Max(0, n), |s|)
    ensures forall k :: 0 <= k < |r| ==> r[k] == s[k]
  {
    if n <= 0 then [] else if n >= |s| then s else s[..n]
  }

  /** The rows from position `skip` on, at most `n` of them. */
  function PageSlice<T>(s: seq<T>, skip: int, n: int): seq<T>
    requires skip >= 0 && n >= 0
  {
    s[Min(skip, |s|)..Min(skip + n, |s|)]
  }

  /** Skipping then taking non-negative counts yields one contiguous slice. */
  lemma PageIsSlice<T>(s: seq<T>, skip: int, n: int)
    requires skip >= 0 && n >= 0
    ensures Take(Skip(s, skip), n) == PageSlice(s, skip, n)
  {
  }

  /** `a` is `b` with some elements left out, the rest in their order. */
  predicate IsSubsequence<T(==)>(a: seq<T>, b: seq<T>)
    decreases |b|
  {
    a == [] || (b != [] && ((a[0] == b[0] && IsSubsequence(a[1..], b[1..])) || IsSubsequence(a, b[1..])))
  }

  lemma {:induction false} SubsequenceTransitive<T>(a: seq<T>, b: seq<T>, c: seq<T>)
    requires IsSubsequence(a, b) && IsSubsequence(b, c)
    ensures IsSubsequence(a, c)
    decreases |c|
  {
    if a != [] {
      if IsSubsequence(b, c[1..]) {
        SubsequenceTransitive(a, b, c[1..]);
      } else if a[0] == b[0] && IsSubsequence(a[1..], b[1..]) {
        SubsequenceTransitive(a[1..], b[1..], c[1..]);
      } else {
        SubsequenceTransitive(a, b[1..], c[1..]);
      }
    }
  }

  /** LINQ `Where`: the rows satisfying `p`, in their order. */
  function Where(s: seq<EmployeeRecord>, p: EmployeeRecord -> bool): (r: seq<EmployeeRecord>)
    ensures IsSubsequence(r, s)
    ensures forall k :: 0 <= k < |r| ==> p(r[k])
    ensures forall k :: 0 <= k < |s| && p(s[k]) ==> s[k] in r
  {
    if s == [] then []
    else
      var rest := Where(s[1..], p);
      assert forall k :: 1 <= k < |s| ==> s[k] == s[1..][k - 1];
      if p(s[0]) then [s[0]] + rest else rest
  }

  /** `Where` keeps each row satisfying `p` as often as it occurs in the
      input, and no other row. */
  lemma {:induction false} WhereCounts(s: seq<EmployeeRecord>, p: EmployeeRecord -> bool)
    ensures forall x :: multiset(Where(s, p))[x] == if p(x) then multiset(s)[x] else 0
  {
    if s != [] {
      WhereCounts(s[1..], p);
      assert s == [s[0]] + s[1..];
    }
  }

  predicate FirstNameFilterActive(request: Option<GetAllEmployeesRequest>) {
    request.Some? && !IsNullOrWhiteSpace(request.value.firstNameContains)
  }

  predicate LastNameFilterActive(request: Option<GetAllEmployeesRequest>) {
    request.Some? && !IsNullOrWhiteSpace(request.value.lastNameContains)
  }

  /** A row passes the first-name filter, or that filter is off. */
  predicate PassesFirstName(e: EmployeeRecord, request: Option<GetAllEmployeesRequest>) {
    FirstNameFilterActive(request) ==> Contains(e.firstName, request.value.firstNameContains.value)
  }

  /** A row passes the last-name filter, or that filter is off. */
  predicate PassesLastName(e: EmployeeRecord, request: Option<GetAllEmployeesRequest>) {
    LastNameFilterActive(request) ==> Contains(e.lastName, request.value.lastNameContains.value)
  }

  /** A row passes the name filters that are active. */
  predicate PassesFilters(e: EmployeeRecord, request: Option<GetAllEmployeesRequest>) {
    PassesFirstName(e, request) && PassesLastName(e, request)
  }

  /** `r` lists the rows of `page` that pass the active filters, in their
      order, each as often as it occurs on the page, and no other rows. */
  ghost predicate IsFilteredPage(r: seq<EmployeeRecord>, page: seq<EmployeeRecord>, request: Option<GetAllEmployeesRequest>) {
    IsSubsequence(r, page)
    && forall x :: multiset(r)[x] == if PassesFilters(x, request) then multiset(page)[x] else 0
  }

  /** The first-name `Where`, applied only when its filter text is not blank:
      the rows passing it, in order, each as often as in the input. */
  function ByFirstName(s: seq<EmployeeRecord>, request: Option<GetAllEmployeesRequest>): (r: seq<EmployeeRecord>)
    ensures IsSubsequence(r, s)
    ensures forall x :: multiset(r)[x] == if PassesFirstName(x, request) then multiset(s)[x] else 0
  {
    if FirstNameFilterActive(request) then
      var needle := request.value.firstNameContains.value;
      var p := (e: EmployeeRecord) => Contains(e.firstName, needle);
      WhereCounts(s, p);
      Where(s, p)
    else
      SubsequenceReflexive(s);
      s
  }

  /** The last-name `Where`, applied only when its filter text is not blank:
      the rows passing it, in order, each as often as in the input. */
  function ByLastName(s: seq<EmployeeRecord>, request: Option<GetAllEmployeesRequest>): (r: seq<EmployeeRecord>)
    ensures IsSubsequence(r, s)
    ensures forall x :: multiset(r)[x] == if PassesLastName(x, request) then multiset(s)[x] else 0
  {
    if LastNameFilterActive(request) then
      var needle := request.value.lastNameContains.value;
      var p := (e: EmployeeRecord) => Contains(e.lastName, needle);
      WhereCounts(s, p);
      Where(s, p)
    else
      SubsequenceReflexive(s);
      s
  }

  /** The query of `GetAllEmployees` for a given skip count: skip, take, then
      the first-name filter, then the last-name filter. Whatever the skip
      count, the result keeps, in order, exactly the rows of the page that
      pass both filters, each as often as on the page. */
  function ListQuery(rows: seq<EmployeeRecord>, request: Option<GetAllEmployeesRequest>, skip: int): (r: seq<EmployeeRecord>)
    ensures IsFilteredPage(r, Take(Skip(rows, skip), RecordsPerPage(request)), request)
  {
    var page := Take(Skip(rows, skip), RecordsPerPage(request));
    var byFirst := ByFirstName(page, request);
    var r := ByLastName(byFirst, request);
    SubsequenceTransitive(r, byFirst, page);
    r
  }

  /** The rows `GetAllEmployees` lists: for a page of at least 1, the rows
      of the slice starting at the skip count that pass the filters. */
  function QueryEmployees(rows: seq<EmployeeRecord>, request: Option<GetAllEmployeesRequest>): (r: seq<EmployeeRecord>)
    ensures PageNumber(request) >= 1 && RecordsPerPage(request) >= 0 ==>
              |r| <= RecordsPerPage(request)
              && IsFilteredPage(r, PageSlice(rows, SkipCount(PageNumber(request), RecordsPerPage(request)), RecordsPerPage(request)), request)
  {
    var skip := SkipCount(PageNumber(request), RecordsPerPage(request));
    if PageNumber(request) >= 1 && RecordsPerPage(request) >= 0 then
      QueryIsFilteredSlice(rows, request, skip);
      ListQuery(rows, request, skip)
    else
      ListQuery(rows, request, skip)
  }

  /** The rows the source lists, with its 32-bit skip count: the same as
      `QueryEmployees` while the product fits in an `int`, and the first page
      once it wraps negative. */
  function QueryEmployeesAsWritten(rows: seq<EmployeeRecord>, request: Option<GetAllEmployeesRequest>): (r: seq<EmployeeRecord>)
    ensures Int32Min <= SkipCount(PageNumber(request), RecordsPerPage(request)) <= Int32Max ==>
              r == QueryEmployees(rows, request)
    ensures SkipCountAsWritten(PageNumber(request), RecordsPerPage(request)) < 0 ==>
              r == ListQuery(rows, request, 0)
  {
    ListQuery(rows, request, SkipCountAsWritten(PageNumber(request), RecordsPerPage(request)))
  }

  /** For a non-negative skip the listed rows are an order-preserving
      selection from the page slice: at most a page, each passing the active
      filters, and every row of the slice that passes them is listed as often
      as it occurs there. */
  lemma QueryIsFilteredSlice(rows: seq<EmployeeRecord>, request: Option<GetAllEmployeesRequest>, skip: int)
    requires skip >= 0 && RecordsPerPage(request) >= 0
    ensures var r := ListQuery(rows, request, skip);
            |r| <= RecordsPerPage(request)
            && IsFilteredPage(r, PageSlice(rows, skip, RecordsPerPage(request)), request)
            && forall k :: 0 <= k < |r| ==> PassesFilters(r[k], request)
  {
    var n := RecordsPerPage(request);
    PageIsSlice(rows, skip, n);
    var r := ListQuery(rows, request, skip);
    SubsequenceLength(r, PageSlice(rows, skip, n));
    forall k | 0 <= k < |r|
      ensures PassesFilters(r[k], request)
    {
      assert multiset(r)[r[k]] > 0;
    }
  }

  lemma {:induction false} SubsequenceReflexive<T>(s: seq<T>)
    ensures IsSubsequence(s, s)
    decreases |s|
  {
    if s != [] {
      SubsequenceReflexive(s[1..]);
    }
  }

  lemma {:induction false} SubsequenceLength<T>(a: seq<T>, b: seq<T>)
    requires IsSubsequence(a, b)
    ensures |a| <= |b|
    decreases |b|
  {
    if a != [] {
      if a[0] == b[0] && IsSubsequence(a[1..], b[1..]) {
        SubsequenceLength(a[1..], b[1..]);
      } else {
        SubsequenceLength(a, b[1..]);
      }
    }
  }

  /** Page 2 of one record per page over two rows is the second row. */
  lemma SecondPageOfTwo(first: EmployeeRecord, second: EmployeeRecord)
    ensures QueryEmployees([first, second], Some(GetAllEmployeesRequest(Some(2), Some(1), None, None))) == [second]
  {
  }

  /** A page number the validator accepts whose skip overflows 32 bits: the
      source's skip count wraps to a negative number, which skips nothing, so
      the first page comes back where the page is really past the end. */
  lemma OverflowingPageListsFirstPage(rows: seq<EmployeeRecord>)
    requires 0 < |rows| < 2147483700
    ensures var request := Some(GetAllEmployeesRequest(Some(21474838), Some(100), None, None));
            ListRequestErrors(request.value) == []
            && SkipCountAsWritten(21474838, 100) == -2147483596
            && QueryEmployeesAsWritten(rows, request) == Take(rows, 100)
            && QueryEmployeesAsWritten(rows, request) != []
            && QueryEmployees(rows, request) == []
  {
  }

  // ---------------------------------------------------------------------
  // The controller

  class EmployeesController {
    /** The `Employees` table of the database context, in table order. */
    var table: seq<EmployeeRecord>

    /** The primary key is unique and the store hands out positive keys. */
    ghost predicate Valid()
      reads this
    {
      UniqueIds(table) && PositiveIds(table)
    }

    constructor (rows: seq<EmployeeRecord>)
      requires UniqueIds(rows) && PositiveIds(rows)
      ensures table == rows && Valid()
    {
      table := rows;
    }

    /** `GetAllEmployees`: an invalid query answers 400; otherwise the page of
        rows, filtered by name, as responses. */
    method GetAllEmployees(request: Option<GetAllEmployeesRequest>) returns (r: ActionResult)
      ensures request.Some? && ListRequestErrors(request.value) != [] ==>
                r == BadRequest(ListRequestErrors(request.value))
      ensures request.None? || ListRequestErrors(request.value) == [] ==>
                r == OkList(Responses(QueryEmployees(table, request)))
      ensures r.OkList? ==> |r.employees| <= RecordsPerPage(request) <= 100
      ensures StatusCode(r) == 400 <==> request.Some? && ListRequestErrors(request.value) != []
      ensures StatusCode(r) == 200 <==> request.None? || ListRequestErrors(request.value) == []
    {
      if request.Some? {
        var errors := ListRequestErrors(request.value);
        if errors != [] {
          return BadRequest(errors);
        }
      }
      AcceptedRequestBounds(request);
      QueryIsFilteredSlice(table, request, SkipCount(PageNumber(request), RecordsPerPage(request)));
      var page := PageNumber(request);
      var numberOfRecords := RecordsPerPage(request);
      var employees := ListQuery(table, request, SkipCount(page, numberOfRecords));
      r := OkList(Responses(employees));
    }

    /** `GetEmployeeById`: 404 when no row has the id, otherwise 200 with the
        row's response. */
    method GetEmployeeById(id: Int32) returns (r: ActionResult)
      requires Valid()
      ensures r == NotFound <==> !HasId(table, id)
      ensures forall k :: 0 <= k < |table| && table[k].id == id ==>
                r == OkEmployee(EmployeeToGetEmployeeResponse(table[k].(benefits := [])))
      ensures r.OkEmployee? ==> r.response.benefits == []
      ensures StatusCode(r) == 404 <==> !HasId(table, id)
      ensures StatusCode(r) == 200 <==> HasId(table, id)
    {
      var found := FindIndex(table, id);
      if found.None? {
        return NotFound;
      }
      forall k | 0 <= k < |table| && table[k].id == id
        ensures k == found.value
      {
        FindIndexOfUnique(table, k);
      }
      // the row is read without `Include`, so its benefits are not loaded
      r := OkEmployee(EmployeeToGetEmployeeResponse(table[found.value].(benefits := [])));
    }

    /** `CreateEmployee`: an invalid body answers 400; otherwise the employee
        built from every request field is added under the fresh key the store
        assigns, and the answer is 201 for that key. A failed save is a 500
        and adds nothing. */
    method CreateEmployee(req: CreateEmployeeRequest, newId: Int32, saveSucceeds: bool) returns (r: ActionResult)
      requires Valid()
      requires newId >= 1 && !HasId(table, newId)
      modifies this
      ensures Valid()
      ensures CreateRequestErrors(req) != [] ==> r == BadRequest(CreateRequestErrors(req)) && table == old(table)
      ensures CreateRequestErrors(req) == [] && !saveSucceeds ==> r == ServerError(None) && table == old(table)
      ensures CreateRequestErrors(req) == [] && saveSucceeds ==>
                table == old(table) + [NewEmployee(req, newId)]
                && r == CreatedAt(newId, NewEmployee(req, newId))
      ensures StatusCode(r) == 400 <==> CreateRequestErrors(req) != []
      ensures StatusCode(r) == 500 <==> CreateRequestErrors(req) == [] && !saveSucceeds
      ensures StatusCode(r) == 201 <==> CreateRequestErrors(req) == [] && saveSucceeds
    {
      var errors := CreateRequestErrors(req);
      if errors != [] {
        return BadRequest(errors);
      }
      var newEmployee := NewEmployee(req, newId);
      if !saveSucceeds {
        return ServerError(None);
      }
      table := table + [newEmployee];
      r := CreatedAt(newEmployee.id, newEmployee);
    }

    /** `UpdateEmployee`: the validator (reading `validatorStore`) answers
        400 first; an unknown id answers 404; otherwise the seven whitelisted
        properties are overwritten, and a failed save answers 500 with the
        fixed message and changes nothing. */
    method UpdateEmployee(id: Int32, req: UpdateEmployeeRequest, validatorStore: seq<EmployeeRecord>, saveSucceeds: bool)
      returns (r: ActionResult)
      requires Valid()
      modifies this
      ensures Valid()
      ensures UpdateRequestErrors(req, id, validatorStore) != [] ==>
                r == BadRequest(UpdateRequestErrors(req, id, validatorStore)) && table == old(table)
      ensures UpdateRequestErrors(req, id, validatorStore) == [] && !HasId(old(table), id) ==>
                r == NotFound && table == old(table)
      ensures UpdateRequestErrors(req, id, validatorStore) == [] && HasId(old(table), id) && !saveSucceeds ==>
                r == ServerError(Some(UpdateFailedMessage)) && table == old(table)
      ensures UpdateRequestErrors(req, id, validatorStore) == [] && saveSucceeds ==>
                forall k :: 0 <= k < |old(table)| && old(table)[k].id == id ==>
                  table == old(table)[k := ApplyUpdate(old(table)[k], req)]
                  && r == OkEntity(table[k].(benefits := []))
      ensures r.OkEntity? ==> r.entity.benefits == []
      ensures StatusCode(r) == 400 <==> UpdateRequestErrors(req, id, validatorStore) != []
      ensures StatusCode(r) == 404 <==> UpdateRequestErrors(req, id, validatorStore) == [] && !HasId(old(table), id)
      ensures StatusCode(r) == 500 <==>
                UpdateRequestErrors(req, id, validatorStore) == [] && HasId(old(table), id) && !saveSucceeds
      ensures StatusCode(r) == 200 <==>
                UpdateRequestErrors(req, id, validatorStore) == [] && HasId(old(table), id) && saveSucceeds
    {
      var errors := UpdateRequestErrors(req, id, validatorStore);
      if errors != [] {
        return BadRequest(errors);
      }
      var found := FindIndex(table, id);
      if found.None? {
        return NotFound;
      }
      var k := found.value;
      var existing := table[k];
      existing := existing.(address1 := req.address1);
      existing := existing.(address2 := req.address2);
      existing := existing.(city := req.city);
      existing := existing.(state := req.state);
      existing := existing.(zipCode := req.zipCode);
      existing := existing.(phoneNumber := req.phoneNumber);
      existing := existing.(email := req.email);
      if !saveSucceeds {
        return ServerError(Some(UpdateFailedMessage));
      }
      forall j | 0 <= j < |table| && table[j].id == id
        ensures j == k
      {
        FindIndexOfUnique(table, j);
      }
      table := table[k := existing];
      // `FindAsync` does not load the benefits, so the answered entity has none
      r := OkEntity(existing.(benefits := []));
    }

    /** `DeleteEmployee`: an unknown id answers 404; otherwise the row is
        removed and the answer is 204. A failed save is a 500 and removes
        nothing. */
    method DeleteEmployee(id: Int32, saveSucceeds: bool) returns (r: ActionResult)
      requires Valid()
      modifies this
      ensures Valid()
      ensures !HasId(old(table), id) ==> r == NotFound && table == old(table)
      ensures HasId(old(table), id) && !saveSucceeds ==> r == ServerError(None) && table == old(table)
      ensures HasId(old(table), id) && saveSucceeds ==>
                r == NoContent && |table| == |old(table)| - 1 && !HasId(table, id)
                && forall k :: 0 <= k < |old(table)| && old(table)[k].id == id ==>
                     table == old(table)[..k] + old(table)[k + 1..]
      ensures StatusCode(r) == 404 <==> !HasId(old(table), id)
      ensures StatusCode(r) == 500 <==> HasId(old(table), id) && !saveSucceeds
      ensures StatusCode(r) == 204 <==> HasId(old(table), id) && saveSucceeds
    {
      var found := FindIndex(table, id);
      if found.None? {
        return NotFound;
      }
      if !saveSucceeds {
        return ServerError(None);
      }
      var k := found.value;
      forall j | 0 <= j < |table| && table[j].id == id
        ensures j == k
      {
        FindIndexOfUnique(table, j);
      }
      Repository.RemoveAtKeepsIds(table, k);
      table := table[..k] + table[k + 1..];
      r := NoContent;
    }
  }
}
