/** Employees/GetAllEmployeesRequest.cs: the query of a list request and its
    validator, which bounds the page number and the page size when given. */
module ListRequest {
  import opened Common

  datatype GetAllEmployeesRequest = GetAllEmployeesRequest(
    page: Option<Int32>,
    recordsPerPage: Option<Int32>,
    firstNameContains: Option<string>,
    lastNameContains: Option<string>)

  const PageNotPositive := ValidationFailure("Page", "Page number must be set to a positive number")
  const TooFewRecords := ValidationFailure("RecordsPerPage", "YOu must return at least one record")
  const TooManyRecords := ValidationFailure("RecordsPerPage", "You cannot return more than 100 records.")

  /** `GetAllEmployeesRequestValidator`: a present page must be at least 1 and
      a present page size must lie in 1..100; absent values and the two name
      filters are not checked. */
  function ListRequestErrors(req: GetAllEmployeesRequest): (errors: seq<ValidationFailure>)
    ensures errors == [] <==>
              (req.page.None? || req.page.value >= 1)
              && (req.recordsPerPage.None? || 0 < req.recordsPerPage.value <= 100)
    ensures PageNotPositive in errors <==> req.page.Some? && req.page.value < 1
    ensures TooFewRecords in errors <==> req.recordsPerPage.Some? && req.recordsPerPage.value <= 0
    ensures TooManyRecords in errors <==> req.recordsPerPage.Some? && req.recordsPerPage.value > 100
    ensures |errors| == (if req.page.Some? && req.page.value < 1 then 1 else 0)
                        + (if req.recordsPerPage.Some? && !(0 < req.recordsPerPage.value <= 100) then 1 else 0)
    ensures PageNotPositive in errors ==> errors[0] == PageNotPositive
  {
    (if req.page.Some? && req.page.value < 1 then [PageNotPositive] else [])
    + (match req.recordsPerPage
       case None => []
       case Some(n) =>
         (if n <= 0 then [TooFewRecords] else [])
         + (if n > 100 then [TooManyRecords] else []))
  }

  /** The name filters never affect the outcome. */
  lemma NameFiltersAreNotValidated(req: GetAllEmployeesRequest, first: Option<string>, last: Option<string>)
    ensures ListRequestErrors(req.(firstNameContains := first, lastNameContains := last)) == ListRequestErrors(req)
  {
  }
}
