# Employee API core, modelled in Dafny

This project models the logic of a small CRUD HTTP API for employee records.

- **In-memory employee repository.** It keeps a list of `Employee` objects. It
  assigns each new employee the identity "largest stored identity + 1" (1 when
  the list is empty). `Update` renames a stored employee in place, and `Delete`
  removes an employee by object identity.
- **Request validators.** A create request needs a first and a last name. A
  list query bounds the page number and the page size. An update may not blank
  an Address1 that is already set, which the validator checks against the
  repository.
- **Employee endpoints.** They list, get, create, update and delete employees
  against the database's `Employees` table. The read endpoints map employees
  to responses without the social security number.

Files:

- `common.dfy` (`Common`): optional values, the 32-bit `int` and its unchecked
  arithmetic, white space, substring search, and validation failures.
- `entities.dfy` (`Entities`): `EmployeeRecord`, the value of an employee, and
  `Employee`, the mutable object whose `Value()` is that record. It also holds
  the lookup `FindIndex` (first match by identity).
- `repository.dfy` (`Repository`): the class `EmployeeRepository` over
  `employees: seq<Employee>`. Its invariant `Valid()` says that stored
  identities are pairwise distinct and at least 1.
- `create_request.dfy`, `list_request.dfy`, `update_request.dfy`: the request
  shapes and their validators, as pure functions.
- `controller.dfy` (`Controller`): the response shapes and the projections.
  It also holds the list query (LINQ `Skip`, `Take`, `Where`) and the class
  `EmployeesController`. That class owns `table: seq<EmployeeRecord>`, the
  `Employees` table in table order, with unique positive keys.

Modelling choices:

- Exceptions and HTTP results are datatypes. `Outcome.Fail(ArgumentNull(..))`
  stands for the repository's `ArgumentNullException`. `ActionResult` holds the
  actions' results; `StatusCode` maps them to their status numbers, and each
  action states the condition for each status it can answer.
- A save either succeeds or fails. The choice is the parameter `saveSucceeds`.
  A failed save leaves the table unchanged and answers 500.
- The database assigns the key of a new employee. The key is the parameter
  `newId`, assumed positive and not in use.
- `Program.cs:35` installs a validation filter on every action. The handlers
  therefore start with the request's validator and answer 400 with its
  failures. The update validator reads the employee repository, not the
  database table. Its contents are the parameter `validatorStore`.
- The route id that the update validator reads from the HTTP context is a
  parameter.

Behaviour of the code worth noting:

- The repository's `Update` copies only `FirstName` and `LastName`
  (`Employees/EmployeeRepository.cs:55-56`). It does not copy address or
  contact fields.
- `CreateEmployee` and `UpdateEmployee` answer with the stored entity itself,
  social security number included (`Controllers/EmployeesController.cs:123`,
  `:165`). Only the read endpoints drop it.
- The update validator runs before the action. It already fails for an id the
  repository does not hold (`Employees/UpdateEmployeeRequest.cs:56-59`). When
  the validator's repository and the table agree, an unknown id is therefore
  answered 400, not 404 (see `UpdateRequest.AddressRuleHolds`).
- The library's `NotEmpty` rule on strings also rejects text that is only
  white space.
- Only the list query loads the benefits (`.Include(e => e.Benefits)`,
  `Controllers/EmployeesController.cs:38`). The context does not track queries
  (`Program.cs:40`). `GetEmployeeById` (`:85`) and `UpdateEmployee` (`:143`)
  therefore see an employee whose `Benefits` list is the empty initializer
  (`Employee.cs:14`). Their 200 answers carry no benefits, while the table
  keeps them.

`Create` on an object that is already stored gives it a new identity and
appends it a second time. The identities are then no longer unique.
`Repository.EmployeeRepository.Create` states this: it promises `Valid()` only
when the entity was not stored before and the largest identity is below the
`int` maximum.

## Model

| member | source | states |
|---|---|---|
| `Entities.FindIndex` | Employees/EmployeeRepository.cs:16-19 | finds the position of the first record with the identity, or none exactly when no record has it |
| `Entities.FindIndexOfUnique` | Controllers/EmployeesController.cs:85 | with unique identities, the record at any position carrying the id is the one found (single equals first) |
| `Entities.Employee.constructor` | Employee.cs:1-15 | a new employee object holds exactly the given field values |
| `Repository.MaxId` | Employees/EmployeeRepository.cs:41 | the identity maximum (0 for an empty list) bounds every stored identity and is one of them |
| `Repository.NextId` | Employees/EmployeeRepository.cs:41 | the new identity is the maximum plus one below the `int` maximum, and wraps to the most negative `int` at it |
| `Repository.NextIdIsFresh` | Employees/EmployeeRepository.cs:41 | below the `int` maximum the new identity is max + 1, greater than every stored one, unused, and at least 1 when stored ones are |
| `Repository.AppendFreshKeepsIds` | Employees/EmployeeRepository.cs:41-42 | appending a record whose identity exceeds every stored one keeps identities unique and positive, and the lookup of its identity finds the new last entry |
| `Repository.NextIdWrapsAtCeiling` | Employees/EmployeeRepository.cs:41 | at the `int` maximum the increment wraps to the most negative `int`, not above any stored identity |
| `Repository.IndexOf` | Employees/EmployeeRepository.cs:65 | finds the first occurrence of the object: it is there and nowhere earlier |
| `Repository.RemoveFirst` | Employees/EmployeeRepository.cs:65 | `Remove` drops the first occurrence only, one element fewer, the others in order; a missing object changes nothing |
| `Repository.RemoveAtKeepsIds` | Employees/EmployeeRepository.cs:65 | removing one record keeps identities unique and positive and no other record carries the removed identity |
| `Repository.CopyNames` | Employees/EmployeeRepository.cs:51-57 | only the record with the entity's identity changes, only in first and last name; identities and all other fields stay; unknown identity changes nothing |
| `Repository.EmployeeRepository.constructor` | Employees/EmployeeRepository.cs:14 | a new repository is empty and satisfies the invariant |
| `Repository.EmployeeRepository.GetById` | Employees/EmployeeRepository.cs:16-19 | null exactly when no stored employee has the id, otherwise the first stored employee with it; nothing is modified |
| `Repository.EmployeeRepository.GetAll` | Employees/EmployeeRepository.cs:21-24 | the stored objects, in insertion order, as of the call |
| `Repository.EmployeeRepository.Create` | Employees/EmployeeRepository.cs:28-43 | null throws and changes nothing; otherwise the entity gets identity max + 1 and is appended at the end, earlier entries unchanged; for a new object below the `int` maximum the invariant holds and looking up the new identity finds the new last entry |
| `Repository.EmployeeRepository.Update` | Employees/EmployeeRepository.cs:45-58 | null throws and changes nothing; otherwise the stored values become `CopyNames` of the old ones, so ids, SSN and contact fields are untouched; the invariant is kept |
| `Repository.EmployeeRepository.Delete` | Employees/EmployeeRepository.cs:59-66 | null throws and changes nothing; otherwise the list becomes `RemoveFirst` of the old list by object identity, the deleted identity is no longer found, and the invariant is kept |
| `CreateRequest.NotEmpty` | Employees/CreateEmployeeRequest.cs:32-33 | an accepted name is present and non-empty |
| `CreateRequest.CreateRequestErrors` | Employees/CreateEmployeeRequest.cs:26-38 | no failure exactly when both names are non-blank; exactly one failure per blank name, each under its own property, the first-name failure first |
| `CreateRequest.OnlyNamesAreValidated` | Employees/CreateEmployeeRequest.cs:28-38 | SSN, address and contact values never change the outcome |
| `ListRequest.ListRequestErrors` | Employees/GetAllEmployeesRequest.cs:14-24 | no failure exactly when a present page is at least 1 and a present page size lies in 1..100; each message appears exactly when its bound is broken, one failure per broken bound and the page failure first |
| `ListRequest.NameFiltersAreNotValidated` | Employees/GetAllEmployeesRequest.cs:6-23 | the two name filters never change the outcome |
| `UpdateRequest.AddressRuleHolds` | Employees/UpdateEmployeeRequest.cs:49-66 | fails for an unknown id; fails when the stored Address1 is set and the new one is blank; holds when the stored Address1 is null; holds when the new one is not blank |
| `UpdateRequest.UpdateRequestErrors` | Employees/UpdateEmployeeRequest.cs:44-46 | no failure exactly when the Address1 rule holds, otherwise the single Address1 message |
| `UpdateRequest.OnlyAddress1IsConstrained` | Employees/UpdateEmployeeRequest.cs:11-17 | requests that agree on Address1 get the same outcome |
| `UpdateRequest.NotBeEmptyIfItIsSetOnEmployeeAlready` | Employees/UpdateEmployeeRequest.cs:49-66 | the rule evaluated through the repository's `GetById` equals the rule on its contents; the repository is not modified |
| `Controller.BenefitToBenefitResponse` | Controllers/EmployeesController.cs:247-256 | the benefit response keeps identity, employee identity, type and cost, so the benefit can be read back from it |
| `Controller.EmployeeToGetEmployeeResponse` | Controllers/EmployeesController.cs:219-243 | benefits are mapped one to one, in order, by the benefit mapping |
| `Controller.Responses` | Controllers/EmployeesController.cs:57 | one response per listed row, in order |
| `Controller.ResponseOmitsOnlyIdAndSsn` | Controllers/EmployeesController.cs:219-243 | the employee is recovered from its response plus identity and SSN: names, address, contact and benefits are copied unchanged |
| `Controller.ResponseIgnoresSsn` | Controllers/EmployeesController.cs:219-243 | the response does not depend on the SSN |
| `Controller.NewEmployee` | Controllers/EmployeesController.cs:104-116 | every request field, SSN included, is the new employee's field (round trip through `AsCreateRequest`), with the given key and no benefits |
| `Controller.NewEmployeeFromOwnFields` | Controllers/EmployeesController.cs:104-116 | creating from an employee's own fields rebuilds it |
| `Controller.ApplyUpdate` | Controllers/EmployeesController.cs:150-156 | the seven whitelisted properties equal the request's, nulls included; identity, names, SSN and benefits are kept |
| `Controller.ApplyOwnFieldsIsIdentity` | Controllers/EmployeesController.cs:150-156 | updating with the employee's own seven values changes nothing |
| `Controller.PageNumber` | Controllers/EmployeesController.cs:30 | the request's page when it gives one, otherwise 1 (also when the whole request is absent) |
| `Controller.RecordsPerPage` | Controllers/EmployeesController.cs:31 | the request's page size when it gives one, otherwise 100 (also when the whole request is absent) |
| `Controller.SkipCount` | Controllers/EmployeesController.cs:39 | the skip count is non-negative for a page of at least 1 and zero on page 1 |
| `Controller.SkipCountAsWritten` | Controllers/EmployeesController.cs:39 | the 32-bit product is congruent to the true skip count modulo 2^32, and equal to it whenever the true count fits in an `int` |
| `Controller.Skip` | Controllers/EmployeesController.cs:39 | LINQ `Skip` drops the first `n` elements, keeps the rest in order, skips nothing for a negative count and leaves nothing for a count past the end |
| `Controller.Take` | Controllers/EmployeesController.cs:40 | LINQ `Take` keeps the first `n` elements in order, nothing for a negative count and everything for a count past the end |
| `Controller.AcceptedRequestBounds` | Controllers/EmployeesController.cs:30-31 | absent values default to page 1 and 100 records; every accepted query has page at least 1, size in 1..100 and a non-negative skip |
| `Controller.PageIsSlice` | Controllers/EmployeesController.cs:39-40 | skip then take with non-negative counts is the contiguous slice starting at the skip count, at most the take count long |
| `Controller.Where` | Controllers/EmployeesController.cs:46 | the result is an order-preserving subsequence of the input, every element satisfies the filter and every input element that does is kept |
| `Controller.WhereCounts` | Controllers/EmployeesController.cs:46 | each element satisfying the filter occurs in the result exactly as often as in the input, and no other element occurs |
| `Controller.ByFirstName` | Controllers/EmployeesController.cs:44-47 | with a non-blank filter text, the rows whose first name contains it, in order and with their multiplicity; with a blank or absent text, all rows |
| `Controller.ByLastName` | Controllers/EmployeesController.cs:48-51 | with a non-blank filter text, the rows whose last name contains it, in order and with their multiplicity; with a blank or absent text, all rows |
| `Controller.ListQuery` | Controllers/EmployeesController.cs:37-52 | for any skip count, including a negative one, the result lists exactly the rows of the skipped-and-taken page that pass both active filters, in order and with their multiplicity |
| `Controller.QueryEmployees` | Controllers/EmployeesController.cs:30-52 | for a page of at least 1, at most a page of rows: exactly those of the slice starting at the skip count that pass the filters, in order and with their multiplicity |
| `Controller.QueryEmployeesAsWritten` | Controllers/EmployeesController.cs:30-52 | with the 32-bit skip count: the same rows as `QueryEmployees` while the true skip count fits in an `int`, and the first page once the count wraps negative |
| `Controller.QueryIsFilteredSlice` | Controllers/EmployeesController.cs:37-52 | for a non-negative skip the listed rows are an order-preserving subsequence of the contiguous page slice, at most a page long, each containing the active filter texts, and every row of the slice that passes is listed as often as it occurs there |
| `Controller.SecondPageOfTwo` | Controllers/EmployeesController.cs:37-40 | page 2 with one record per page over two rows lists exactly the second row |
| `Controller.OverflowingPageListsFirstPage` | Controllers/EmployeesController.cs:39 | page 21474838 with 100 records passes validation but the 32-bit skip wraps negative, so the first page is listed where the intended result is empty |
| `Controller.EmployeesController.GetAllEmployees` | Controllers/EmployeesController.cs:27-58 | an invalid query answers 400 with its failures; otherwise 200 with the responses of the filtered page, at most the page size and never more than 100; `StatusCode` of the answer is each of these codes exactly under its condition |
| `Controller.EmployeesController.constructor` | Controllers/EmployeesController.cs:15-20 | the controller works on the given table, whose keys are unique and positive |
| `Controller.EmployeesController.GetEmployeeById` | Controllers/EmployeesController.cs:69-91 | 404 exactly when no row has the id; otherwise 200 with the response of that row read without its benefits, so the answered benefit list is empty; `StatusCode` of the answer is each of these codes exactly under its condition |
| `Controller.EmployeesController.CreateEmployee` | Controllers/EmployeesController.cs:102-124 | an invalid body answers 400 and a failed save 500, both leaving the table unchanged; otherwise the employee built from the request is appended and 201 carries its key and the entity; keys stay unique; `StatusCode` of the answer is each of these codes exactly under its condition |
| `Controller.EmployeesController.UpdateEmployee` | Controllers/EmployeesController.cs:137-173 | validator failure is 400, unknown id 404, failed save 500 with the fixed message, each leaving the table unchanged; otherwise only that row changes, by `ApplyUpdate`, and 200 carries it as read without its benefits, so with an empty benefit list; `StatusCode` of the answer is each of these codes exactly under its condition |
| `Controller.EmployeesController.DeleteEmployee` | Controllers/EmployeesController.cs:179-192 | unknown id is 404 and a failed save 500, both unchanged; otherwise exactly that row is removed, the others in order, and 204 is answered; `StatusCode` of the answer is each of these codes exactly under its condition |

## Findings

| source | as written | input that shows it | evidently intended | confidence | as-written member | corrected member |
|---|---|---|---|---|---|---|
| Controllers/EmployeesController.cs:39 | `(page - 1) * numberOfRecords` is unchecked 32-bit `int` arithmetic and wraps; `Skip` of a negative count skips nothing | `Page=21474838`, `RecordsPerPage=100`, which the validator accepts: the skip wraps to -2147483596 and the first page is listed | the true offset 2147483700, past the end of any realistic table, so an empty list | not executed; medium (relies on `Skip` and SQLite's `OFFSET` treating a negative count as 0) | `Controller.OverflowingPageListsFirstPage` | `Controller.SkipCount` |

The list endpoint of the model (`QueryEmployees`, used by
`EmployeesController.GetAllEmployees`) uses the corrected `SkipCount`.
`QueryEmployeesAsWritten` keeps the 32-bit product for the lemma above.

## Left out

- The generic `IRepository<T>` interface (`Abstractions/IRepository.cs`) is not
  modelled as a separate abstraction. `EmployeeRepository` carries its five
  operations, and nothing else implements it here.
- Program.cs, AppDbContext.cs, SeedData.cs, Controllers/BaseController.cs and
  Extensions.cs are framework wiring, seeding and error formatting. The
  validation filter class itself is not part of this model. Its effect is
  modelled as "validate first, answer 400 with the failures".
- Employees/GetEmployeeResponse.cs holds duplicate shapes. The response follows
  the controller's projection, which includes `Benefits`.
- Asynchrony, logging, and the exceptions behind a failed `SaveChangesAsync`
  are not modelled. A failed save is the boolean `saveSucceeds`. Entity
  Framework change tracking is not modelled either.
- The database's key generation is not modelled. `CreateEmployee` takes the new
  key as a parameter that must be positive and unused.
- The list query has no `ORDER BY`. The model assumes the table's own order.
- `IsNullOrWhiteSpace` uses a fixed ASCII set of white-space characters, not
  the full Unicode set.
- `Contains` is exact, case-sensitive substring search. SQLite's
  case-sensitivity rules for the translated query are not modelled.
- `SingleOrDefaultAsync` would throw on duplicate keys. The table invariant
  (unique keys) rules that out, so the lookup is modelled as first match.
- The `decimal` cost is carried as a value and never computed with.
- Repository.EmployeeRepository.GetAll: the source hands out its live
  `List<Employee>`, so later `Create` and `Delete` calls show through it and
  deleting while enumerating it throws. The model returns the stored objects
  in list order as of the call, a sequence value that later calls do not
  change.
- Reading the route id from the HTTP context is not modelled. The id is a
  parameter.
- `validatorStore`: the update validator's constructor asks for an
  `IRepository<Employee>` (`Employees/UpdateEmployeeRequest.cs:34`). No such
  binding appears in `Program.cs`, which only scans for validators (`:24`).
  As written, the validator cannot be built there. The model passes the
  repository's contents as `validatorStore`, as if one were bound.
- A database-backed repository and the benefit catalogue with its join table
  are not part of this model.
