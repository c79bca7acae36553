# Employee endpoints, modelled in Dafny

This project models the four request handlers of `EmployeesController` in the
EmployeeManagement web API. Each handler is written as a pure function over
two tables. `Employees` is a `seq<Employee>` whose primary key is
`EmployeeId`. `EmployeeAttendance` is a `seq<Attendance>`.

- **Update an employee's code** (`PUT api/Employees/{id}`). The handler looks
  the id up first and answers 404 if it is missing. It then answers 409 if an
  employee with a different id already holds the requested code. Otherwise it
  writes the new code and answers 204, or 500 when the store rejects the
  write. The model is `UpdateCode.UpdateEmployeeCode`. It returns the status
  and the table after the request.
- **Salary listing** (`GET api/Employees`). All employees, highest salary
  first. SQL leaves the order of equal salaries open, so the property is
  stated for any admissible listing: the same multiset of rows, non-increasing
  in salary. The model computes one such listing by insertion.
- **Absence listing** (`GET api/Employees/absent`). An inner join on
  `EmployeeId`, then a filter on `IsAbsent > 0`, then a projection to the
  employee. Duplicates are kept, so an employee is listed once per absent
  attendance row.
- **Monthly report** (`GET api/Employees/monthly-attendance`). The same join,
  grouped by (employee name, month number), with `IsPresent`, `IsAbsent` and
  `IsOffday` summed per group. The year plays no part in the key, so January
  2022 and January 2023 share a row. The employee id plays no part either, so
  two employees with the same name share a row.

How source values are represented:

- Salaries are `decimal(18,2)`. They are held exactly as whole cents, bounded
  by 18 digits.
- `int` columns are 32-bit.
- An attendance date is a valid calendar date from year 1 to 9999.
- Where SQL fixes no order (join, filter, group), properties are stated up to
  multiset.

Modules:

| file | module | content |
|---|---|---|
| `tables.dfy` | `Tables` | rows, column types, the inner join and its multiplicity |
| `update_code.dfy` | `UpdateCode` | the code update and its error precedence |
| `salary_listing.dfy` | `SalaryListing` | the salary listing |
| `absence_listing.dfy` | `AbsenceListing` | the absence listing |
| `monthly_report.dfy` | `MonthlyReport` | the grouping, sums and conservation of totals |
| `scenarios.dfy` | `Scenarios` | worked examples on small tables, proved for each handler |

## Model

| member | source | states |
|---|---|---|
| Tables.JoinOne | WebApplication3/Controllers/EmployeesController.cs:69 | the join rows of one employee row pair it with attendance rows of the table that carry its id, at most one per attendance row |
| Tables.Join | WebApplication3/Controllers/EmployeesController.cs:68-69 | every joined row pairs an employee row and an attendance row of the two tables with equal `EmployeeId` |
| Tables.JoinCount | WebApplication3/Controllers/EmployeesController.cs:68-69 | the inner join holds each (employee row, attendance row) pair with equal `EmployeeId` exactly (copies of the employee) × (copies of the attendance row) times, and no other pair |
| Tables.JoinOneCount | WebApplication3/Controllers/EmployeesController.cs:82-86 | one employee row is paired with each attendance row carrying its id, as often as that row occurs, and with nothing else |
| UpdateCode.FindById | WebApplication3/Controllers/EmployeesController.cs:28-29 | a found row carries the requested id; nothing is found exactly when no row carries it |
| UpdateCode.CodeHeldByOther | WebApplication3/Controllers/EmployeesController.cs:35 | true exactly when some row with a different id holds the requested code |
| UpdateCode.SetCode | WebApplication3/Controllers/EmployeesController.cs:42 | the rewritten table has the same length; rows of other ids are untouched; the target row differs only in its code |
| UpdateCode.UpdateEmployeeCode | WebApplication3/Controllers/EmployeesController.cs:25-54 | 404 exactly when no row has the id; 409 exactly when the id exists and another id holds the code; 500 exactly when neither applies and the write fails; every non-204 outcome leaves the table unchanged; 204 changes only the target's code |
| UpdateCode.UnknownIdIsNotFound | WebApplication3/Controllers/EmployeesController.cs:28-32 | an unknown id gives 404 and an unchanged table, whatever the code and even if it is taken |
| UpdateCode.TakenCodeIsConflict | WebApplication3/Controllers/EmployeesController.cs:35-39 | a known id asking for a code held by a different id gives 409, and every code stays as it was |
| UpdateCode.OwnCodeIsNoConflict | WebApplication3/Controllers/EmployeesController.cs:35 | under unique codes, re-submitting an employee's current code is never a conflict; if ids are unique too, a successful write leaves the table equal to the old one |
| UpdateCode.SuccessMakesCodeOwned | WebApplication3/Controllers/EmployeesController.cs:35-53 | after a 204 no other employee holds the new code, and looking the id up finds the old row with the new code |
| UpdateCode.FindAfterSetCode | WebApplication3/Controllers/EmployeesController.cs:28-42 | looking the id up after the rewrite finds the originally found row with the new code, or nothing if there was none |
| UpdateCode.UpdateKeepsInvariants | WebApplication3/Controllers/EmployeesController.cs:42-53 | every outcome keeps the primary key unique, and keeps codes unique when they were unique before |
| SalaryListing.Insert | WebApplication3/Controllers/EmployeesController.cs:60 | inserting into a non-increasing listing keeps it non-increasing and adds exactly that row |
| SalaryListing.GetEmployeesBySalary | WebApplication3/Controllers/EmployeesController.cs:60 | the result has the same multiset of rows as the table and its salaries never increase |
| SalaryListing.SalaryColumnDetermined | WebApplication3/Controllers/EmployeesController.cs:60 | every admissible listing, whatever the order of ties, has the same salary column as the computed one |
| SalaryListing.FirstEarnsMost | WebApplication3/Controllers/EmployeesController.cs:60 | for a non-empty table the first row earns at least as much as every employee |
| SalaryListing.SalariesOfPermutation | WebApplication3/Controllers/EmployeesController.cs:60 | reordering the rows does not change the multiset of salaries |
| AbsenceListing.AbsentRows | WebApplication3/Controllers/EmployeesController.cs:70 | counts at most as many rows as the table; zero exactly when no row of that employee has `IsAbsent > 0` |
| AbsenceListing.KeepAbsent | WebApplication3/Controllers/EmployeesController.cs:70 | keeps only joined rows of the input whose attendance has `IsAbsent > 0`, never more rows than the input |
| AbsenceListing.KeepAbsentCount | WebApplication3/Controllers/EmployeesController.cs:70 | the filter keeps each joined row with an absence as often as it occurs and drops every other row |
| AbsenceListing.EmployeesOf | WebApplication3/Controllers/EmployeesController.cs:71 | one employee per joined row, position by position: the employee part of that row |
| AbsenceListing.GetEmployeesWithAbsence | WebApplication3/Controllers/EmployeesController.cs:68-72 | every employee appears (copies in the table) × (absent attendance rows with its id) times |
| AbsenceListing.AbsenceMultiplicity | WebApplication3/Controllers/EmployeesController.cs:68-72 | the join-filter-project pipeline yields each employee as many times as its copies times its absences |
| AbsenceListing.AbsentFromOne | WebApplication3/Controllers/EmployeesController.cs:69-71 | one employee row contributes itself once per absent row with its id, and nothing else |
| AbsenceListing.ListedIffAbsent | WebApplication3/Controllers/EmployeesController.cs:68-72 | an employee is listed exactly when it is in the table and some attendance row with its id has `IsAbsent > 0` |
| AbsenceListing.OncePerAbsence | WebApplication3/Controllers/EmployeesController.cs:68-72 | under the primary key, each employee row is listed exactly once per absent row, not deduplicated |
| AbsenceListing.NoAttendanceNotListed | WebApplication3/Controllers/EmployeesController.cs:68-72 | an employee with no attendance rows at all is never listed |
| MonthlyReport.SameGroupIff | WebApplication3/Controllers/EmployeesController.cs:89 | two joined rows share a group key exactly when their employee names and month numbers are equal, whatever their years and employee ids |
| MonthlyReport.AddToGroup | WebApplication3/Controllers/EmployeesController.cs:88-98 | adding a row to a report keeps keys distinct, adds the key if new, raises only that group's totals, and raises the grand totals by the row's values |
| MonthlyReport.GroupByKey | WebApplication3/Controllers/EmployeesController.cs:88-98 | the grouping has distinct keys, exactly the keys of its input, each group's totals equal to its input rows' sums, and grand totals equal to the input's |
| MonthlyReport.OneRowPerKey | WebApplication3/Controllers/EmployeesController.cs:88-89 | with distinct keys, the report has as many rows as keys |
| MonthlyReport.GetMonthlyAttendanceReport | WebApplication3/Controllers/EmployeesController.cs:81-100 | no two rows share a (name, month) key; a key has a row exactly when some joined row carries it; each row's totals are its group's sums; the grand totals equal those of all joined rows |
| MonthlyReport.ReportRowCount | WebApplication3/Controllers/EmployeesController.cs:88-91 | the report has exactly one row per distinct (name, month) pair among the joined rows |
| MonthlyReport.JoinConservesTotals | WebApplication3/Controllers/EmployeesController.cs:81-87 | under the primary key, each column's total over the joined rows equals its total over the attendance rows of known employees |
| Tables.JoinCarriesKnownRows | WebApplication3/Controllers/EmployeesController.cs:81-87 | under the primary key, the attendance parts of the joined rows are exactly the attendance rows whose `EmployeeId` names an employee, each once |
| MonthlyReport.ReportConservesAttendance | WebApplication3/Controllers/EmployeesController.cs:81-100 | under the primary key, each report column sums to that column over the attendance rows of known employees; rows of unknown employees are dropped |
| MonthlyReport.SumMatchedUnion | WebApplication3/Controllers/EmployeesController.cs:84-85 | the attendance rows matched by disjoint id sets add up separately |
| Scenarios.BobBeforeAlice | WebApplication3/Controllers/EmployeesController.cs:60 | Bob (900.00) is listed before Alice (500.00) |
| Scenarios.AliceTakesCode | WebApplication3/Controllers/EmployeesController.cs:25-54 | Alice asking for Bob's code gets 409; asking for an unused code gets 204 and only her code changes; an unknown id gets 404 |
| Scenarios.AbsencesAreNotDeduplicated | WebApplication3/Controllers/EmployeesController.cs:68-72 | two absences of Alice list her twice; Bob, only present, is not listed |
| Scenarios.OneGroup | WebApplication3/Controllers/EmployeesController.cs:88-98 | when all joined rows share one key, the report is that single row with their sums |
| Scenarios.YearsMerge | WebApplication3/Controllers/EmployeesController.cs:89 | January 2022 and January 2023 of one employee end up in one report row |
| Scenarios.NamesMerge | WebApplication3/Controllers/EmployeesController.cs:89 | two employees named Alice share one report row; an attendance row of an unknown employee adds nothing |

## Left out

- HTTP routing, async/await, JSON mapping and `ActionResult` wrappers. Outcomes are the `Status` datatype, and a response carries the table after the request instead of a body.
- The EF Core `DbContext` (`WebApplication3/Models/AppDbContext.cs`). It is replaced by plain sequences.
- The migration's DDL. Only its column types are kept: 32-bit `int`, `decimal(18,2)`, and `datetime2` reduced to its date.
- The time of day of `AttendanceDate`. The only part the report reads is the month.
- `Employee.cs` and `MonthlyAttendanceReport.cs` are not part of this model. Their fields are taken from the migration and from the `Select` in the report handler.
- Model validation of the request body by `[ApiController]`. The model assumes the body arrives and carries a code string.
- UpdateCode.UpdateEmployeeCode: the failure of `SaveChangesAsync` with `DbUpdateConcurrencyException` is the input `saved` rather than a property of the store. Its one modelled effect is a 500 with the table unchanged.
- UpdateCode.UpdateEmployeeCode: codes are compared by exact string equality. SQL Server's default collation ignores case and trailing spaces when comparing `nvarchar`, and that comparison is not modelled.
- MonthlyReport.GetMonthlyAttendanceReport: the group key compares employee names by exact string equality, not by the database collation. Under SQL Server's default collation "Alice", "alice" and "Alice " fall into one group; the model gives them separate rows.
- The race between the duplicate check and the write under concurrent requests. The model is sequential.
- MonthlyReport.GetMonthlyAttendanceReport: report rows carry the month number, not the name that `CultureInfo.CurrentCulture` prints. The name is locale-dependent.
- MonthlyReport.GetMonthlyAttendanceReport: the totals are unbounded integers. SQL `SUM` over an `int` column fails with an arithmetic overflow once a group's total leaves the 32-bit range, and that failure is not modelled.
- The order of the join, absence and report results. The model fixes one order, with employees outer and attendance inner. All properties are stated up to multiset or by key, because SQL promises no order there.
