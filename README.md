# Employee/department record store

A Dafny model of the Flask service in `app.py`: two tables, `employee` and
`department`, and the eight request handlers that read and write them.

- **State.** `Service.RecordStore` holds the two tables as maps from id to row
  (`Records.Employee`, `Records.Department`). Its invariant `Valid()` says that
  the column constraints hold: `employee_name` and `salary` are not null on
  employees, `employee_name` is not null on departments, and no two employees
  share a non-null `email`. It also says that every stored number fits its
  column (see Numbers).
- **Requests.** A JSON body is a `Records.Payload`. It has one `Field` per key
  any handler reads. `Absent` means the key is missing. `Present(None)` means
  an explicit `null`. Creating reads a missing key as null. Updating keeps the
  current value when the key is missing.
- **Commits.** Every write ends in a commit. `CommitEmployee` first binds
  the row's numbers; `CommitDepartment` has none to bind. Both then check the
  constraints against the other rows, in column order: NOT NULL first, then
  UNIQUE. They either apply the change or report
  the failed constraint as a `StoreError` and leave both tables unchanged.
  `EmployeeViolationExact` proves that this check accepts a row exactly when
  the table stays valid.
- **Ids.** A new row gets one more than the largest id in its table, or 1 when
  the table is empty (`Keys.NextId`). This is how SQLite picks the key of a
  rowid table. The model has no counter fields because the store keeps none:
  after the employee with the largest id is deleted, its id is given out again.
- **Numbers.** SQLite stores an INTEGER in 64 signed bits. An `age` or
  `department_id` outside that range cannot be bound, so the statement fails
  before any constraint is checked (`Overflow`). The `salary` column is a
  float column: its value is converted to a double first, and that fails once
  the integer's magnitude reaches 2^1024 - 2^970 (`Records.DoubleLimit`). A
  path id beyond 64 bits fails the same way in the lookup, before the 404
  check, so `PUT` and `DELETE` with such an id give a server error.
- **Replies.** The single-table handlers do not catch store errors, so a
  failed commit is a `Fault` (a server error). The composite handler catches
  everything and returns an `ErrorBody` with status 200.
- **Listings.** The two GET handlers are functions over the maps. Rows come in
  ascending id order. `app.py` asks for no order (app.py:22, 27, 84 have no
  ORDER BY); the model fixes the order SQLite's rowid table scan gives, which
  is a choice of the model rather than a promise of the program. A
  department's `employees` are every employee whose `department_id` equals the
  department's id.
- **Dangling ids.** The `department_id` foreign key is declared but not
  checked. SQLite leaves foreign keys off unless a connection turns them on,
  and `app.py` never does. So an employee may name a department that does not
  exist (`DanglingReferenceAccepted`). As a result, the guarantee that a
  half-finished composite create leaves a department no employee points at
  holds only when every reference resolved beforehand (`OrphanedDepartment`).
  Without that, a stored employee that names the id the new department gets
  is listed under it (`StaleReferenceJoinsNewDepartment`).
- **Tables at start.** `app.py` never creates the tables itself. The model
  starts from empty tables.

## Model

| member | source | states |
|---|---|---|
| Keys.AscendingIds | app.py:27 | a table scan lists every id of the table exactly once, in ascending order |
| Keys.NextId | app.py:10 | a new row's id is not in use and exceeds every id in use; it is the largest id plus one, or 1 in an empty table |
| Records.NewEmployee | app.py:44-50 | each column of a created employee comes from its key, including an explicit null; a missing key gives null |
| Records.NewDepartment | app.py:104-106 | each column of a created department comes from its key; a missing key gives null |
| Records.MergeEmployee | app.py:62-67 | on an employee update, each column whose key is present takes the supplied value, null included; every other column keeps its value |
| Records.MergeDepartment | app.py:118-119 | the same per-key rule for the two department columns |
| Records.MergeEmptyPayload | app.py:62-67 | an update whose body has none of the keys changes no column |
| Records.MergeIdempotent | app.py:62-67 | repeating an update with the same body leaves the same row |
| Records.CreateIsMergeOntoNull | app.py:44-50 | creating from a body gives the same row as updating an all-null row with that body |
| Records.EmployeeViolation | app.py:11-16 | a number that cannot be bound fails the write before any constraint; with bindable numbers a null name fails NOT NULL first; a pass means the numbers bind and name and salary are set; a UNIQUE failure means another row holds the email |
| Records.DepartmentViolation | app.py:20 | a department write fails exactly when its name is null, and then on that NOT NULL constraint |
| Records.EmployeeViolationExact | app.py:11-16 | the commit check on one employee row passes exactly when the resulting table has only bindable numbers and satisfies NOT NULL on name and salary and UNIQUE on non-null email |
| Records.DepartmentViolationExact | app.py:20 | the commit check on one department row passes exactly when every department in the resulting table has a name |
| Records.RemovePreservesEmployeesOk | app.py:77-78 | deleting an employee cannot break any employee-table constraint |
| Views.ListEmployees | app.py:26-39 | one entry per stored employee, in ascending id order; each entry holds the id and all six columns of its row |
| Views.MembersAmong | app.py:90-96 | every entry is a listed employee whose `department_id` is the department's id, shown without `department_id`; every such listed id has an entry; when the listed ids ascend, so do the entries' ids |
| Views.Members | app.py:22 | a department's `employees` are exactly the employees whose `department_id` equals its id, once each, in ascending id order |
| Views.NoMembersAmong | app.py:22 | a department that no listed employee points at has no employees |
| Views.OneMemberAmong | app.py:22 | a department that exactly one listed employee points at has that employee alone |
| Views.SoleMember | app.py:22 | a department that exactly one employee points at lists just that employee |
| Views.ListDepartments | app.py:83-99 | one entry per stored department, in ascending id order; each has its two columns and exactly its own employees |
| Service.LinkedEmployee | app.py:134-140 | the composite's employee row takes its name from the same key as the department row, and its `department_id` is the new department's id |
| Service.RecordStore.CommitEmployee | app.py:51-52 | a committed employee write is applied when its numbers bind and no constraint fails; otherwise it reports the failure and changes nothing |
| Service.RecordStore.CommitDepartment | app.py:107-108 | the same for a department write |
| Service.RecordStore.CreateEmployee | app.py:41-53 | on success, exactly one employee row is added, under a fresh id, built from the body; on an oversized number or a constraint failure, a fault and no change; departments are never touched |
| Service.RecordStore.UpdateEmployee | app.py:55-69 | a path id beyond 64 bits faults before the lookup and changes nothing; an unknown id gives "Employee not found" (404) and changes nothing; otherwise only that row changes, to the merged row, or nothing changes and the failure (an oversized number or a constraint) is raised |
| Service.RecordStore.DeleteEmployee | app.py:71-79 | a path id beyond 64 bits faults and changes nothing; an unknown id gives "Employee not found" (404) and changes nothing; otherwise exactly that id is removed and all other rows of both tables stay |
| Service.RecordStore.CreateDepartment | app.py:101-109 | on success, exactly one department row is added under a fresh id; a null name faults and changes nothing; employees are never touched |
| Service.RecordStore.UpdateDepartment | app.py:111-121 | a path id beyond 64 bits faults and changes nothing; an unknown id gives "Department not found" (404) and changes nothing; otherwise only that row changes, to the merged row, or nothing changes |
| Service.RecordStore.CreateEmployeeAndDepartment | app.py:124-146 | never faults; if the department fails, nothing changes; if only the employee fails (an oversized number included), the new department stays and employees are unchanged; on success, one department and one employee linked to it are added |
| Service.CreatedEmployeeListed | app.py:44-53 | after a successful create, the employee listing has an entry with the new id and exactly the created fields |
| Service.DeletedEmployeeNotListed | app.py:77-79 | after a delete, the listing no longer shows the id and still shows every other employee |
| Service.DuplicateEmailRejected | app.py:13 | a second create with an email already stored fails on the UNIQUE constraint when its numbers bind and name and salary are present |
| Service.PartialFailureCause | app.py:128-142 | when the composite's employee step fails after the department step succeeded, the cause is an oversized number, a null salary or a taken email, never the name |
| Service.OrphanedDepartment | app.py:131-142 | if every reference resolved beforehand, a department committed just before a failed employee step has no employees |
| Service.StaleReferenceJoinsNewDepartment | app.py:16 | without resolved references, a department just created can list an employee stored before it: the hypothesis of `OrphanedDepartment` is needed |
| Service.OversizedAgeRejected | app.py:12 | an `age` above 2^63-1 fails the write on binding, whatever the other columns hold, as long as the salary converts |
| Service.LinkedDepartmentListed | app.py:134-142 | after a full composite create, the new department lists exactly the new employee, and references still resolve |
| Service.DanglingReferenceAccepted | app.py:16 | a create may set a `department_id` that names no department; the store accepts the row |

## Left out

- HTTP routing, JSON parsing, response encoding and `app.run` (app.py:1-7, 148-149). Each handler returns a `Reply`, and `Reply.Status` gives its status code.
- SQLAlchemy sessions, queries and SQLite configuration. Each commit is modelled as one atomic step: check the constraints, then apply the change. Nothing is flushed early, and a session whose commit failed is assumed discarded when the request ends.
- Body values of the wrong JSON type, and SQLite's type coercion. Each key carries a value of its column's type. A body that is not a JSON object is not modelled either.
- `salary` is a float column. Bodies are modelled as giving it integers: fractional salaries and the double's rounding of a stored salary are not modelled, only whether it is null and whether it converts to a double at all.
- Records.EmployeeViolation, Records.DepartmentViolation: strings are sequences of Unicode scalar values, so a body string holding a lone surrogate escape, which JSON accepts and which fails the write when the driver encodes it as UTF-8 (a server error, or an error body in the composite handler), cannot be expressed and is not modelled.
- Numbers too long for Python's JSON parser (over 4300 digits) make the body unreadable; that belongs to the JSON parsing left out above.
- Column length limits (`String(50)` and the like). SQLite does not enforce them.
- Exception text (`str(e)`, app.py:146). A `StoreError` names the failed constraint instead.
- SQLite's random rowid choice once the largest id reaches 2^63-1. `Keys.NextId` is unbounded.
- Concurrency and isolation between requests. Each request is one sequential operation on the store.
- Creating the tables. The store starts empty.
