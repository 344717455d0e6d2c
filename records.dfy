/**
 * The rows of the two tables, the JSON body of a request, and the column
 * constraints the store checks when a change is committed.
 */
module Records {
  import opened Wrappers

  /** The salary column: a float column that the bodies here fill with integers. */
  type Salary = int

  /** The range of SQLite's INTEGER storage class, a signed 64-bit integer. */
  const MinInt64 := -0x8000_0000_0000_0000
  const MaxInt64 := 0x7FFF_FFFF_FFFF_FFFF

  const TwoTo64 := 0x1_0000_0000_0000_0000
  const TwoTo192 := TwoTo64 * TwoTo64 * TwoTo64
  const TwoTo960 := TwoTo192 * TwoTo192 * TwoTo192 * TwoTo192 * TwoTo192

  /**
   * The least magnitude an integer converted to a double rounds to infinity:
   * 2^1024 - 2^970, halfway between the largest double (2^1024 - 2^971) and
   * 2^1024, where rounding to even goes up.
   */
  const DoubleLimit := 0xFF_FFFF_FFFF_FFFC * (TwoTo960 * 0x100)

  /** A value an INTEGER column can bind: null, or within 64 bits. */
  predicate FitsInteger(v: Option<int>)
  {
    v.None? || MinInt64 <= v.value <= MaxInt64
  }

  /** A value a float column can bind once converted to a double: null, or below `DoubleLimit` in magnitude. */
  predicate FitsDouble(v: Option<int>)
  {
    v.None? || -DoubleLimit < v.value < DoubleLimit
  }

  /** A row of the `employee` table, without its id (the id is the table's key). */
  datatype Employee = Employee(
    employeeName: Option<string>,
    age: Option<int>,
    email: Option<string>,
    designation: Option<string>,
    salary: Option<Salary>,
    departmentId: Option<int>)

  /** A row of the `department` table, without its id. */
  datatype Department = Department(
    employeeName: Option<string>,
    departmentName: Option<string>)

  /** One key of a JSON request body: missing, or present with a value that may be null. */
  datatype Field<+T> = Absent | Present(value: Option<T>) {

    /** Reading the key with no default: a missing key reads as null. */
    function OrNull(): Option<T> {
      match this
      case Absent => None
      case Present(v) => v
    }

    /** Reading the key with the current column value as default. */
    function Or(current: Option<T>): Option<T> {
      match this
      case Absent => current
      case Present(v) => v
    }
  }

  /** A request body: one entry per key any handler reads. */
  datatype Payload = Payload(
    employeeName: Field<string>,
    age: Field<int>,
    email: Field<string>,
    designation: Field<string>,
    salary: Field<Salary>,
    departmentId: Field<int>,
    departmentName: Field<string>)

  /** The body `{}`. */
  const EmptyPayload := Payload(Absent, Absent, Absent, Absent, Absent, Absent, Absent)

  /** An employee row with every column null. */
  const NullEmployee := Employee(None, None, None, None, None, None)

  /** A department row with every column null. */
  const NullDepartment := Department(None, None)

  /** How one key of the body decides one column: a present key sets it, null included; a missing key keeps `before`. */
  ghost predicate Sets<T>(key: Field<T>, before: Option<T>, after: Option<T>)
  {
    if key.Present? then after == key.value else after == before
  }

  /** The row a create builds from the body: each column from its key, null where the key is missing. */
  function NewEmployee(p: Payload): (e: Employee)
    ensures Sets(p.employeeName, None, e.employeeName)
    ensures Sets(p.age, None, e.age)
    ensures Sets(p.email, None, e.email)
    ensures Sets(p.designation, None, e.designation)
    ensures Sets(p.salary, None, e.salary)
    ensures Sets(p.departmentId, None, e.departmentId)
  {
    Employee(p.employeeName.OrNull(), p.age.OrNull(), p.email.OrNull(),
             p.designation.OrNull(), p.salary.OrNull(), p.departmentId.OrNull())
  }

  /** The department row a create builds from the body. */
  function NewDepartment(p: Payload): (d: Department)
    ensures Sets(p.employeeName, None, d.employeeName)
    ensures Sets(p.departmentName, None, d.departmentName)
  {
    Department(p.employeeName.OrNull(), p.departmentName.OrNull())
  }

  /** The employee row an update leaves: the keys present overwrite, the others keep `e`'s values. */
  function MergeEmployee(e: Employee, p: Payload): (r: Employee)
    ensures Sets(p.employeeName, e.employeeName, r.employeeName)
    ensures Sets(p.age, e.age, r.age)
    ensures Sets(p.email, e.email, r.email)
    ensures Sets(p.designation, e.designation, r.designation)
    ensures Sets(p.salary, e.salary, r.salary)
    ensures Sets(p.departmentId, e.departmentId, r.departmentId)
  {
    Employee(p.employeeName.Or(e.employeeName), p.age.Or(e.age), p.email.Or(e.email),
             p.designation.Or(e.designation), p.salary.Or(e.salary), p.departmentId.Or(e.departmentId))
  }

  /** The department row an update leaves. */
  function MergeDepartment(d: Department, p: Payload): (r: Department)
    ensures Sets(p.employeeName, d.employeeName, r.employeeName)
    ensures Sets(p.departmentName, d.departmentName, r.departmentName)
  {
    Department(p.employeeName.Or(d.employeeName), p.departmentName.Or(d.departmentName))
  }

  /** An update with the body `{}` changes nothing. */
  lemma MergeEmptyPayload(e: Employee, d: Department)
    ensures MergeEmployee(e, EmptyPayload) == e
    ensures MergeDepartment(d, EmptyPayload) == d
  {
  }

  /** Repeating an update with the same body changes nothing more. */
  lemma MergeIdempotent(e: Employee, d: Department, p: Payload)
    ensures MergeEmployee(MergeEmployee(e, p), p) == MergeEmployee(e, p)
    ensures MergeDepartment(MergeDepartment(d, p), p) == MergeDepartment(d, p)
  {
  }

  /** Creating from a body is updating an all-null row with it. */
  lemma CreateIsMergeOntoNull(p: Payload)
    ensures NewEmployee(p) == MergeEmployee(NullEmployee, p)
    ensures NewDepartment(p) == MergeDepartment(NullDepartment, p)
  {
  }

  /** The constraint a commit reports as failed, by the column it is declared on. */
  datatype StoreError =
    | NotNullFailed(column: string)
    | UniqueFailed(column: string)
    | Overflow(column: string)   // a value too large to bind, refused before the statement runs

  /** Some row other than `id` already has this email. */
  predicate EmailTaken(emps: map<int, Employee>, id: int, email: string)
  {
    exists k :: k in emps && k != id && emps[k].email == Some(email)
  }

  /** Every number in `e` can be bound to its column. */
  predicate Bindable(e: Employee)
  {
    FitsDouble(e.salary) && FitsInteger(e.age) && FitsInteger(e.departmentId)
  }

  /**
   * The first failure that writing `e` as row `id` meets, if any.  Binding
   * comes first: the salary is converted to a double while the statement's
   * parameters are prepared, then the integers are bound in column order.
   * Then the two NOT NULL columns in column order, then the UNIQUE email
   * among the other rows (nulls never clash).
   */
  function EmployeeViolation(emps: map<int, Employee>, id: int, e: Employee): (r: Option<StoreError>)
    ensures !Bindable(e) ==> r.Some? && r.value.Overflow?
    ensures Bindable(e) && e.employeeName.None? ==> r == Some(NotNullFailed("employee.employee_name"))
    ensures r.None? ==> Bindable(e) && e.employeeName.Some? && e.salary.Some?
    ensures r == Some(UniqueFailed("employee.email")) ==>
              Bindable(e) && e.employeeName.Some? && e.salary.Some? && e.email.Some? && EmailTaken(emps, id, e.email.value)
  {
    if !FitsDouble(e.salary) then Some(Overflow("employee.salary"))
    else if !FitsInteger(e.age) then Some(Overflow("employee.age"))
    else if !FitsInteger(e.departmentId) then Some(Overflow("employee.department_id"))
    else if e.employeeName.None? then Some(NotNullFailed("employee.employee_name"))
    else if e.salary.None? then Some(NotNullFailed("employee.salary"))
    else if e.email.Some? && EmailTaken(emps, id, e.email.value) then Some(UniqueFailed("employee.email"))
    else None
  }

  /** The constraint that writing `d` breaks, if any. */
  function DepartmentViolation(d: Department): (r: Option<StoreError>)
    ensures r.None? <==> d.employeeName.Some?
    ensures r.Some? ==> r.value == NotNullFailed("department.employee_name")
  {
    if d.employeeName.None? then Some(NotNullFailed("department.employee_name")) else None
  }

  /** Every row's numbers fit their columns, and the constraints declared on the employee table hold. */
  ghost predicate EmployeesOk(emps: map<int, Employee>)
  {
    && (forall k :: k in emps ==> Bindable(emps[k]) && emps[k].employeeName.Some? && emps[k].salary.Some?)
    && (forall k, k' :: k in emps && k' in emps && k != k' && emps[k].email.Some? ==> emps[k].email != emps[k'].email)
  }

  /** The constraint declared on the department table holds of every row. */
  ghost predicate DepartmentsOk(depts: map<int, Department>)
  {
    forall k :: k in depts ==> depts[k].employeeName.Some?
  }

  /** The commit-time check of one employee row is exactly the table's constraints on the resulting table. */
  lemma EmployeeViolationExact(emps: map<int, Employee>, id: int, e: Employee)
    requires EmployeesOk(emps)
    ensures EmployeeViolation(emps, id, e).None? <==> EmployeesOk(emps[id := e])
  {
    var after := emps[id := e];
    if EmployeeViolation(emps, id, e).None? {
      forall k, k' | k in after && k' in after && k != k' && after[k].email.Some?
        ensures after[k].email != after[k'].email
      {
        if k == id {
          assert !EmailTaken(emps, id, e.email.value);
          assert k' in emps && k' != id;
        } else if k' == id && e.email.Some? {
          assert !EmailTaken(emps, id, e.email.value);
          assert k in emps && k != id;
        }
      }
    } else if Bindable(e) && e.employeeName.Some? && e.salary.Some? {
      var k :| k in emps && k != id && emps[k].email == Some(e.email.value);
      assert k in after && id in after && after[k].email == after[id].email;
    } else {
      assert id in after;
    }
  }

  /** The commit-time check of one department row is exactly the table's constraint on the resulting table. */
  lemma DepartmentViolationExact(depts: map<int, Department>, id: int, d: Department)
    requires DepartmentsOk(depts)
    ensures DepartmentViolation(d).None? <==> DepartmentsOk(depts[id := d])
  {
    if DepartmentViolation(d).Some? {
      assert id in depts[id := d];
    }
  }

  /** Removing rows never breaks the employee table's constraints. */
  lemma RemovePreservesEmployeesOk(emps: map<int, Employee>, id: int)
    requires EmployeesOk(emps)
    ensures EmployeesOk(emps - {id})
  {
  }
}
