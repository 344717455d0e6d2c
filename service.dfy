/**
 * The request handlers of the employee/department service, as operations on
 * an in-memory record store: two tables keyed by id.  Every write ends in a
 * commit, which either applies the change (the column constraints hold of
 * the result) or raises and leaves the tables as they were.
 */
module Service {
  import opened Wrappers
  import opened Keys
  import opened Records
  import opened Views

  const EmployeeCreated := "Employee created successfully"
  const DepartmentCreated := "Department created successfully"
  const BothCreated := "Employee and department both created successfully"
  const UpdatedMessage := "Updated successfully"
  const DeletedMessage := "Deleted successfully"
  const EmployeeNotFound := "Employee not found"
  const DepartmentNotFound := "Department not found"

  /** What a handler gives back. */
  datatype Reply =
    | Message(text: string)          // `{"message": ...}`, status 200
    | NotFound(text: string)         // `{"message": ...}`, status 404
    | ErrorBody(error: StoreError)   // `{"error": ...}`, status 200: the composite handler's catch-all
    | Fault(error: StoreError)       // an exception the handler does not catch: a server error
  {
    function Status(): int
    {
      match this
      case Message(_) => 200
      case NotFound(_) => 404
      case ErrorBody(_) => 200
      case Fault(_) => 500
    }
  }

  /** The employee row the composite handler builds: the body's employee keys, linked to department `d`. */
  function LinkedEmployee(p: Payload, d: int): (e: Employee)
    ensures e.departmentId == Some(d)
    ensures e.employeeName == NewDepartment(p).employeeName
    ensures e == NewEmployee(p).(departmentId := Some(d))
  {
    Employee(p.employeeName.OrNull(), p.age.OrNull(), p.email.OrNull(),
             p.designation.OrNull(), p.salary.OrNull(), Some(d))
  }

  /** Every employee's `department_id`, when set, names a stored department. */
  ghost predicate ReferencesResolve(depts: map<int, Department>, emps: map<int, Employee>)
  {
    forall k :: k in emps && emps[k].departmentId.Some? ==> emps[k].departmentId.value in depts
  }

  /** After a successful create, the employee listing shows the new row under its new id. */
  lemma CreatedEmployeeListed(emps: map<int, Employee>, p: Payload)
    ensures var id := NextId(emps.Keys);
            var listing := ListEmployees(emps[id := NewEmployee(p)]);
            && id !in emps
            && exists i :: 0 <= i < |listing| && listing[i] == ShowEmployee(id, NewEmployee(p))
  {
    var id := NextId(emps.Keys);
    var listing := ListEmployees(emps[id := NewEmployee(p)]);
    assert id in emps[id := NewEmployee(p)];
    var i :| 0 <= i < |listing| && listing[i].id == id;
  }

  /** After a delete, the employee listing no longer shows the id, and shows every other employee. */
  lemma DeletedEmployeeNotListed(emps: map<int, Employee>, id: int)
    ensures var listing := ListEmployees(emps - {id});
            && (forall i :: 0 <= i < |listing| ==> listing[i].id != id)
            && (forall k :: k in emps && k != id ==> exists i :: 0 <= i < |listing| && listing[i].id == k)
  {
    var listing := ListEmployees(emps - {id});
    forall k | k in emps && k != id ensures exists i :: 0 <= i < |listing| && listing[i].id == k {
      assert k in emps - {id};
    }
  }

  /** A second create with an email already stored fails on the UNIQUE constraint, if its numbers bind and the NOT NULL columns are set. */
  lemma DuplicateEmailRejected(emps: map<int, Employee>, p: Payload, q: Payload)
    requires EmployeeViolation(emps, NextId(emps.Keys), NewEmployee(p)).None?
    requires NewEmployee(p).email.Some? && NewEmployee(q).email == NewEmployee(p).email
    requires Bindable(NewEmployee(q)) && NewEmployee(q).employeeName.Some? && NewEmployee(q).salary.Some?
    ensures var first := NextId(emps.Keys);
            var after := emps[first := NewEmployee(p)];
            EmployeeViolation(after, NextId(after.Keys), NewEmployee(q)) == Some(UniqueFailed("employee.email"))
  {
    var first := NextId(emps.Keys);
    var after := emps[first := NewEmployee(p)];
    var second := NextId(after.Keys);
    assert first in after && first != second && after[first].email == NewEmployee(q).email;
  }

  /**
   * When the composite's employee step fails, the cause is a number too large
   * to bind, a null salary or a taken email, never the name.
   */
  lemma PartialFailureCause(emps: map<int, Employee>, p: Payload, d: int)
    requires DepartmentViolation(NewDepartment(p)).None?
    requires EmployeeViolation(emps, NextId(emps.Keys), LinkedEmployee(p, d)).Some?
    ensures EmployeeViolation(emps, NextId(emps.Keys), LinkedEmployee(p, d)).value
            in {Overflow("employee.salary"), Overflow("employee.age"), Overflow("employee.department_id"),
                NotNullFailed("employee.salary"), UniqueFailed("employee.email")}
    ensures p.employeeName.Present? && p.employeeName.value.Some?
  {
  }

  /** After a partial failure, the new department lists no employee, provided references resolved before. */
  lemma OrphanedDepartment(depts: map<int, Department>, emps: map<int, Employee>)
    requires ReferencesResolve(depts, emps)
    ensures Members(emps, NextId(depts.Keys)) == []
  {
    var ids := AscendingIds(emps.Keys);
    NoMembersAmong(emps, ids, NextId(depts.Keys));
  }

  /**
   * Without resolved references a new department need not start empty: a
   * stored employee that names the id the department is about to get is
   * listed under it.
   */
  lemma StaleReferenceJoinsNewDepartment()
    ensures var e := NullEmployee.(employeeName := Some("A"), salary := Some(1), departmentId := Some(1));
            && !ReferencesResolve(map[], map[1 := e])
            && Members(map[1 := e], NextId({})) == [ShowMember(1, e)]
  {
    var e := NullEmployee.(employeeName := Some("A"), salary := Some(1), departmentId := Some(1));
    assert 1 in map[1 := e];
    SoleMember(map[1 := e], 1, 1);
  }

  /** An age beyond 64 bits is refused when the row is bound, whatever the other columns hold. */
  lemma OversizedAgeRejected(emps: map<int, Employee>, id: int, p: Payload)
    requires p.age.Present? && p.age.value.Some? && p.age.value.value > MaxInt64
    requires FitsDouble(NewEmployee(p).salary)
    ensures EmployeeViolation(emps, id, NewEmployee(p)) == Some(Overflow("employee.age"))
  {
  }

  /** A full composite create lists the new employee, and only it, under the new department, and keeps references resolved. */
  lemma LinkedDepartmentListed(depts: map<int, Department>, emps: map<int, Employee>, p: Payload)
    requires ReferencesResolve(depts, emps)
    ensures var d := NextId(depts.Keys);
            var id := NextId(emps.Keys);
            var emps' := emps[id := LinkedEmployee(p, d)];
            && Members(emps', d) == [ShowMember(id, LinkedEmployee(p, d))]
            && ReferencesResolve(depts[d := NewDepartment(p)], emps')
  {
    var d := NextId(depts.Keys);
    var id := NextId(emps.Keys);
    var emps' := emps[id := LinkedEmployee(p, d)];
    SoleMember(emps', d, id);
  }

  /** The store does not check `department_id`: a create may name a department that does not exist. */
  lemma DanglingReferenceAccepted()
    ensures var p := EmptyPayload.(employeeName := Present(Some("Ann")), salary := Present(Some(5000)),
                                   departmentId := Present(Some(7)));
            && EmployeeViolation(map[], NextId({}), NewEmployee(p)).None?
            && !ReferencesResolve(map[], map[NextId({}) := NewEmployee(p)])
  {
    var p := EmptyPayload.(employeeName := Present(Some("Ann")), salary := Present(Some(5000)),
                           departmentId := Present(Some(7)));
    assert NextId({}) in map[NextId({}) := NewEmployee(p)];
  }

  class RecordStore {
    var employees: map<int, Employee>
    var departments: map<int, Department>

    /** Every committed state satisfies the declared column constraints. */
    ghost predicate Valid()
      reads this
    {
      EmployeesOk(employees) && DepartmentsOk(departments)
    }

    constructor ()
      ensures Valid()
      ensures employees == map[] && departments == map[]
    {
      employees := map[];
      departments := map[];
    }

    /** Writing employee row `id` and committing: applied when no constraint fails, otherwise nothing changes. */
    method CommitEmployee(id: int, e: Employee) returns (err: Option<StoreError>)
      requires Valid()
      modifies this
      ensures Valid()
      ensures err == EmployeeViolation(old(employees), id, e)
      ensures employees == if err.None? then old(employees)[id := e] else old(employees)
      ensures departments == old(departments)
    {
      err := EmployeeViolation(employees, id, e);
      EmployeeViolationExact(employees, id, e);
      if err.None? {
        employees := employees[id := e];
      }
    }

    /** Writing department row `id` and committing. */
    method CommitDepartment(id: int, d: Department) returns (err: Option<StoreError>)
      requires Valid()
      modifies this
      ensures Valid()
      ensures err == DepartmentViolation(d)
      ensures departments == if err.None? then old(departments)[id := d] else old(departments)
      ensures employees == old(employees)
    {
      err := DepartmentViolation(d);
      DepartmentViolationExact(departments, id, d);
      if err.None? {
        departments := departments[id := d];
      }
    }

    /** POST /employees */
    method CreateEmployee(p: Payload) returns (reply: Reply)
      requires Valid()
      modifies this
      ensures Valid()
      ensures departments == old(departments)
      ensures var id := NextId(old(employees).Keys);
              var err := EmployeeViolation(old(employees), id, NewEmployee(p));
              && id !in old(employees)
              && (err.None? ==> reply == Message(EmployeeCreated) && employees == old(employees)[id := NewEmployee(p)])
              && (err.Some? ==> reply == Fault(err.value) && employees == old(employees))
    {
      var e := NewEmployee(p);
      var id := NextId(employees.Keys);
      var err := CommitEmployee(id, e);
      if err.Some? {
        return Fault(err.value);
      }
      reply := Message(EmployeeCreated);
    }

    /** PUT /employees/<id> */
    method UpdateEmployee(id: nat, p: Payload) returns (reply: Reply)
      requires Valid()
      modifies this
      ensures Valid()
      ensures departments == old(departments)
      ensures id > MaxInt64 ==> reply == Fault(Overflow("employee.id")) && employees == old(employees)
      ensures id <= MaxInt64 && id !in old(employees) ==> reply == NotFound(EmployeeNotFound) && employees == old(employees)
      ensures id <= MaxInt64 && id in old(employees) ==>
        var e := MergeEmployee(old(employees)[id], p);
        var err := EmployeeViolation(old(employees), id, e);
        && (err.None? ==> reply == Message(UpdatedMessage) && employees == old(employees)[id := e])
        && (err.Some? ==> reply == Fault(err.value) && employees == old(employees))
    {
      if id > MaxInt64 {
        return Fault(Overflow("employee.id"));
      }
      if id !in employees {
        return NotFound(EmployeeNotFound);
      }
      var e := employees[id];
      e := e.(employeeName := p.employeeName.Or(e.employeeName));
      e := e.(age := p.age.Or(e.age));
      e := e.(email := p.email.Or(e.email));
      e := e.(designation := p.designation.Or(e.designation));
      e := e.(salary := p.salary.Or(e.salary));
      e := e.(departmentId := p.departmentId.Or(e.departmentId));
      var err := CommitEmployee(id, e);
      if err.Some? {
        return Fault(err.value);
      }
      reply := Message(UpdatedMessage);
    }

    /** DELETE /employees/<id> */
    method DeleteEmployee(id: nat) returns (reply: Reply)
      requires Valid()
      modifies this
      ensures Valid()
      ensures departments == old(departments)
      ensures id > MaxInt64 ==> reply == Fault(Overflow("employee.id")) && employees == old(employees)
      ensures id <= MaxInt64 && id !in old(employees) ==> reply == NotFound(EmployeeNotFound) && employees == old(employees)
      ensures id <= MaxInt64 && id in old(employees) ==> reply == Message(DeletedMessage) && employees == old(employees) - {id}
    {
      if id > MaxInt64 {
        return Fault(Overflow("employee.id"));
      }
      if id !in employees {
        return NotFound(EmployeeNotFound);
      }
      RemovePreservesEmployeesOk(employees, id);
      employees := employees - {id};
      reply := Message(DeletedMessage);
    }

    /** POST /departments */
    method CreateDepartment(p: Payload) returns (reply: Reply)
      requires Valid()
      modifies this
      ensures Valid()
      ensures employees == old(employees)
      ensures var id := NextId(old(departments).Keys);
              var err := DepartmentViolation(NewDepartment(p));
              && id !in old(departments)
              && (err.None? ==> reply == Message(DepartmentCreated) && departments == old(departments)[id := NewDepartment(p)])
              && (err.Some? ==> reply == Fault(err.value) && departments == old(departments))
    {
      var d := NewDepartment(p);
      var id := NextId(departments.Keys);
      var err := CommitDepartment(id, d);
      if err.Some? {
        return Fault(err.value);
      }
      reply := Message(DepartmentCreated);
    }

    /** PUT /departments/<id> */
    method UpdateDepartment(id: nat, p: Payload) returns (reply: Reply)
      requires Valid()
      modifies this
      ensures Valid()
      ensures employees == old(employees)
      ensures id > MaxInt64 ==> reply == Fault(Overflow("department.id")) && departments == old(departments)
      ensures id <= MaxInt64 && id !in old(departments) ==> reply == NotFound(DepartmentNotFound) && departments == old(departments)
      ensures id <= MaxInt64 && id in old(departments) ==>
        var d := MergeDepartment(old(departments)[id], p);
        var err := DepartmentViolation(d);
        && (err.None? ==> reply == Message(UpdatedMessage) && departments == old(departments)[id := d])
        && (err.Some? ==> reply == Fault(err.value) && departments == old(departments))
    {
      if id > MaxInt64 {
        return Fault(Overflow("department.id"));
      }
      if id !in departments {
        return NotFound(DepartmentNotFound);
      }
      var d := departments[id];
      d := d.(employeeName := p.employeeName.Or(d.employeeName));
      d := d.(departmentName := p.departmentName.Or(d.departmentName));
      var err := CommitDepartment(id, d);
      if err.Some? {
        return Fault(err.value);
      }
      reply := Message(UpdatedMessage);
    }

    /**
     * POST /employee-department: commit a department, then an employee linked
     * to it.  The two commits are separate, so a failure of the second leaves
     * the first in place; every failure comes back as an error body.
     */
    method CreateEmployeeAndDepartment(p: Payload) returns (reply: Reply)
      requires Valid()
      modifies this
      ensures Valid()
      ensures reply.Message? || reply.ErrorBody?
      ensures var d := NextId(old(departments).Keys);
              var id := NextId(old(employees).Keys);
              var deptErr := DepartmentViolation(NewDepartment(p));
              var empErr := EmployeeViolation(old(employees), id, LinkedEmployee(p, d));
              && d !in old(departments) && id !in old(employees)
              && (deptErr.Some? ==>
                    reply == ErrorBody(deptErr.value)
                    && departments == old(departments) && employees == old(employees))
              && (deptErr.None? && empErr.Some? ==>
                    reply == ErrorBody(empErr.value)
                    && departments == old(departments)[d := NewDepartment(p)] && employees == old(employees))
              && (deptErr.None? && empErr.None? ==>
                    reply == Message(BothCreated)
                    && departments == old(departments)[d := NewDepartment(p)]
                    && employees == old(employees)[id := LinkedEmployee(p, d)])
    {
      var department := NewDepartment(p);
      var d := NextId(departments.Keys);
      var err := CommitDepartment(d, department);
      if err.Some? {
        return ErrorBody(err.value);
      }
      var employee := LinkedEmployee(p, d);
      var id := NextId(employees.Keys);
      err := CommitEmployee(id, employee);
      if err.Some? {
        return ErrorBody(err.value);
      }
      reply := Message(BothCreated);
    }
  }
}
