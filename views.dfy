/**
 * The two listing endpoints: read-only projections of the tables.  Rows come
 * in ascending id order, the order of a full scan of either table and of the
 * lookup behind a department's `employees` relationship.
 */
module Views {
  import opened Wrappers
  import opened Keys
  import opened Records

  /** An entry of the employee listing: the id and all six columns. */
  datatype EmployeeView = EmployeeView(
    id: int,
    employeeName: Option<string>,
    age: Option<int>,
    email: Option<string>,
    designation: Option<string>,
    salary: Option<Salary>,
    departmentId: Option<int>)

  /** An employee nested under its department: as above, without `department_id`. */
  datatype MemberView = MemberView(
    id: int,
    employeeName: Option<string>,
    age: Option<int>,
    email: Option<string>,
    designation: Option<string>,
    salary: Option<Salary>)

  /** An entry of the department listing, with the employees that point at it. */
  datatype DepartmentView = DepartmentView(
    id: int,
    employeeName: Option<string>,
    departmentName: Option<string>,
    employees: seq<MemberView>)

  function ShowEmployee(id: int, e: Employee): EmployeeView
  {
    EmployeeView(id, e.employeeName, e.age, e.email, e.designation, e.salary, e.departmentId)
  }

  function ShowMember(id: int, e: Employee): MemberView
  {
    MemberView(id, e.employeeName, e.age, e.email, e.designation, e.salary)
  }

  /** The entries for the rows `ids`, in that order. */
  function ShowEmployees(emps: map<int, Employee>, ids: seq<int>): (r: seq<EmployeeView>)
    requires forall i :: 0 <= i < |ids| ==> ids[i] in emps
    ensures |r| == |ids|
    ensures forall i :: 0 <= i < |ids| ==> r[i].id == ids[i] && r[i] == ShowEmployee(ids[i], emps[ids[i]])
  {
    if ids == [] then [] else [ShowEmployee(ids[0], emps[ids[0]])] + ShowEmployees(emps, ids[1..])
  }

  /** Every key of the table has an index in its ascending listing. */
  lemma IndexOfKey(ids: seq<int>, keys: set<int>, k: int) returns (i: nat)
    requires ListsAscending(ids, keys) && k in keys
    ensures i < |ids| && ids[i] == k
  {
    assert k in ids;
    i :| 0 <= i < |ids| && ids[i] == k;
  }

  /** What holds of the entries for the ascending listing of the whole employee table. */
  lemma EmployeesOfTable(emps: map<int, Employee>, ids: seq<int>, r: seq<EmployeeView>)
    requires ListsAscending(ids, emps.Keys)
    requires |r| == |ids|
    requires forall i :: 0 <= i < |ids| ==> r[i].id == ids[i] && r[i] == ShowEmployee(ids[i], emps[ids[i]])
    ensures |r| == |emps|
    ensures forall i :: 0 <= i < |r| ==> r[i].id in emps && r[i] == ShowEmployee(r[i].id, emps[r[i].id])
    ensures forall k :: k in emps ==> exists i :: 0 <= i < |r| && r[i].id == k
    ensures forall i, j :: 0 <= i < j < |r| ==> r[i].id < r[j].id
  {
    assert |emps.Keys| == |emps|;
    forall i | 0 <= i < |r| ensures r[i].id in emps && r[i] == ShowEmployee(r[i].id, emps[r[i].id]) {
      assert ids[i] in emps.Keys;
    }
    forall k | k in emps ensures exists i :: 0 <= i < |r| && r[i].id == k {
      var i := IndexOfKey(ids, emps.Keys, k);
      assert r[i].id == k;
    }
  }

  /** The employee listing: one entry per stored employee, each carrying its row unchanged. */
  function ListEmployees(emps: map<int, Employee>): (r: seq<EmployeeView>)
    ensures |r| == |emps|
    ensures forall i :: 0 <= i < |r| ==> r[i].id in emps && r[i] == ShowEmployee(r[i].id, emps[r[i].id])
    ensures forall k :: k in emps ==> exists i :: 0 <= i < |r| && r[i].id == k
    ensures forall i, j :: 0 <= i < j < |r| ==> r[i].id < r[j].id
  {
    var ids := AscendingIds(emps.Keys);
    var r := ShowEmployees(emps, ids);
    EmployeesOfTable(emps, ids, r);
    r
  }

  /** Every entry of `r` shows one of `ids` whose department is `d`. */
  ghost predicate MembersSound(r: seq<MemberView>, emps: map<int, Employee>, ids: seq<int>, d: int)
  {
    forall j :: 0 <= j < |r| ==>
      r[j].id in ids && r[j].id in emps && emps[r[j].id].departmentId == Some(d)
      && r[j] == ShowMember(r[j].id, emps[r[j].id])
  }

  /** Every one of `ids` whose department is `d` has an entry in `r`. */
  ghost predicate MembersComplete(r: seq<MemberView>, emps: map<int, Employee>, ids: seq<int>, d: int)
  {
    forall i :: 0 <= i < |ids| && ids[i] in emps && emps[ids[i]].departmentId == Some(d) ==>
      exists j :: 0 <= j < |r| && r[j].id == ids[i]
  }

  /** Ascending `ids` give entries with ascending ids. */
  ghost predicate MembersOrdered(r: seq<MemberView>, ids: seq<int>)
  {
    (forall i, j :: 0 <= i < j < |ids| ==> ids[i] < ids[j]) ==>
      forall i, j :: 0 <= i < j < |r| ==> r[i].id < r[j].id
  }

  /** The employees among `ids` whose `department_id` is `d`. */
  function MembersAmong(emps: map<int, Employee>, ids: seq<int>, d: int): (r: seq<MemberView>)
    requires forall i :: 0 <= i < |ids| ==> ids[i] in emps
    ensures MembersSound(r, emps, ids, d)
    ensures MembersComplete(r, emps, ids, d)
    ensures MembersOrdered(r, ids)
  {
    if ids == [] then []
    else
      var rest := MembersAmong(emps, ids[1..], d);
      var r := if emps[ids[0]].departmentId == Some(d) then [ShowMember(ids[0], emps[ids[0]])] + rest else rest;
      SoundStep(emps, ids, d, rest, r);
      CompleteStep(emps, ids, d, rest, r);
      OrderedStep(emps, ids, d, rest, r);
      r
  }

  lemma SoundStep(emps: map<int, Employee>, ids: seq<int>, d: int, rest: seq<MemberView>, r: seq<MemberView>)
    requires ids != [] && ids[0] in emps
    requires MembersSound(rest, emps, ids[1..], d)
    requires r == if emps[ids[0]].departmentId == Some(d) then [ShowMember(ids[0], emps[ids[0]])] + rest else rest
    ensures MembersSound(r, emps, ids, d)
  {
    assert forall x :: x in ids[1..] ==> x in ids;
    if r != rest {
      forall j | 0 <= j < |r| ensures r[j].id in ids {
        if j > 0 { assert r[j] == rest[j - 1]; }
      }
    }
  }

  lemma CompleteStep(emps: map<int, Employee>, ids: seq<int>, d: int, rest: seq<MemberView>, r: seq<MemberView>)
    requires ids != [] && ids[0] in emps
    requires MembersComplete(rest, emps, ids[1..], d)
    requires r == if emps[ids[0]].departmentId == Some(d) then [ShowMember(ids[0], emps[ids[0]])] + rest else rest
    ensures MembersComplete(r, emps, ids, d)
  {
    var tail := ids[1..];
    forall i | 0 <= i < |ids| && ids[i] in emps && emps[ids[i]].departmentId == Some(d)
      ensures exists j :: 0 <= j < |r| && r[j].id == ids[i]
    {
      if i == 0 {
        assert r[0].id == ids[0];
      } else {
        assert ids[i] == tail[i - 1];
        var j :| 0 <= j < |rest| && rest[j].id == tail[i - 1];
        if r != rest { assert r[j + 1] == rest[j]; }
      }
    }
  }

  /** The tail of an ascending list is ascending and lies above its head. */
  lemma AscendingTail(ids: seq<int>)
    requires ids != [] && forall i, j :: 0 <= i < j < |ids| ==> ids[i] < ids[j]
    ensures forall i, j :: 0 <= i < j < |ids[1..]| ==> ids[1..][i] < ids[1..][j]
    ensures forall x :: x in ids[1..] ==> ids[0] < x
  {
    var tail := ids[1..];
    forall i, j | 0 <= i < j < |tail| ensures tail[i] < tail[j] {
      assert tail[i] == ids[i + 1] && tail[j] == ids[j + 1];
    }
    forall x | x in tail ensures ids[0] < x {
      var i :| 0 <= i < |tail| && tail[i] == x;
      assert ids[i + 1] == x;
    }
  }

  lemma OrderedStep(emps: map<int, Employee>, ids: seq<int>, d: int, rest: seq<MemberView>, r: seq<MemberView>)
    requires ids != [] && ids[0] in emps
    requires MembersSound(rest, emps, ids[1..], d)
    requires MembersOrdered(rest, ids[1..])
    requires r == if emps[ids[0]].departmentId == Some(d) then [ShowMember(ids[0], emps[ids[0]])] + rest else rest
    ensures MembersOrdered(r, ids)
  {
    if forall i, j :: 0 <= i < j < |ids| ==> ids[i] < ids[j] {
      AscendingTail(ids);
      if r != rest {
        forall i, j | 0 <= i < j < |r| ensures r[i].id < r[j].id {
          assert r[j] == rest[j - 1] && rest[j - 1].id in ids[1..];
          if i > 0 { assert r[i] == rest[i - 1]; }
        }
      }
    }
  }

  /** When none of `ids` points at `d`, `d` has no members among them. */
  lemma {:induction false} NoMembersAmong(emps: map<int, Employee>, ids: seq<int>, d: int)
    requires forall i :: 0 <= i < |ids| ==> ids[i] in emps && emps[ids[i]].departmentId != Some(d)
    ensures MembersAmong(emps, ids, d) == []
  {
    if ids != [] {
      NoMembersAmong(emps, ids[1..], d);
    }
  }

  /** When exactly one of the distinct `ids` points at `d`, it is `d`'s only member among them. */
  lemma {:induction false} OneMemberAmong(emps: map<int, Employee>, ids: seq<int>, d: int, id: int)
    requires forall i :: 0 <= i < |ids| ==> ids[i] in emps
    requires forall i, j :: 0 <= i < j < |ids| ==> ids[i] != ids[j]
    requires id in ids && emps[id].departmentId == Some(d)
    requires forall i :: 0 <= i < |ids| && ids[i] != id ==> emps[ids[i]].departmentId != Some(d)
    ensures MembersAmong(emps, ids, d) == [ShowMember(id, emps[id])]
  {
    var tail := ids[1..];
    if ids[0] == id {
      assert forall i :: 0 <= i < |tail| ==> tail[i] == ids[i + 1] && ids[i + 1] != ids[0];
      NoMembersAmong(emps, tail, d);
    } else {
      assert forall i :: 0 <= i < |tail| ==> tail[i] == ids[i + 1];
      var k :| 0 <= k < |ids| && ids[k] == id;
      assert tail[k - 1] == id;
      OneMemberAmong(emps, tail, d, id);
    }
  }

  /** What holds of the members of `d` chosen from the ascending listing of the whole table. */
  lemma MembersOfTable(emps: map<int, Employee>, d: int, ids: seq<int>, r: seq<MemberView>)
    requires ListsAscending(ids, emps.Keys)
    requires MembersSound(r, emps, ids, d) && MembersComplete(r, emps, ids, d) && MembersOrdered(r, ids)
    ensures forall k :: k in emps && emps[k].departmentId == Some(d) ==> exists j :: 0 <= j < |r| && r[j].id == k
    ensures forall i, j :: 0 <= i < j < |r| ==> r[i].id < r[j].id
  {
    forall k | k in emps && emps[k].departmentId == Some(d) ensures exists j :: 0 <= j < |r| && r[j].id == k {
      var i := IndexOfKey(ids, emps.Keys, k);
      assert ids[i] in emps && emps[ids[i]].departmentId == Some(d);
    }
  }

  /** The `employees` of department `d`: every employee whose `department_id` is `d`, once each, by ascending id. */
  function Members(emps: map<int, Employee>, d: int): (r: seq<MemberView>)
    ensures forall j :: 0 <= j < |r| ==>
      r[j].id in emps && emps[r[j].id].departmentId == Some(d) && r[j] == ShowMember(r[j].id, emps[r[j].id])
    ensures forall k :: k in emps && emps[k].departmentId == Some(d) ==> exists j :: 0 <= j < |r| && r[j].id == k
    ensures forall i, j :: 0 <= i < j < |r| ==> r[i].id < r[j].id
  {
    var ids := AscendingIds(emps.Keys);
    var r := MembersAmong(emps, ids, d);
    MembersOfTable(emps, d, ids, r);
    r
  }

  /** A department that exactly one employee points at lists exactly that employee. */
  lemma SoleMember(emps: map<int, Employee>, d: int, id: int)
    requires id in emps && emps[id].departmentId == Some(d)
    requires forall k :: k in emps && k != id ==> emps[k].departmentId != Some(d)
    ensures Members(emps, d) == [ShowMember(id, emps[id])]
  {
    var ids := AscendingIds(emps.Keys);
    assert id in emps.Keys;
    OneMemberAmong(emps, ids, d, id);
  }

  /** The listing entry of department `id`, with its employees. */
  function ShowDepartment(id: int, d: Department, emps: map<int, Employee>): DepartmentView
  {
    DepartmentView(id, d.employeeName, d.departmentName, Members(emps, id))
  }

  /** The entries for the departments `ids`, in that order. */
  function ShowDepartments(depts: map<int, Department>, emps: map<int, Employee>, ids: seq<int>): (r: seq<DepartmentView>)
    requires forall i :: 0 <= i < |ids| ==> ids[i] in depts
    ensures |r| == |ids|
    ensures forall i :: 0 <= i < |ids| ==> r[i] == ShowDepartment(ids[i], depts[ids[i]], emps)
  {
    seq(|ids|, i requires 0 <= i < |ids| => ShowDepartment(ids[i], depts[ids[i]], emps))
  }

  /** What holds of the entries for the ascending listing of the whole department table. */
  lemma DepartmentsOfTable(depts: map<int, Department>, emps: map<int, Employee>, ids: seq<int>, r: seq<DepartmentView>)
    requires ListsAscending(ids, depts.Keys)
    requires |r| == |ids|
    requires forall i :: 0 <= i < |ids| ==> r[i] == ShowDepartment(ids[i], depts[ids[i]], emps)
    ensures |r| == |depts|
    ensures forall i :: 0 <= i < |r| ==>
      r[i].id in depts
      && r[i].employeeName == depts[r[i].id].employeeName
      && r[i].departmentName == depts[r[i].id].departmentName
      && r[i].employees == Members(emps, r[i].id)
    ensures forall k :: k in depts ==> exists i :: 0 <= i < |r| && r[i].id == k
    ensures forall i, j :: 0 <= i < j < |r| ==> r[i].id < r[j].id
  {
    assert |depts.Keys| == |depts|;
    forall i | 0 <= i < |r| ensures r[i].id in depts {
      assert ids[i] in depts.Keys;
    }
    forall k | k in depts ensures exists i :: 0 <= i < |r| && r[i].id == k {
      var i := IndexOfKey(ids, depts.Keys, k);
      assert r[i].id == k;
    }
  }

  /** The department listing: one entry per stored department, each with exactly its employees. */
  function ListDepartments(depts: map<int, Department>, emps: map<int, Employee>): (r: seq<DepartmentView>)
    ensures |r| == |depts|
    ensures forall i :: 0 <= i < |r| ==>
      r[i].id in depts
      && r[i].employeeName == depts[r[i].id].employeeName
      && r[i].departmentName == depts[r[i].id].departmentName
      && r[i].employees == Members(emps, r[i].id)
    ensures forall k :: k in depts ==> exists i :: 0 <= i < |r| && r[i].id == k
    ensures forall i, j :: 0 <= i < j < |r| ==> r[i].id < r[j].id
  {
    var ids := AscendingIds(depts.Keys);
    var r := ShowDepartments(depts, emps, ids);
    DepartmentsOfTable(depts, emps, ids, r);
    r
  }
}
