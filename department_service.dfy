/** DepartmentService: department views with their head count and salary
    total, and the create, update and delete operations. */
module DepartmentService {
  import opened Models
  import opened DbContext
  import opened Repository
  import opened EmployeeRepository
  import opened UnitOfWork

  /** DepartmentViewModel with the EmployeeCount the service fills in. */
  datatype DepartmentView = DepartmentView(
    id: Id,
    name: string,
    description: string,
    managerId: Option<Id>,
    employeeCount: nat,
    totalSalary: Cents)

  /** The smallest key of a non-empty set. */
  function MinKey(s: set<Id>): (k: Id)
    requires s != {}
    ensures k in s && forall j :: j in s ==> k <= j
  {
    HasMinKey(s);
    var k :| k in s && forall j :: j in s ==> k <= j;
    k
  }

  /** Some element of a non-empty set. */
  lemma Pick<T>(s: set<T>) returns (x: T)
    requires s != {}
    ensures x in s
  {
    x :| x in s;
  }

  lemma {:induction false} HasMinKey(s: set<Id>)
    requires s != {}
    ensures exists k :: k in s && forall j :: j in s ==> k <= j
    decreases |s|
  {
    var x := Pick(s);
    var rest := s - {x};
    if rest == {} {
      forall j | j in s
        ensures x <= j
      {
        assert j in rest || j == x;
      }
    } else {
      HasMinKey(rest);
      var k :| k in rest && forall j :: j in rest ==> k <= j;
      var m := if x < k then x else k;
      forall j | j in s
        ensures m <= j
      {
        if j != x {
          assert j in rest;
        }
      }
      assert m in s;
    }
  }

  /** Enumerable.Sum of the salaries, taking the rows in key order. */
  function SalaryTotal(m: map<Id, Employee>): Cents
    decreases |m|
  {
    if m == map[] then 0
    else
      var k := MinKey(m.Keys);
      m[k].salary + SalaryTotal(m - {k})
  }

  /** The total does not depend on the order the rows are summed in: any row
      can be taken out first. */
  lemma {:induction false} SalaryTotalRemove(m: map<Id, Employee>, k: Id)
    requires k in m
    ensures SalaryTotal(m) == m[k].salary + SalaryTotal(m - {k})
    decreases |m|
  {
    var j := MinKey(m.Keys);
    if j != k {
      SalaryTotalRemove(m - {j}, k);
      SalaryTotalRemove(m - {k}, j);
      assert (m - {j}) - {k} == (m - {k}) - {j};
    }
  }

  /** The employees Include("Employees") loads for department `id`. */
  function Members(t: Tables, id: Id): map<Id, Employee> {
    EmployeesByDepartment(t, id)
  }

  /** The view of the department stored under `id`: its mapped columns, and its head count and
      salary total recomputed from the employees in it now. */
  function ToView(t: Tables, id: Id): DepartmentView
    requires id in t.departments
  {
    var d := t.departments[id];
    DepartmentView(d.id, d.name, d.description, d.managerId, |Members(t, id)|, SalaryTotal(Members(t, id)))
  }

  /** GetDepartmentByIdAsync: null when no department has the key. */
  function GetDepartmentById(t: Tables, id: Id): (r: Option<DepartmentView>)
    ensures r.Some? <==> id in t.departments
    ensures r.Some? ==> r.value.id == t.departments[id].id && r.value.name == t.departments[id].name
  {
    if id in t.departments then Some(ToView(t, id)) else None
  }

  /** GetAllDepartmentsAsync: one view per department, the same one
      GetDepartmentByIdAsync gives. */
  function AllDepartments(t: Tables): (r: map<Id, DepartmentView>)
    ensures r.Keys == t.departments.Keys
    ensures forall k :: k in r ==> GetDepartmentById(t, k) == Some(r[k])
  {
    map k | k in t.departments :: ToView(t, k)
  }

  /** A department nobody belongs to shows no employees and a zero total. */
  lemma EmptyDepartmentTotals(t: Tables, id: Id)
    requires id in t.departments && !DepartmentInUse(t, id)
    ensures GetDepartmentById(t, id).value.employeeCount == 0
    ensures GetDepartmentById(t, id).value.totalSalary == 0
  {
    var m := Members(t, id);
    forall k | k in t.employees
      ensures k !in m
    {
      assert t.employees[k].departmentId != id;
    }
    assert m == map[];
  }

  /** The figures follow the live rows: hiring an employee into a department
      raises its head count by one and its total by their salary. */
  lemma HireRaisesTotals(t: Tables, e: Employee)
    requires e.id !in t.employees && e.departmentId in t.departments
    ensures
      var id := e.departmentId;
      var before := GetDepartmentById(t, id).value;
      var after := GetDepartmentById(t.(employees := t.employees[e.id := e]), id).value;
      after.employeeCount == before.employeeCount + 1 && after.totalSalary == before.totalSalary + e.salary
  {
    var t' := t.(employees := t.employees[e.id := e]);
    var id := e.departmentId;
    HireJoinsMembers(t, e);
    SalaryTotalRemove(Members(t', id), e.id);
  }

  lemma HireJoinsMembers(t: Tables, e: Employee)
    requires e.id !in t.employees
    ensures
      var t' := t.(employees := t.employees[e.id := e]);
      && e.id in Members(t', e.departmentId)
      && Members(t', e.departmentId) - {e.id} == Members(t, e.departmentId)
      && |Members(t', e.departmentId)| == |Members(t, e.departmentId)| + 1
  {
    var t' := t.(employees := t.employees[e.id := e]);
    var before := Members(t, e.departmentId);
    var after := Members(t', e.departmentId);
    MembersAfterHire(t, e, before, after);
    assert after.Keys == before.Keys + {e.id};
  }

  lemma MembersAfterHire(t: Tables, e: Employee, before: map<Id, Employee>, after: map<Id, Employee>)
    requires e.id !in t.employees
    requires before == Members(t, e.departmentId)
    requires after == Members(t.(employees := t.employees[e.id := e]), e.departmentId)
    ensures e.id in after && after - {e.id} == before
  {
    var t' := t.(employees := t.employees[e.id := e]);
    assert forall k :: k in after <==> k in t'.employees && t'.employees[k].departmentId == e.departmentId;
    assert forall k :: k in before <==> k in t.employees && t.employees[k].departmentId == e.departmentId;
    assert forall k :: k != e.id ==> (k in after <==> k in before);
  }

  /** Hiring into one department leaves every other department's figures
      as they were. */
  lemma HireElsewhereKeepsTotals(t: Tables, e: Employee, id: Id)
    requires e.id !in t.employees && id in t.departments && e.departmentId != id
    ensures GetDepartmentById(t.(employees := t.employees[e.id := e]), id) == GetDepartmentById(t, id)
  {
    var t' := t.(employees := t.employees[e.id := e]);
    assert Members(t', id) == Members(t, id);
  }

  /** DepartmentViewModel mapped to a new Department: the mapped columns, and
      BaseEntity's defaults for the rest (created now, active). */
  function NewDepartment(form: DepartmentView, now: Timestamp): Department {
    Department(form.id, form.name, form.description, form.managerId, true, Some(now), None)
  }

  class DepartmentService {
    const unitOfWork: UnitOfWork

    ghost predicate Valid()
      reads this, unitOfWork, unitOfWork.context
    {
      unitOfWork.Valid()
    }

    /** The rows the session reads. */
    function Rows(): Tables
      reads unitOfWork.context
    {
      unitOfWork.context.db.current
    }

    ghost function State(): ContextState
      reads unitOfWork.context
    {
      unitOfWork.context.Snapshot()
    }

    constructor (unitOfWork: UnitOfWork)
      requires unitOfWork.Valid()
      ensures Valid() && this.unitOfWork == unitOfWork
    {
      this.unitOfWork := unitOfWork;
    }

    /** CreateDepartmentAsync: the form mapped to a new row, CreatedAt and
        UpdateDate stamped, then added and saved; the save's exception
        propagates. The result is the mapped row, whose count and total are
        left at zero. */
    method CreateDepartment(form: DepartmentView, now: Timestamp, fault: bool) returns (r: Result<DepartmentView>)
      requires Valid()
      modifies unitOfWork.context
      ensures Valid()
      ensures r.Err? ==> unitOfWork.context.db == old(unitOfWork.context.db)
      ensures old(unitOfWork.context.Clean()) ==>
        var before := old(Rows());
        var id := old(unitOfWork.context.seeds.department);
        var created := NewDepartment(form, now).(id := id, updateDate := Some(now));
        && (r.Ok? <==> !fault && form.id == 0 && DepartmentResolves(before, created))
        && (r.Err? ==> r.error == if fault then StoreFailure else DbUpdateException)
        && (r.Ok? ==>
              && id !in before.departments
              && Rows() == before.(departments := before.departments[id := created])
              && r.value == form.(id := id, employeeCount := 0, totalSalary := 0))
    {
      var context := unitOfWork.context;
      var department := NewDepartment(form, now).(updateDate := Some(now));
      ghost var clean := context.Clean();
      ghost var before := context.db.current;
      var id := context.AddDepartment(department);
      if clean && form.id == 0 {
        IntegrityWithDepartment(before, department.(id := id));
        FlushWithoutRemovals(before, context.staged);
      }
      var saved := unitOfWork.SaveChanges(fault);
      if saved.Err? {
        return Err(saved.error);
      }
      r := Ok(DepartmentView(id, form.name, form.description, form.managerId, 0, 0));
    }

    /** UpdateDepartmentAsync as written: the form is mapped to a new
        Department, so CreatedAt and IsActive take their defaults (now and
        true), UpdateDate is stamped, and Update writes every column over the
        stored row. A key of 0 inserts; a key the table does not hold fails
        with DbUpdateConcurrencyException. The save's exception propagates. */
    method UpdateDepartment(form: DepartmentView, now: Timestamp, fault: bool) returns (r: Result<()>)
      requires Valid()
      modifies unitOfWork.context
      ensures Valid()
      ensures r.Err? ==> unitOfWork.context.db == old(unitOfWork.context.db)
      ensures old(unitOfWork.context.Clean()) && form.id in old(Rows().departments) ==>
        var before := old(Rows());
        var written := NewDepartment(form, now).(updateDate := Some(now));
        && (r.Ok? <==> !fault && DepartmentResolves(before, written))
        && (r.Ok? ==> Rows() == before.(departments := before.departments[form.id := written]))
        && (r.Ok? ==> Rows().departments[form.id].createdAt == Some(now) && Rows().departments[form.id].isActive)
      ensures old(unitOfWork.context.Clean()) && form.id != 0 && form.id !in old(Rows().departments) ==>
        r == Err(if fault then StoreFailure else DbUpdateConcurrencyException)
      ensures old(unitOfWork.context.Clean()) && form.id == 0 ==>
        var before := old(Rows());
        var id := old(unitOfWork.context.seeds.department);
        var inserted := NewDepartment(form, now).(id := id, updateDate := Some(now));
        && (r.Ok? <==> !fault && DepartmentResolves(before, inserted))
        && (r.Err? ==> r.error == if fault then StoreFailure else DbUpdateException)
        && (r.Ok? ==> id !in before.departments && Rows() == before.(departments := before.departments[id := inserted]))
    {
      var context := unitOfWork.context;
      var department := NewDepartment(form, now).(updateDate := Some(now));
      ghost var clean := context.Clean();
      ghost var before := context.db.current;
      var id := context.UpdateDepartment(department);
      if clean && form.id != 0 && form.id in before.departments {
        IntegrityWithDepartment(before, department);
        FlushWithoutRemovals(before, context.staged);
      } else if clean && form.id == 0 {
        IntegrityWithDepartment(before, department.(id := id));
        FlushWithoutRemovals(before, context.staged);
      }
      var saved := unitOfWork.SaveChanges(fault);
      if saved.Err? {
        return Err(saved.error);
      }
      r := Ok(());
    }

    /** UpdateDepartmentAsync as evidently intended: the form's columns are
        written onto the stored row, whose CreatedAt and IsActive stay, and
        UpdateDate is stamped. A missing department is reported as missing. */
    method UpdateDepartmentKeepingHistory(form: DepartmentView, now: Timestamp, fault: bool) returns (r: Result<()>)
      requires Valid()
      modifies unitOfWork.context
      ensures Valid()
      ensures form.id !in old(Rows().departments) ==> r == Err(KeyNotFoundException) && State() == old(State())
      ensures r.Err? ==> unitOfWork.context.db == old(unitOfWork.context.db)
      ensures old(unitOfWork.context.Clean()) && form.id in old(Rows().departments) ==>
        var before := old(Rows());
        var stored := before.departments[form.id];
        var written := stored.(name := form.name, description := form.description, managerId := form.managerId,
                               updateDate := Some(now));
        && (r.Ok? <==> !fault && DepartmentResolves(before, written))
        && (r.Ok? ==>
              && Rows() == before.(departments := before.departments[form.id := written])
              && Rows().departments[form.id].createdAt == stored.createdAt
              && Rows().departments[form.id].isActive == stored.isActive)
    {
      var context := unitOfWork.context;
      var stored := GetById(context.db.current.departments, form.id);
      if stored.None? {
        return Err(KeyNotFoundException);
      }
      var written := stored.value.(name := form.name, description := form.description, managerId := form.managerId,
                                   updateDate := Some(now));
      ghost var clean := context.Clean();
      ghost var before := context.db.current;
      if clean {
        IntegrityWithDepartment(before, written);
        FlushWithoutRemovals(before, before.(departments := before.departments[form.id := written]));
      }
      var id := context.UpdateDepartment(written);
      var saved := unitOfWork.SaveChanges(fault);
      if saved.Err? {
        return Err(saved.error);
      }
      r := Ok(());
    }

    /** DeleteDepartmentAsync: KeyNotFoundException, with nothing changed, when
        no department has the key; otherwise the row is removed and saved, and
        the save's exception propagates. The Restrict rule refuses the save
        while an employee belongs to the department. */
    method DeleteDepartment(id: Id, fault: bool) returns (r: Result<()>)
      requires Valid()
      modifies unitOfWork.context
      ensures Valid()
      ensures id !in old(Rows().departments) ==> r == Err(KeyNotFoundException) && State() == old(State())
      ensures r.Err? ==> unitOfWork.context.db == old(unitOfWork.context.db)
      ensures old(unitOfWork.context.Clean()) && id in old(Rows().departments) ==>
        var before := old(Rows());
        && (r.Ok? <==> !fault && !DepartmentInUse(before, id))
        && (r.Err? ==> r.error == if fault then StoreFailure else DbUpdateException)
        && (r.Ok? ==> Rows() == before.(departments := before.departments - {id}))
    {
      var context := unitOfWork.context;
      var department := GetById(context.db.current.departments, id);
      if department.None? {
        return Err(KeyNotFoundException);
      }
      if context.Clean() {
        RemovedDepartmentFlush(context.db.current, id);
      }
      context.RemoveDepartment(id);
      var saved := unitOfWork.SaveChanges(fault);
      if saved.Err? {
        return Err(saved.error);
      }
      r := Ok(());
    }
  }
}
