/** EmployeeRepository: queries over the employee table. */
module EmployeeRepository {
  import opened Models
  import opened DbContext
  import opened Repository

  /** GetActiveEmployeesAsync: the employees flagged active. */
  function ActiveEmployees(t: Tables): (r: map<Id, Employee>)
    ensures forall k :: k in r <==> k in t.employees && t.employees[k].isActive
    ensures forall k :: k in r ==> r[k] == t.employees[k]
  {
    GetAll(t.employees, (k: Id, e: Employee) => e.isActive)
  }

  /** GetEmployeesByDepartmentAsync: the members of one department. */
  function EmployeesByDepartment(t: Tables, departmentId: Id): (r: map<Id, Employee>)
    ensures forall k :: k in r <==> k in t.employees && t.employees[k].departmentId == departmentId
    ensures forall k :: k in r ==> r[k] == t.employees[k]
  {
    GetAll(t.employees, (k: Id, e: Employee) => e.departmentId == departmentId)
  }

  /** GetEmployeesWithManagerAsync: the employees who have a manager. */
  function EmployeesWithManager(t: Tables): (r: map<Id, Employee>)
    ensures forall k :: k in r <==> k in t.employees && t.employees[k].managerId.Some?
    ensures forall k :: k in r ==> r[k] == t.employees[k]
  {
    GetAll(t.employees, (k: Id, e: Employee) => e.managerId.Some?)
  }

  /** GetSubordinatesAsync: the employees whose ManagerId is `managerId`. */
  function Subordinates(t: Tables, managerId: Id): (r: map<Id, Employee>)
    ensures forall k :: k in r <==> k in t.employees && t.employees[k].managerId == Some(managerId)
    ensures forall k :: k in r ==> r[k] == t.employees[k]
  {
    GetAll(t.employees, (k: Id, e: Employee) => e.managerId == Some(managerId))
  }

  /** GetEmployeeWithDepartmentAsync: the employee with that key, with the
      department row Include loads for it; null when there is no employee. */
  function EmployeeWithDepartment(t: Tables, id: Id): (r: Option<(Employee, Option<Department>)>)
    ensures r.Some? <==> id in t.employees
    ensures r.Some? ==> r.value.0 == t.employees[id] && r.value.1 == GetById(t.departments, t.employees[id].departmentId)
  {
    match GetById(t.employees, id)
    case None => None
    case Some(e) => Some((e, GetById(t.departments, e.departmentId)))
  }

  /** In a database that meets its constraints the department is always
      there to load. */
  lemma DepartmentAlwaysLoaded(t: Tables, id: Id)
    requires Integrity(t) && id in t.employees
    ensures EmployeeWithDepartment(t, id).Some? && EmployeeWithDepartment(t, id).value.1.Some?
  {
  }

  /** The employees with a manager are exactly the subordinates of someone. */
  lemma WithManagerAreSubordinates(t: Tables, k: Id)
    ensures k in EmployeesWithManager(t) <==> exists m :: k in Subordinates(t, m)
  {
    if k in EmployeesWithManager(t) {
      assert k in Subordinates(t, t.employees[k].managerId.value);
    }
  }

  /** One level only: someone who reports to a subordinate of m (other than m
      itself) is not among m's subordinates. */
  lemma SubordinatesOneLevel(t: Tables, m: Id, s: Id, k: Id)
    requires s in Subordinates(t, m) && k in Subordinates(t, s) && s != m
    ensures k !in Subordinates(t, m)
  {
  }

  /** Each employee belongs to exactly one department's list. */
  lemma {:induction false} DepartmentsSplitEmployees(t: Tables, k: Id, d: Id)
    requires k in t.employees
    ensures k in EmployeesByDepartment(t, d) <==> d == t.employees[k].departmentId
  {
  }
}
