/** EmployeeTaskRepository: lookups over the assignment table. */
module EmployeeTaskRepository {
  import opened Models
  import opened DbContext
  import opened Repository

  /** GetTaskAssignmentsByEmployeeIdAsync: the assignment rows of one employee. */
  function AssignmentsByEmployee(t: Tables, employeeId: Id): (r: map<(Id, Id), Timestamp>)
    ensures forall key :: key in r <==> key in t.assignments && key.1 == employeeId
    ensures forall key :: key in r ==> r[key] == t.assignments[key]
  {
    GetAll(t.assignments, (key: (Id, Id), date: Timestamp) => key.1 == employeeId)
  }

  /** GetTaskAssignmentsByTaskIdAsync: the assignment rows of one task. */
  function AssignmentsByTask(t: Tables, taskId: Id): (r: map<(Id, Id), Timestamp>)
    ensures forall key :: key in r <==> key in t.assignments && key.0 == taskId
    ensures forall key :: key in r ==> r[key] == t.assignments[key]
  {
    GetAll(t.assignments, (key: (Id, Id), date: Timestamp) => key.0 == taskId)
  }

  /** GetTaskAssignmentAsync: the row linking the task to the employee, or
      null exactly when there is none. */
  function FindAssignment(t: Tables, taskId: Id, employeeId: Id): (r: Option<EmployeeTask>)
    ensures r.Some? <==> (taskId, employeeId) in t.assignments
    ensures r.Some? ==> r.value == EmployeeTask(taskId, employeeId, t.assignments[(taskId, employeeId)])
  {
    var key := (taskId, employeeId);
    if key in t.assignments then Some(EmployeeTask(taskId, employeeId, t.assignments[key])) else None
  }

  /** The three lookups agree: a pair is found exactly when it is among the
      task's rows and among the employee's rows. */
  lemma LookupsAgree(t: Tables, taskId: Id, employeeId: Id)
    ensures FindAssignment(t, taskId, employeeId).Some? <==> (taskId, employeeId) in AssignmentsByTask(t, taskId)
    ensures FindAssignment(t, taskId, employeeId).Some? <==> (taskId, employeeId) in AssignmentsByEmployee(t, employeeId)
  {
  }

  /** The employees a task's rows name. */
  function AssigneesOf(t: Tables, taskId: Id): set<Id> {
    set key | key in AssignmentsByTask(t, taskId) :: key.1
  }

  /** Composite key: a task has one row per employee, so its rows name as
      many distinct employees as there are rows. */
  lemma {:induction false} OneRowPerEmployee(t: Tables, taskId: Id)
    ensures |AssigneesOf(t, taskId)| == |AssignmentsByTask(t, taskId)|
  {
    var rows := AssignmentsByTask(t, taskId).Keys;
    assert AssigneesOf(t, taskId) == set key | key in rows :: key.1;
    SecondsOfSameFirst(rows, taskId);
  }

  lemma {:induction false} SecondsOfSameFirst(rows: set<(Id, Id)>, first: Id)
    requires forall key :: key in rows ==> key.0 == first
    ensures |set key | key in rows :: key.1| == |rows|
    decreases |rows|
  {
    if rows != {} {
      var key :| key in rows;
      var rest := rows - {key};
      SecondsOfSameFirst(rest, first);
      var seconds := set k | k in rows :: k.1;
      var restSeconds := set k | k in rest :: k.1;
      assert key.1 !in restSeconds;
      assert seconds == restSeconds + {key.1};
    }
  }
}
