/** TaskRepository: queries over the task table. */
module TaskRepository {
  import opened Models
  import opened DbContext
  import opened Repository

  /** GetTasksByStatusAsync: the tasks in one status. */
  function TasksByStatus(t: Tables, status: TaskStatus): (r: map<Id, TaskItem>)
    ensures forall k :: k in r <==> k in t.tasks && t.tasks[k].status == status
    ensures forall k :: k in r ==> r[k] == t.tasks[k]
  {
    GetAll(t.tasks, (k: Id, task: TaskItem) => task.status == status)
  }

  /** The five status queries split the task table: every task is returned
      by the query for its own status and by no other. */
  lemma {:induction false} StatusesPartitionTasks(t: Tables, k: Id, status: TaskStatus)
    requires k in t.tasks
    ensures k in TasksByStatus(t, status) <==> status == t.tasks[k].status
  {
  }

  /** GetTasksByEmployeeIdAsync as written: the employee id is never used,
      and every task comes back. */
  function TasksByEmployeeId(t: Tables, employeeId: Id): (r: map<Id, TaskItem>)
    ensures r == t.tasks
  {
    t.tasks
  }

  /** GetTasksByManagerIdAsync: its filter is commented out, so the manager id
      is never used and every task comes back. */
  function TasksByManagerId(t: Tables, managerId: Id): (r: map<Id, TaskItem>)
    ensures r == t.tasks
  {
    t.tasks
  }

  /** GetTasksByIdsAsync, whose source is not part of this model: the tasks
      whose keys are listed. */
  function TasksByIds(t: Tables, ids: set<Id>): (r: map<Id, TaskItem>)
    ensures forall k :: k in r <==> k in t.tasks && k in ids
    ensures forall k :: k in r ==> r[k] == t.tasks[k]
  {
    GetAll(t.tasks, (k: Id, task: TaskItem) => k in ids)
  }

  /** The tasks an employee is assigned to through the assignment table: what
      GetTasksByEmployeeIdAsync evidently means to return. */
  function TasksAssignedTo(t: Tables, employeeId: Id): (r: map<Id, TaskItem>)
    ensures forall k :: k in r <==> k in t.tasks && (k, employeeId) in t.assignments
    ensures forall k :: k in r ==> r[k] == t.tasks[k]
  {
    GetAll(t.tasks, (k: Id, task: TaskItem) => (k, employeeId) in t.assignments)
  }

  /** Two employees with one task between them: asked for employee 1's tasks,
      the query as written also returns task 10, which only employee 2 has. */
  lemma TasksByEmployeeIdReturnsOthersTasks()
    ensures
      var alice := Employee(1, "Alice", "Ames", 500000, None, None, 1, None, true, None, None);
      var bob := Employee(2, "Bob", "Bell", 400000, None, None, 1, Some(1), true, None, None);
      var task := TaskItem(10, "Audit", "", New, 2, Some(1), true, None, None);
      var t := Tables(map[1 := Department(1, "Finance", "", None, true, None, None)],
                      map[1 := alice, 2 := bob], map[10 := task], map[(10, 2) := 0]);
      Integrity(t) && 10 in TasksByEmployeeId(t, 1) && 10 !in TasksAssignedTo(t, 1)
  {
  }
}
