/** TaskService: creating, updating, deleting and (re)assigning tasks through
    the unit of work. */
module TaskService {
  import opened Models
  import opened DbContext
  import opened Repository
  import opened EmployeeTaskRepository
  import opened TaskRepository
  import opened UnitOfWork

  /** TaskMB, the task form and view, with the fields a TaskItem row keeps.
      CreatedByManagerId is a plain int here, so a form always names a
      creator. */
  datatype TaskView = TaskView(
    id: Id,
    title: string,
    description: string,
    status: TaskStatus,
    employeeId: Id,
    createdByManagerId: Id,
    employeeName: Option<string>)

  /** TaskMB to a new TaskItem: the mapped fields, plus BaseEntity's defaults
      (active, created now, never updated). */
  function NewTaskItem(form: TaskView, now: Timestamp): TaskItem {
    TaskItem(form.id, form.title, form.description, form.status, form.employeeId,
             Some(form.createdByManagerId), true, Some(now), None)
  }

  /** TaskMB mapped onto a loaded TaskItem: the mapped fields are overwritten,
      the others kept. */
  function MapOnto(form: TaskView, task: TaskItem): TaskItem {
    task.(id := form.id, title := form.title, description := form.description, status := form.status,
          employeeId := form.employeeId, createdByManagerId := Some(form.createdByManagerId))
  }

  /** TaskItem to TaskMB; a null creator becomes 0. */
  function ToView(task: TaskItem, employeeName: Option<string>): TaskView {
    TaskView(task.id, task.title, task.description, task.status, task.employeeId,
             if task.createdByManagerId.Some? then task.createdByManagerId.value else 0, employeeName)
  }

  /** EmployeeTask mapped onto TaskMB by property name. EmployeeId is the
      one field of the view the row shares; the others keep TaskMB's
      defaults: Id 0, null strings (here empty), the first status, creator 0
      and no employee name. */
  function AssignmentView(row: EmployeeTask): TaskView {
    TaskView(0, "", "", New, row.employeeId, 0, None)
  }

  /** Mapping a form to a row and back gives the form again. */
  lemma {:induction false} ViewOfMappedForm(form: TaskView, task: TaskItem, now: Timestamp, name: Option<string>)
    ensures ToView(MapOnto(form, task), name) == form.(employeeName := name)
    ensures ToView(NewTaskItem(form, now), name) == form.(employeeName := name)
  {
  }

  /** The rows after task `id` is created from `form` with its one assignment. */
  function WithCreatedTask(t: Tables, form: TaskView, now: Timestamp, id: Id): Tables {
    t.(tasks := t.tasks[id := NewTaskItem(form, now).(id := id)],
       assignments := t.assignments[(id, form.employeeId) := now])
  }

  /** The server failures CreateTaskAsync can meet, one per call that can fail. */
  datatype CreateFaults = CreateFaults(taskSave: bool, linkSave: bool, commitSave: bool, commit: bool, rollback: bool)

  /** The exception of the first save in CreateTaskAsync that fails, if any:
      the task insert (an explicit key, or a creator that does not exist, is
      refused), then the assignment insert. */
  function CreateStageError(t: Tables, form: TaskView, f: CreateFaults): Option<Error> {
    if f.taskSave then Some(StoreFailure)
    else if form.id != 0 || form.createdByManagerId !in t.employees then Some(DbUpdateException)
    else if f.linkSave then Some(StoreFailure)
    else None
  }

  /** GetTasksByEmployeeAsync: the employee's assignment rows give task keys,
      and GetTasksByIdsAsync loads those tasks. */
  function TasksByEmployee(t: Tables, employeeId: Id): map<Id, TaskItem> {
    TasksByIds(t, set key | key in AssignmentsByEmployee(t, employeeId) :: key.0)
  }

  /** The service's two-step query returns exactly the tasks the employee
      holds an assignment for. */
  lemma TasksByEmployeeAreAssigned(t: Tables, employeeId: Id)
    ensures TasksByEmployee(t, employeeId) == TasksAssignedTo(t, employeeId)
  {
    var ids := set key | key in AssignmentsByEmployee(t, employeeId) :: key.0;
    forall k ensures k in ids <==> (k, employeeId) in t.assignments {
      if (k, employeeId) in t.assignments {
        assert (k, employeeId) in AssignmentsByEmployee(t, employeeId);
      }
    }
    assert TasksByEmployee(t, employeeId).Keys == TasksAssignedTo(t, employeeId).Keys;
  }

  class TaskService {
    const unitOfWork: UnitOfWork

    ghost predicate Valid()
      reads this, unitOfWork, unitOfWork.context
    {
      unitOfWork.Valid()
    }

    /** The rows the session reads. */
    function Rows(): Tables
      reads unitOfWork.context
    {
      unitOfWork.context.db.current
    }

    ghost function State(): ContextState
      reads unitOfWork.context
    {
      unitOfWork.context.Snapshot()
    }

    constructor (unitOfWork: UnitOfWork)
      requires unitOfWork.Valid()
      ensures Valid() && this.unitOfWork == unitOfWork
    {
      this.unitOfWork := unitOfWork;
    }

    /** Tasks.AddAsync then SaveChangesAsync. In a clean session the insert
        succeeds exactly when the row has no explicit key, its foreign keys
        resolve and the server does not fail; a failed save changes no row. */
    method InsertTask(task: TaskItem, fault: bool) returns (id: Id, saved: Result<nat>)
      requires Valid()
      modifies unitOfWork.context
      ensures Valid()
      ensures saved.Err? ==> unitOfWork.context.db == old(unitOfWork.context.db)
      ensures old(unitOfWork.context.Clean()) ==>
        var before := old(Rows());
        && (saved.Ok? <==> !fault && task.id == 0 && TaskResolves(before, task))
        && (saved.Err? ==> saved.error == if fault then StoreFailure else DbUpdateException)
        && (saved.Ok? ==>
              && id == old(unitOfWork.context.seeds.task) && id !in before.tasks
              && unitOfWork.context.Clean()
              && Rows() == before.(tasks := before.tasks[id := task.(id := id)])
              && unitOfWork.context.db.committed ==
                   if unitOfWork.context.db.inTransaction then old(unitOfWork.context.db.committed) else Rows())
    {
      var context := unitOfWork.context;
      ghost var before := context.db.current;
      id := context.AddTask(task);
      if old(context.Clean()) && task.id == 0 {
        IntegrityWithTask(before, task.(id := id));
        FlushWithoutRemovals(before, context.staged);
      }
      saved := unitOfWork.SaveChanges(fault);
    }

    /** EmployeeTasks.AddAsync then SaveChangesAsync. A pair added earlier in
        the session and still unsaved makes the add throw. In a clean session
        the insert succeeds exactly when the pair is new, its task and its
        employee exist and the server does not fail. */
    method InsertAssignment(taskId: Id, employeeId: Id, date: Timestamp, fault: bool) returns (saved: Result<nat>)
      requires Valid()
      modifies unitOfWork.context
      ensures Valid()
      ensures saved.Err? ==> unitOfWork.context.db == old(unitOfWork.context.db)
      ensures old(unitOfWork.context.doomed.Some? || (taskId, employeeId) in unitOfWork.context.staged.assignments) ==> saved.Err?
      ensures saved.Err? ==> unitOfWork.context.doomed.Some? || (taskId, employeeId) in unitOfWork.context.staged.assignments
      ensures old((taskId, employeeId) in unitOfWork.context.staged.assignments
                  && (taskId, employeeId) !in unitOfWork.context.db.current.assignments) ==>
        saved == Err(InvalidOperationException(KeyAlreadyTracked)) && State() == old(State())
      ensures old(unitOfWork.context.Clean()) ==>
        var before := old(Rows());
        && (saved.Ok? <==> !fault && (taskId, employeeId) !in before.assignments
                           && taskId in before.tasks && employeeId in before.employees)
        && (saved.Err? ==> saved.error == if fault then StoreFailure else DbUpdateException)
        && (saved.Err? ==> (taskId, employeeId) in unitOfWork.context.staged.assignments)
        && (saved.Ok? ==>
              && unitOfWork.context.Clean()
              && Rows() == before.(assignments := before.assignments[(taskId, employeeId) := date])
              && unitOfWork.context.db.committed ==
                   if unitOfWork.context.db.inTransaction then old(unitOfWork.context.db.committed) else Rows())
    {
      var context := unitOfWork.context;
      ghost var before := context.db.current;
      var added := context.AddAssignment(taskId, employeeId, date);
      if added.Err? {
        return Err(added.error);
      }
      if old(context.Clean()) && (taskId, employeeId) !in before.assignments {
        IntegrityWithAssignment(before, (taskId, employeeId), date);
        FlushWithoutRemovals(before, context.staged);
      }
      saved := unitOfWork.SaveChanges(fault);
    }

    /** EmployeeTasks.Delete of one row and AddAsync of another, then one
        SaveChangesAsync. In a clean session the save succeeds exactly when
        the new row's task and employee exist, it does not collide with a row
        that stays, and the server does not fail. */
    method ReplaceAssignment(removed: (Id, Id), added: (Id, Id), date: Timestamp, fault: bool) returns (saved: Result<nat>)
      requires Valid()
      modifies unitOfWork.context
      ensures Valid()
      ensures saved.Err? ==> unitOfWork.context.db == old(unitOfWork.context.db)
      ensures old(unitOfWork.context.Clean()) ==>
        var before := old(Rows());
        var without := before.assignments - {removed};
        && (saved.Ok? <==> !fault && added !in without && added.0 in before.tasks && added.1 in before.employees)
        && (saved.Ok? ==> Rows() == before.(assignments := without[added := date]))
    {
      var context := unitOfWork.context;
      ghost var clean := context.Clean();
      ghost var before := context.db.current;
      context.RemoveAssignment(removed);
      var tracked := context.AddAssignment(added.0, added.1, date);
      if tracked.Err? {
        return Err(tracked.error);
      }
      if clean && added !in before.assignments - {removed} {
        var without := before.(assignments := before.assignments - {removed});
        IntegrityWithoutAssignment(before, removed);
        IntegrityWithAssignment(without, added, date);
        FlushWithoutRemovals(before, context.staged);
      }
      saved := unitOfWork.SaveChanges(fault);
    }

    /** The try block of CreateTaskAsync: insert the task and save, insert its
        assignment and save, then commit. A failing save leaves the
        transaction open for the caller to roll back; a failing commit has
        already disposed, and so rolled back, the transaction. */
    method CreateInTransaction(form: TaskView, now: Timestamp, f: CreateFaults) returns (id: Id, failure: Option<Error>)
      requires Valid() && unitOfWork.transactionOpen && form.employeeId in Rows().employees
      modifies unitOfWork, unitOfWork.context
      ensures Valid()
      ensures failure.None? ==> !unitOfWork.transactionOpen
      ensures old(unitOfWork.context.Clean()) && old(unitOfWork.context.db.current == unitOfWork.context.db.committed) ==>
        var before := old(Rows());
        var stage := CreateStageError(before, form, f);
        var context := unitOfWork.context;
        && (stage.Some? ==>
              failure == stage && unitOfWork.transactionOpen && context.db.committed == before)
        && (stage.None? && (f.commitSave || f.commit) ==>
              failure == Some(StoreFailure) && !unitOfWork.transactionOpen
              && context.db == Database(before, before, false))
        && (stage.None? && !f.commitSave && !f.commit ==>
              && failure.None? && id == old(context.seeds.task) && !unitOfWork.transactionOpen
              && context.Clean()
              && context.db == Database(WithCreatedTask(before, form, now, id), WithCreatedTask(before, form, now, id), false))
    {
      var saved;
      id, saved := InsertTask(NewTaskItem(form, now), f.taskSave);
      if saved.Err? {
        return id, Some(saved.error);
      }
      saved := InsertAssignment(id, form.employeeId, now, f.linkSave);
      if saved.Err? {
        return id, Some(saved.error);
      }
      if unitOfWork.context.Clean() {
        CleanSaveIsIdle(unitOfWork.context.Snapshot());
      }
      var committed := unitOfWork.CommitTransaction(f.commitSave, f.commit);
      if committed.Err? {
        return id, Some(committed.error);
      }
      failure := None;
    }

    /** CreateTaskAsync as written. An employee key that does not resolve is
        refused before any transaction opens. Otherwise the task and its one
        assignment are written in one transaction, and on failure the catch
        rolls back and rethrows. When the commit is what failed, the commit
        has already released the transaction, so the catch's rollback
        dereferences a null handle and its NullReferenceException replaces
        the commit's exception. The rows are rolled back on every failure. */
    method CreateTaskAsWritten(form: TaskView, now: Timestamp, f: CreateFaults) returns (r: Result<TaskView>)
      requires Valid()
      modifies unitOfWork, unitOfWork.context
      ensures Valid()
      ensures form.employeeId !in old(Rows().employees) ==>
        r == Err(ArgumentException) && State() == old(State()) && unitOfWork.transactionOpen == old(unitOfWork.transactionOpen)
      ensures form.employeeId in old(Rows().employees) && old(unitOfWork.transactionOpen) ==>
        r == Err(InvalidOperationException(TransactionAlreadyOpen)) && State() == old(State()) && unitOfWork.transactionOpen
      ensures form.employeeId in old(Rows().employees) && !old(unitOfWork.transactionOpen) ==> !unitOfWork.transactionOpen
      ensures old(unitOfWork.context.Clean()) && !old(unitOfWork.transactionOpen) && form.employeeId in old(Rows().employees) ==>
        var before := old(Rows());
        var stage := CreateStageError(before, form, f);
        var id := old(unitOfWork.context.seeds.task);
        && !unitOfWork.transactionOpen
        && (r.Ok? <==> stage.None? && !f.commitSave && !f.commit)
        && (r.Ok? ==>
              && r.value == form.(id := id, employeeName := Some(FullName(before.employees[form.employeeId])))
              && Rows() == WithCreatedTask(before, form, now, id)
              && unitOfWork.context.db.committed == Rows())
        && (r.Err? ==> Rows() == before && unitOfWork.context.db.committed == before)
        && (stage.Some? ==> r == Err(if f.rollback then StoreFailure else stage.value))
        && (stage.None? && (f.commitSave || f.commit) ==> r == Err(NullReferenceException))
    {
      var employee := GetById(unitOfWork.context.db.current.employees, form.employeeId);
      if employee.None? {
        return Err(ArgumentException);
      }
      var begun := unitOfWork.BeginTransaction();
      if begun.Err? {
        return Err(begun.error);
      }
      var id, failure := CreateInTransaction(form, now, f);
      if failure.Some? {
        var rolledBack := unitOfWork.RollbackTransaction(f.rollback);
        if rolledBack.Err? {
          return Err(rolledBack.error);
        }
        return Err(failure.value);
      }
      ViewOfMappedForm(form, NewTaskItem(form, now), now, Some(FullName(employee.value)));
      r := Ok(ToView(NewTaskItem(form, now).(id := id), Some(FullName(employee.value))));
    }

    /** CreateTaskAsync as evidently intended: the catch rolls back only a
        transaction that is still open, so every failure reports its own
        exception. Everything else is as written. */
    method CreateTask(form: TaskView, now: Timestamp, f: CreateFaults) returns (r: Result<TaskView>)
      requires Valid()
      modifies unitOfWork, unitOfWork.context
      ensures Valid()
      ensures form.employeeId !in old(Rows().employees) ==>
        r == Err(ArgumentException) && State() == old(State()) && unitOfWork.transactionOpen == old(unitOfWork.transactionOpen)
      ensures form.employeeId in old(Rows().employees) && old(unitOfWork.transactionOpen) ==>
        r == Err(InvalidOperationException(TransactionAlreadyOpen)) && State() == old(State()) && unitOfWork.transactionOpen
      ensures form.employeeId in old(Rows().employees) && !old(unitOfWork.transactionOpen) ==> !unitOfWork.transactionOpen
      ensures old(unitOfWork.context.Clean()) && !old(unitOfWork.transactionOpen) && form.employeeId in old(Rows().employees) ==>
        var before := old(Rows());
        var stage := CreateStageError(before, form, f);
        var id := old(unitOfWork.context.seeds.task);
        && !unitOfWork.transactionOpen
        && (r.Ok? <==> stage.None? && !f.commitSave && !f.commit)
        && (r.Ok? ==>
              && r.value == form.(id := id, employeeName := Some(FullName(before.employees[form.employeeId])))
              && Rows() == WithCreatedTask(before, form, now, id)
              && unitOfWork.context.db.committed == Rows())
        && (r.Err? ==> Rows() == before && unitOfWork.context.db.committed == before)
        && (stage.Some? ==> r == Err(if f.rollback then StoreFailure else stage.value))
        && (stage.None? && (f.commitSave || f.commit) ==> r == Err(StoreFailure))
    {
      var employee := GetById(unitOfWork.context.db.current.employees, form.employeeId);
      if employee.None? {
        return Err(ArgumentException);
      }
      var begun := unitOfWork.BeginTransaction();
      if begun.Err? {
        return Err(begun.error);
      }
      var id, failure := CreateInTransaction(form, now, f);
      if failure.Some? {
        if unitOfWork.transactionOpen {
          var rolledBack := unitOfWork.RollbackTransaction(f.rollback);
          if rolledBack.Err? {
            return Err(rolledBack.error);
          }
        }
        return Err(failure.value);
      }
      ViewOfMappedForm(form, NewTaskItem(form, now), now, Some(FullName(employee.value)));
      r := Ok(ToView(NewTaskItem(form, now).(id := id), Some(FullName(employee.value))));
    }

    /** UpdateTaskAsync: false when no task has the form's key; otherwise the
        form is mapped onto the loaded row, UpdateDate is stamped and the row
        saved. Any exception of the save is caught and reported as false, and
        the tracker keeps the pending update. */
    method UpdateTask(form: TaskView, now: Timestamp, fault: bool) returns (ok: bool)
      requires Valid()
      modifies unitOfWork.context
      ensures Valid()
      ensures form.id !in old(Rows().tasks) ==> !ok && State() == old(State())
      ensures !ok ==> unitOfWork.context.db == old(unitOfWork.context.db)
      ensures old(unitOfWork.context.Clean()) && form.id in old(Rows().tasks) ==>
        var before := old(Rows());
        var updated := MapOnto(form, before.tasks[form.id]).(updateDate := Some(now));
        && (ok <==> !fault && TaskResolves(before, updated))
        && (ok ==> Rows() == before.(tasks := before.tasks[form.id := updated]))
    {
      var context := unitOfWork.context;
      var task := GetById(context.db.current.tasks, form.id);
      if task.None? {
        return false;
      }
      var updated := MapOnto(form, task.value).(updateDate := Some(now));
      if context.Clean() {
        IntegrityWithTask(context.db.current, updated);
        FlushWithoutRemovals(context.db.current, context.db.current.(tasks := context.db.current.tasks[form.id := updated]));
      }
      context.UpdateTask(updated);
      var saved := unitOfWork.SaveChanges(fault);
      ok := saved.Ok?;
    }

    /** UpdateTaskStatusAsync: false when the task is missing or the save
        fails; otherwise any status replaces any other, and only Status and
        UpdateDate change. */
    method UpdateTaskStatus(taskId: Id, status: TaskStatus, now: Timestamp, fault: bool) returns (ok: bool)
      requires Valid()
      modifies unitOfWork.context
      ensures Valid()
      ensures taskId !in old(Rows().tasks) ==> !ok && State() == old(State())
      ensures !ok ==> unitOfWork.context.db == old(unitOfWork.context.db)
      ensures old(unitOfWork.context.Clean()) && taskId in old(Rows().tasks) ==>
        var before := old(Rows());
        && (ok <==> !fault)
        && (ok ==> Rows() == before.(tasks := before.tasks[taskId := before.tasks[taskId].(status := status, updateDate := Some(now))]))
    {
      var context := unitOfWork.context;
      var task := GetById(context.db.current.tasks, taskId);
      if task.None? {
        return false;
      }
      var updated := task.value.(status := status, updateDate := Some(now));
      if context.Clean() {
        IntegrityWithTask(context.db.current, updated);
        FlushWithoutRemovals(context.db.current, context.db.current.(tasks := context.db.current.tasks[taskId := updated]));
      }
      context.UpdateTask(updated);
      var saved := unitOfWork.SaveChanges(fault);
      ok := saved.Ok?;
    }

    /** DeleteTaskAsync: false when the task is missing. Otherwise every
        assignment row of the task is removed, then the task, and one save
        writes them all; the save's exception is rethrown. */
    method DeleteTask(id: Id, fault: bool) returns (r: Result<bool>)
      requires Valid()
      modifies unitOfWork.context
      ensures Valid()
      ensures id !in old(Rows().tasks) ==> r == Ok(false) && State() == old(State())
      ensures r.Err? ==> unitOfWork.context.db == old(unitOfWork.context.db)
      ensures old(unitOfWork.context.Clean()) && id in old(Rows().tasks) ==>
        var before := old(Rows());
        && (r.Ok? <==> !fault)
        && (r.Ok? ==> r.value && Rows() == WithoutTask(before, id))
        && (r.Err? ==> r.error == StoreFailure)
    {
      var context := unitOfWork.context;
      var task := GetById(context.db.current.tasks, id);
      if task.None? {
        return Ok(false);
      }
      ghost var clean := context.Clean();
      ghost var start := context.Snapshot();
      var links := AssignmentsByTask(context.db.current, id).Keys;
      var pending := links;
      while pending != {}
        invariant context.Valid() && unitOfWork.Valid()
        invariant pending <= links
        invariant context.Snapshot() == start.(staged := start.staged.(assignments := start.staged.assignments - (links - pending)))
        decreases pending
      {
        var key :| key in pending;
        context.RemoveAssignment(key);
        pending := pending - {key};
      }
      context.RemoveTask(id);
      if clean {
        var before := start.db.current;
        assert before.assignments - links == WithoutTask(before, id).assignments;
        assert context.staged == WithoutTask(before, id);
        RemovedTaskFlush(before, id);
      }
      var saved := unitOfWork.SaveChanges(fault);
      if saved.Err? {
        return Err(saved.error);
      }
      r := Ok(true);
    }

    /** AssignTaskToEmployeeAsync: KeyNotFoundException when the task is
        missing, InvalidOperationException when the pair already has a row,
        and otherwise the new row is added and saved. Whether the employee
        exists is left to the foreign key, which refuses the save. */
    method AssignTaskToEmployee(taskId: Id, employeeId: Id, now: Timestamp, fault: bool) returns (r: Result<()>)
      requires Valid()
      modifies unitOfWork.context
      ensures Valid()
      ensures taskId !in old(Rows().tasks) ==> r == Err(KeyNotFoundException) && State() == old(State())
      ensures taskId in old(Rows().tasks) && (taskId, employeeId) in old(Rows().assignments) ==>
        r == Err(InvalidOperationException(AlreadyAssigned)) && State() == old(State())
      ensures r.Err? ==> unitOfWork.context.db == old(unitOfWork.context.db)
      ensures taskId in old(Rows().tasks) && (taskId, employeeId) !in old(Rows().assignments) ==>
        && (old(unitOfWork.context.doomed.Some? || (taskId, employeeId) in unitOfWork.context.staged.assignments) ==> r.Err?)
        && (r.Err? ==> unitOfWork.context.doomed.Some? || (taskId, employeeId) in unitOfWork.context.staged.assignments)
        && (old((taskId, employeeId) in unitOfWork.context.staged.assignments) ==>
              r == Err(InvalidOperationException(KeyAlreadyTracked)) && State() == old(State()))
      ensures old(unitOfWork.context.Clean()) && taskId in old(Rows().tasks) && (taskId, employeeId) !in old(Rows().assignments) ==>
        var before := old(Rows());
        && (r.Ok? <==> !fault && employeeId in before.employees)
        && (r.Err? ==> r.error == if fault then StoreFailure else DbUpdateException)
        && (r.Err? ==> (taskId, employeeId) in unitOfWork.context.staged.assignments)
        && (r.Ok? ==> unitOfWork.context.Clean() && Rows() == before.(assignments := before.assignments[(taskId, employeeId) := now]))
    {
      var task := GetById(unitOfWork.context.db.current.tasks, taskId);
      if task.None? {
        return Err(KeyNotFoundException);
      }
      var existing := FindAssignment(unitOfWork.context.db.current, taskId, employeeId);
      if existing.Some? {
        return Err(InvalidOperationException(AlreadyAssigned));
      }
      var saved := InsertAssignment(taskId, employeeId, now, fault);
      if saved.Err? {
        return Err(saved.error);
      }
      r := Ok(());
    }

    /** Two identical assignments in a row from a clean session: whatever the
        first does, the second fails. Either the first added the pair, or it
        was refused before any write, or its failed save left the pair in the
        tracker, where the second add meets it again. */
    method AssignTwice(taskId: Id, employeeId: Id, now: Timestamp, fault1: bool, fault2: bool)
      returns (first: Result<()>, second: Result<()>)
      requires Valid() && unitOfWork.context.Clean()
      modifies unitOfWork.context
      ensures Valid()
      ensures second.Err?
      ensures first.Ok? ==> second == Err(InvalidOperationException(AlreadyAssigned))
      ensures first == Err(StoreFailure) || first == Err(DbUpdateException) ==>
        second == Err(InvalidOperationException(KeyAlreadyTracked))
    {
      first := AssignTaskToEmployee(taskId, employeeId, now, fault1);
      second := AssignTaskToEmployee(taskId, employeeId, now, fault2);
    }

    /** Assigning a task and then, when that succeeded, unassigning it, from
        a clean session: the unassignment succeeds exactly when its own save
        does, and then the rows are exactly as they were. */
    method AssignThenUnassign(taskId: Id, employeeId: Id, now: Timestamp, fault1: bool, fault2: bool)
      returns (link: Result<()>, unlink: Option<Result<()>>)
      requires Valid() && unitOfWork.context.Clean()
      modifies unitOfWork.context
      ensures Valid()
      ensures unlink.Some? <==> link.Ok?
      ensures unlink.Some? ==> (unlink.value.Ok? <==> !fault2)
      ensures unlink == Some(Ok(())) ==> Rows() == old(Rows())
    {
      ghost var before := Rows();
      link := AssignTaskToEmployee(taskId, employeeId, now, fault1);
      if link.Err? {
        return link, None;
      }
      var r := UnassignTaskFromEmployee(taskId, employeeId, fault2);
      unlink := Some(r);
      if r.Ok? {
        assert before.assignments[(taskId, employeeId) := now] - {(taskId, employeeId)} == before.assignments;
      }
    }

    /** UnassignTaskFromEmployeeAsync: KeyNotFoundException when the pair has
        no row; otherwise that row alone is removed and saved. */
    method UnassignTaskFromEmployee(taskId: Id, employeeId: Id, fault: bool) returns (r: Result<()>)
      requires Valid()
      modifies unitOfWork.context
      ensures Valid()
      ensures (taskId, employeeId) !in old(Rows().assignments) ==> r == Err(KeyNotFoundException) && State() == old(State())
      ensures r.Err? ==> unitOfWork.context.db == old(unitOfWork.context.db)
      ensures old(unitOfWork.context.Clean()) && (taskId, employeeId) in old(Rows().assignments) ==>
        var before := old(Rows());
        && (r.Ok? <==> !fault)
        && (r.Err? ==> r.error == StoreFailure)
        && (r.Ok? ==> Rows() == before.(assignments := before.assignments - {(taskId, employeeId)}))
    {
      var context := unitOfWork.context;
      var existing := FindAssignment(context.db.current, taskId, employeeId);
      if existing.None? {
        return Err(KeyNotFoundException);
      }
      if context.Clean() {
        var before := context.db.current;
        IntegrityWithoutAssignment(before, (taskId, employeeId));
        FlushWithoutRemovals(before, before.(assignments := before.assignments - {(taskId, employeeId)}));
      }
      context.RemoveAssignment((taskId, employeeId));
      var saved := unitOfWork.SaveChanges(fault);
      if saved.Err? {
        return Err(saved.error);
      }
      r := Ok(());
    }

    /** UpdateTaskAssignmentAsync as written: null when the task has no
        assignment row; otherwise the first row found gets the new EmployeeId
        and is saved, and the row is read again and mapped to a TaskMB.
        EmployeeId is part of the row's key, so for any employee other than
        the current one EF refuses the change on the client and the save
        throws, whatever the server's state; with the same employee nothing
        changes. Either way no task ever moves to another employee, and
        TaskItem.EmployeeId is not touched. `found` is the row picked. */
    method UpdateTaskAssignment(taskId: Id, newEmployeeId: Id, fault: bool)
      returns (r: Result<Option<TaskView>>, ghost found: Option<(Id, Id)>)
      requires Valid()
      modifies unitOfWork.context
      ensures Valid()
      ensures found.Some? ==> found.value in old(Rows().assignments) && found.value.0 == taskId
      ensures found.None? <==> AssignmentsByTask(old(Rows()), taskId) == map[]
      ensures found.None? ==> r == Ok(None) && State() == old(State())
      ensures r.Err? ==> unitOfWork.context.db == old(unitOfWork.context.db)
      ensures found.Some? && found.value.1 != newEmployeeId ==>
        r == Err(InvalidOperationException(KeyPropertyModified))
      ensures r.Ok? && r.value.Some? ==>
        var employeeId := r.value.value.employeeId;
        (taskId, employeeId) in Rows().assignments
        && r.value.value == AssignmentView(EmployeeTask(taskId, employeeId, Rows().assignments[(taskId, employeeId)]))
      ensures old(unitOfWork.context.Clean()) ==>
        && Rows() == old(Rows())
        && (found.Some? && found.value.1 == newEmployeeId && !fault ==> r.Ok? && r.value.Some?)
    {
      var context := unitOfWork.context;
      var key := GetFirstOrDefault(context.db.current.assignments, (key: (Id, Id), date: Timestamp) => key.0 == taskId);
      found := key;
      if key.None? {
        return Ok(None), found;
      }
      context.ChangeAssignmentEmployee(key.value, newEmployeeId);
      if context.Clean() {
        CleanSaveIsIdle(context.Snapshot());
      }
      var saved := unitOfWork.SaveChanges(fault);
      if saved.Err? {
        return Err(saved.error), found;
      }
      var again := GetFirstOrDefault(context.db.current.assignments, (key: (Id, Id), date: Timestamp) => key.0 == taskId);
      if again.None? {
        return Ok(None), found;
      }
      r := Ok(Some(AssignmentView(EmployeeTask(taskId, again.value.1, context.db.current.assignments[again.value]))));
    }

    /** UpdateTaskAssignmentAsync as evidently intended: the row found for the
        task is replaced by one linking the task to the new employee, keeping
        its AssignedDate, in one save. The new row is refused when the new
        employee does not exist or already holds the task under another row.
        `replaced` is the row taken out. */
    method ReassignTask(taskId: Id, newEmployeeId: Id, fault: bool)
      returns (r: Result<Option<EmployeeTask>>, ghost replaced: Option<(Id, Id)>)
      requires Valid()
      modifies unitOfWork.context
      ensures Valid()
      ensures replaced.Some? ==> replaced.value in old(Rows().assignments) && replaced.value.0 == taskId
      ensures replaced.None? <==> AssignmentsByTask(old(Rows()), taskId) == map[]
      ensures replaced.None? ==> r == Ok(None) && State() == old(State())
      ensures r.Err? ==> unitOfWork.context.db == old(unitOfWork.context.db)
      ensures old(unitOfWork.context.Clean()) && replaced.Some? ==>
        var before := old(Rows());
        var date := before.assignments[replaced.value];
        var pair := (taskId, newEmployeeId);
        && (r.Ok? <==> !fault && newEmployeeId in before.employees && (pair == replaced.value || pair !in before.assignments))
        && (r.Ok? ==>
              && r == Ok(Some(EmployeeTask(taskId, newEmployeeId, date)))
              && Rows() == before.(assignments := (before.assignments - {replaced.value})[pair := date]))
    {
      var context := unitOfWork.context;
      var key := GetFirstOrDefault(context.db.current.assignments, (key: (Id, Id), date: Timestamp) => key.0 == taskId);
      replaced := key;
      if key.None? {
        return Ok(None), replaced;
      }
      var date := context.db.current.assignments[key.value];
      var saved := ReplaceAssignment(key.value, (taskId, newEmployeeId), date, fault);
      if saved.Err? {
        return Err(saved.error), replaced;
      }
      r := Ok(Some(EmployeeTask(taskId, newEmployeeId, date)));
    }
  }
}
