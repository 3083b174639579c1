/** The store: four tables, the constraints OnModelCreating declares over them,
    and the context object through which every repository reads and writes.

    A context holds three views of the rows. `staged` is the change tracker:
    saved rows plus every pending Add, Update and Remove. `db.current` is what
    the database shows this session, including writes of an open transaction.
    `db.committed` is the durable state every session sees. SaveChanges writes
    the tracker to the database, where the declared delete behaviours run and
    the constraints are checked. */
module DbContext {
  import opened Models

  /** The four tables. An assignment row is stored under its composite key
      (TaskId, EmployeeId) with its AssignedDate, so no pair can have two rows. */
  datatype Tables = Tables(
    departments: map<Id, Department>,
    employees: map<Id, Employee>,
    tasks: map<Id, TaskItem>,
    assignments: map<(Id, Id), Timestamp>)

  function EmptyTables(): Tables {
    Tables(map[], map[], map[], map[])
  }

  /** Every row is stored under its own key. */
  predicate KeysMatch(t: Tables) {
    && (forall k :: k in t.departments ==> t.departments[k].id == k)
    && (forall k :: k in t.employees ==> t.employees[k].id == k)
    && (forall k :: k in t.tasks ==> t.tasks[k].id == k)
  }

  /** Employee.DepartmentId and Employee.ManagerId name existing rows. Both
      relationships are Restrict: a referenced department or manager stays. */
  predicate EmployeeReferencesResolve(t: Tables) {
    forall k :: k in t.employees ==>
      && t.employees[k].departmentId in t.departments
      && (t.employees[k].managerId.Some? ==> t.employees[k].managerId.value in t.employees)
  }

  /** TaskItem.EmployeeId and TaskItem.CreatedByManagerId name existing
      employees (both Restrict). */
  predicate TaskReferencesResolve(t: Tables) {
    forall k :: k in t.tasks ==>
      && t.tasks[k].employeeId in t.employees
      && (t.tasks[k].createdByManagerId.Some? ==> t.tasks[k].createdByManagerId.value in t.employees)
  }

  /** Both halves of an assignment's key name existing rows. */
  predicate AssignmentReferencesResolve(t: Tables) {
    forall p :: p in t.assignments ==> p.0 in t.tasks && p.1 in t.employees
  }

  /** Department.ManagerId names an existing employee. */
  predicate DepartmentManagersResolve(t: Tables) {
    forall k :: k in t.departments && t.departments[k].managerId.Some? ==>
      t.departments[k].managerId.value in t.employees
  }

  /** The department-manager relationship is one-to-one: the unique index on
      Department.ManagerId lets no two departments share a manager. */
  predicate DepartmentManagersUnique(t: Tables) {
    forall j, k :: j in t.departments && k in t.departments && j != k && t.departments[j].managerId.Some? ==>
      t.departments[j].managerId != t.departments[k].managerId
  }

  /** Every constraint the database enforces. */
  predicate Integrity(t: Tables) {
    && KeysMatch(t)
    && EmployeeReferencesResolve(t)
    && TaskReferencesResolve(t)
    && AssignmentReferencesResolve(t)
    && DepartmentManagersResolve(t)
    && DepartmentManagersUnique(t)
  }

  /** SetNull: a department whose manager is among `removed` loses its ManagerId. */
  function ClearManager(d: Department, removed: set<Id>): Department {
    if d.managerId.Some? && d.managerId.value in removed then d.(managerId := None) else d
  }

  /** The rows the database holds after writing `staged` over `before`, before
      any constraint is checked. The assignment rows of a removed task or
      employee go with it (EmployeeTask's required foreign keys keep EF's
      default, Cascade), and a department whose manager was removed keeps no
      ManagerId (SetNull). */
  function Apply(before: Tables, staged: Tables): Tables {
    var goneEmployees := before.employees.Keys - staged.employees.Keys;
    var goneTasks := before.tasks.Keys - staged.tasks.Keys;
    staged.(
      departments := map k | k in staged.departments :: ClearManager(staged.departments[k], goneEmployees),
      assignments := map p | p in staged.assignments && p.0 !in goneTasks && p.1 !in goneEmployees
                             :: staged.assignments[p])
  }

  /** The outcome of one save: the applied rows, or DbUpdateException when they
      break a constraint (the database then keeps `before`). */
  function Flush(before: Tables, staged: Tables): (r: Result<Tables>)
    ensures r.Ok? ==> Integrity(r.value)
    ensures r.Err? ==> r.error == DbUpdateException
  {
    var after := Apply(before, staged);
    if Integrity(after) then Ok(after) else Err(DbUpdateException)
  }

  /** The keys whose rows differ between two versions of a table. */
  function Changed<K, V(==)>(a: map<K, V>, b: map<K, V>): set<K> {
    set k | k in a.Keys + b.Keys && !(k in a && k in b && a[k] == b[k])
  }

  /** The rows a save inserts, updates or deletes: what SaveChanges reports. */
  function AffectedRows(before: Tables, after: Tables): nat {
    |Changed(before.departments, after.departments)| + |Changed(before.employees, after.employees)|
    + |Changed(before.tasks, after.tasks)| + |Changed(before.assignments, after.assignments)|
  }

  lemma ChangedNothing<K, V>(a: map<K, V>, b: map<K, V>)
    ensures Changed(a, b) == {} <==> a == b
  {
    if Changed(a, b) == {} {
      forall k | k in a ensures k in b && a[k] == b[k] {
        assert k !in Changed(a, b);
      }
      forall k | k in b ensures k in a {
        assert k !in Changed(a, b);
      }
      assert a.Keys == b.Keys;
    }
  }

  /** A save reports zero rows exactly when it changes nothing. */
  lemma NoAffectedRowsIffUnchanged(before: Tables, after: Tables)
    ensures AffectedRows(before, after) == 0 <==> before == after
  {
    ChangedNothing(before.departments, after.departments);
    ChangedNothing(before.employees, after.employees);
    ChangedNothing(before.tasks, after.tasks);
    ChangedNothing(before.assignments, after.assignments);
  }

  /** Identity seeds: the next key each identity column hands out. */
  datatype Seeds = Seeds(department: Id, employee: Id, task: Id)

  /** Every key is positive and below its table's seed. */
  predicate KeysBelow(t: Tables, s: Seeds) {
    && (forall k :: k in t.departments ==> 0 < k < s.department)
    && (forall k :: k in t.employees ==> 0 < k < s.employee)
    && (forall k :: k in t.tasks ==> 0 < k < s.task)
  }

  /** The database as one session sees it: the rows it reads, the durable
      rows, and whether a transaction is open on the connection. */
  datatype Database = Database(current: Tables, committed: Tables, inTransaction: bool)

  /** Every field of a context, as one value. */
  datatype ContextState = ContextState(staged: Tables, doomed: Option<Error>, db: Database, seeds: Seeds)

  /** What every session keeps true: the database satisfies its constraints,
      outside a transaction the session reads the durable rows, and the
      identity seeds lie above every key handed out. */
  predicate Consistent(s: ContextState) {
    && Integrity(s.db.current) && Integrity(s.db.committed)
    && (!s.db.inTransaction ==> s.db.current == s.db.committed)
    && s.seeds.department >= 1 && s.seeds.employee >= 1 && s.seeds.task >= 1
    && KeysBelow(s.staged, s.seeds) && KeysBelow(s.db.current, s.seeds) && KeysBelow(s.db.committed, s.seeds)
  }

  /** No change is pending: the tracker holds exactly the rows the session reads. */
  predicate IsClean(s: ContextState) {
    s.staged == s.db.current && s.doomed.None?
  }

  /** A refusal EF Core raises on the client, while it detects changes,
      before any command reaches the server. */
  predicate RaisedOnClient(e: Error) {
    e.InvalidOperationException?
  }

  /** The pending failure after a call that dooms the save with `e`: a
      refusal already raised on the client stays, because EF Core throws it
      before the server is asked; otherwise `e` replaces what was pending. */
  function Doom(pending: Option<Error>, e: Error): (r: Option<Error>)
    ensures r.Some?
    ensures pending.Some? && RaisedOnClient(pending.value) ==> r == pending
    ensures (pending.None? || !RaisedOnClient(pending.value)) ==> r == Some(e)
  {
    if pending.Some? && RaisedOnClient(pending.value) then pending else Some(e)
  }

  /** What SaveChanges reports in state `s`: the affected-row count, or the
      exception that aborts the save. A refusal raised on the client comes
      first, whatever the server would do; then a server fault; then a
      refusal the database would give. */
  function SaveResult(s: ContextState, fault: bool): Result<nat> {
    if s.doomed.Some? && RaisedOnClient(s.doomed.value) then Err(s.doomed.value)
    else if fault then Err(StoreFailure)
    else if s.doomed.Some? then Err(s.doomed.value)
    else match Flush(s.db.current, s.staged)
      case Ok(after) => Ok(AffectedRows(s.db.current, after))
      case Err(e) => Err(e)
  }

  /** A key change refused on the client decides the save: no later doom
      and no server fault replaces it. */
  lemma ClientRefusalSurvivesDoom(s: ContextState, e: Error, fault: bool)
    requires s.doomed.Some? && RaisedOnClient(s.doomed.value)
    ensures SaveResult(s.(doomed := Doom(s.doomed, e)), fault) == Err(s.doomed.value)
  {
  }

  /** The state a successful save leaves: tracker and session both hold the
      applied rows, which are durable at once unless a transaction is open. */
  function SavedState(s: ContextState): ContextState {
    var after := Apply(s.db.current, s.staged);
    s.(staged := after,
       db := s.db.(current := after, committed := if s.db.inTransaction then s.db.committed else after))
  }

  /** A successful save leaves a clean and consistent session. */
  lemma SaveKeepsConsistency(s: ContextState, fault: bool)
    requires Consistent(s) && SaveResult(s, fault).Ok?
    ensures Consistent(SavedState(s)) && IsClean(SavedState(s))
  {
    var after := Apply(s.db.current, s.staged);
    assert after.departments.Keys == s.staged.departments.Keys;
    assert Flush(s.db.current, s.staged).Ok?;
  }

  /** When a save removes no employee and no task, nothing cascades: the
      database is asked to hold exactly the tracked rows. */
  lemma ApplyWithoutRemovals(before: Tables, staged: Tables)
    requires before.employees.Keys <= staged.employees.Keys && before.tasks.Keys <= staged.tasks.Keys
    ensures Apply(before, staged) == staged
  {
    var after := Apply(before, staged);
    assert before.employees.Keys - staged.employees.Keys == {};
    forall k | k in staged.departments ensures after.departments[k] == staged.departments[k] {
    }
    assert after.departments == staged.departments;
    assert after.assignments == staged.assignments;
  }

  /** The outcome of a save that removes nothing: the tracked rows if they
      meet every constraint, DbUpdateException otherwise. */
  lemma FlushWithoutRemovals(before: Tables, staged: Tables)
    requires before.employees.Keys <= staged.employees.Keys && before.tasks.Keys <= staged.tasks.Keys
    ensures Flush(before, staged) == if Integrity(staged) then Ok(staged) else Err(DbUpdateException)
  {
    ApplyWithoutRemovals(before, staged);
  }

  /** Saving a clean session writes nothing, reports zero rows and changes
      nothing. */
  lemma CleanSaveIsIdle(s: ContextState)
    requires Consistent(s) && IsClean(s)
    ensures SaveResult(s, false) == Ok(0) && SavedState(s) == s
  {
    FlushWithoutRemovals(s.db.current, s.db.current);
    NoAffectedRowsIffUnchanged(s.db.current, s.db.current);
  }

  /** Dropping an assignment row never breaks a constraint. */
  lemma IntegrityWithoutAssignment(t: Tables, key: (Id, Id))
    requires Integrity(t)
    ensures Integrity(t.(assignments := t.assignments - {key}))
  {
  }

  /** A task's foreign keys resolve: its assignee and, when set, its creator exist. */
  predicate TaskResolves(t: Tables, task: TaskItem) {
    task.employeeId in t.employees
    && (task.createdByManagerId.Some? ==> task.createdByManagerId.value in t.employees)
  }

  /** Writing one task row keeps the constraints exactly when its foreign keys resolve. */
  lemma IntegrityWithTask(t: Tables, task: TaskItem)
    requires Integrity(t)
    ensures Integrity(t.(tasks := t.tasks[task.id := task])) <==> TaskResolves(t, task)
  {
    var t' := t.(tasks := t.tasks[task.id := task]);
    if TaskResolves(t, task) {
      assert TaskReferencesResolve(t');
      assert AssignmentReferencesResolve(t');
    } else {
      assert !TaskReferencesResolve(t') by {
        assert task.id in t'.tasks && t'.tasks[task.id] == task;
      }
    }
  }

  /** Writing one assignment row keeps the constraints exactly when its task
      and its employee exist. */
  lemma IntegrityWithAssignment(t: Tables, key: (Id, Id), date: Timestamp)
    requires Integrity(t)
    ensures Integrity(t.(assignments := t.assignments[key := date])) <==> key.0 in t.tasks && key.1 in t.employees
  {
    var t' := t.(assignments := t.assignments[key := date]);
    if !(key.0 in t.tasks && key.1 in t.employees) {
      assert key in t'.assignments;
    }
  }

  /** An employee's foreign keys resolve: the department exists and, when
      set, the manager too. */
  predicate EmployeeResolves(t: Tables, e: Employee) {
    e.departmentId in t.departments && (e.managerId.Some? ==> e.managerId.value in t.employees)
  }

  /** Rewriting a stored employee row keeps the constraints exactly when its
      foreign keys resolve. */
  lemma IntegrityWithEmployee(t: Tables, e: Employee)
    requires Integrity(t) && e.id in t.employees
    ensures Integrity(t.(employees := t.employees[e.id := e])) <==> EmployeeResolves(t, e)
  {
    var t' := t.(employees := t.employees[e.id := e]);
    assert t'.employees.Keys == t.employees.Keys;
    if !EmployeeResolves(t, e) {
      assert e.id in t'.employees && t'.employees[e.id] == e;
    }
  }

  /** A department's manager exists, and manages no other department. */
  predicate DepartmentResolves(t: Tables, d: Department) {
    d.managerId.Some? ==>
      && d.managerId.value in t.employees
      && forall j :: j in t.departments && j != d.id ==> t.departments[j].managerId != d.managerId
  }

  /** Writing one department row keeps the constraints exactly when its
      manager exists and manages no other department. */
  lemma IntegrityWithDepartment(t: Tables, d: Department)
    requires Integrity(t)
    ensures Integrity(t.(departments := t.departments[d.id := d])) <==> DepartmentResolves(t, d)
  {
    var t' := t.(departments := t.departments[d.id := d]);
    if DepartmentResolves(t, d) {
      assert EmployeeReferencesResolve(t');
      forall j, k | j in t'.departments && k in t'.departments && j != k && t'.departments[j].managerId.Some?
        ensures t'.departments[j].managerId != t'.departments[k].managerId
      {
        if j != d.id && k != d.id {
          assert t'.departments[j] == t.departments[j] && t'.departments[k] == t.departments[k];
        }
      }
    } else if d.managerId.value !in t.employees {
      assert d.id in t'.departments && t'.departments[d.id] == d;
      assert !DepartmentManagersResolve(t');
    } else {
      var j :| j in t.departments && j != d.id && t.departments[j].managerId == d.managerId;
      assert t'.departments[j] == t.departments[j] && t'.departments[d.id] == d;
      assert !DepartmentManagersUnique(t');
    }
  }

  /** An employee still referenced by a row that stays: a subordinate or a
      task (both Restrict). */
  predicate EmployeeReferenced(t: Tables, k: Id) {
    || (exists j :: j in t.employees && j != k && t.employees[j].managerId == Some(k))
    || (exists j :: j in t.tasks && (t.tasks[j].employeeId == k || t.tasks[j].createdByManagerId == Some(k)))
  }

  /** The rows left when employee k is removed: its assignments cascade and
      the department it managed keeps no manager. */
  function WithoutEmployee(t: Tables, k: Id): Tables {
    t.(employees := t.employees - {k},
       departments := map j | j in t.departments :: ClearManager(t.departments[j], {k}),
       assignments := map p | p in t.assignments && p.1 != k :: t.assignments[p])
  }

  /** Removing an employee: refused (Restrict) while a subordinate or a task
      names them; otherwise their assignments go with them and the department
      they managed loses its manager (SetNull), and nothing else changes. */
  lemma RemovedEmployeeFlush(t: Tables, k: Id)
    requires Integrity(t) && k in t.employees
    ensures Flush(t, t.(employees := t.employees - {k})) ==
      if EmployeeReferenced(t, k) then Err(DbUpdateException) else Ok(WithoutEmployee(t, k))
  {
    var staged := t.(employees := t.employees - {k});
    var after := Apply(t, staged);
    assert t.employees.Keys - staged.employees.Keys == {k};
    assert after == WithoutEmployee(t, k);
    if EmployeeReferenced(t, k) {
      if j :| j in t.employees && j != k && t.employees[j].managerId == Some(k) {
        assert j in after.employees;
        assert !EmployeeReferencesResolve(after);
      } else {
        var j :| j in t.tasks && (t.tasks[j].employeeId == k || t.tasks[j].createdByManagerId == Some(k));
        assert j in after.tasks;
        assert !TaskReferencesResolve(after);
      }
    } else {
      assert EmployeeReferencesResolve(after) by {
        forall j | j in after.employees
          ensures after.employees[j].managerId.Some? ==> after.employees[j].managerId.value in after.employees
        {
          assert j != k && after.employees[j] == t.employees[j];
        }
      }
      assert DepartmentManagersResolve(after) by {
        forall j | j in after.departments && after.departments[j].managerId.Some?
          ensures after.departments[j].managerId.value in after.employees
        {
          assert after.departments[j] == ClearManager(t.departments[j], {k});
        }
      }
      assert DepartmentManagersUnique(after) by {
        forall i, j | i in after.departments && j in after.departments && i != j && after.departments[i].managerId.Some?
          ensures after.departments[i].managerId != after.departments[j].managerId
        {
          assert after.departments[i] == ClearManager(t.departments[i], {k});
          assert after.departments[j] == ClearManager(t.departments[j], {k});
        }
      }
    }
  }

  /** The rows left when task k and its assignments are removed. */
  function WithoutTask(t: Tables, k: Id): Tables {
    t.(tasks := t.tasks - {k},
       assignments := map p | p in t.assignments && p.0 != k :: t.assignments[p])
  }

  /** Removing a task together with its assignments is always accepted, and
      removes nothing else. */
  lemma RemovedTaskFlush(t: Tables, k: Id)
    requires Integrity(t)
    ensures Flush(t, WithoutTask(t, k)) == Ok(WithoutTask(t, k))
  {
    var staged := WithoutTask(t, k);
    var after := Apply(t, staged);
    assert t.employees.Keys - staged.employees.Keys == {};
    assert after.departments == staged.departments by {
      forall j | j in staged.departments ensures after.departments[j] == staged.departments[j] { }
    }
    assert after == staged;
  }

  /** Some employee belongs to department k. */
  predicate DepartmentInUse(t: Tables, k: Id) {
    exists j :: j in t.employees && t.employees[j].departmentId == k
  }

  /** Removing a department: refused (Restrict) while an employee belongs
      to it; otherwise exactly that row goes. */
  lemma RemovedDepartmentFlush(t: Tables, k: Id)
    requires Integrity(t)
    ensures Flush(t, t.(departments := t.departments - {k})) ==
      if DepartmentInUse(t, k) then Err(DbUpdateException) else Ok(t.(departments := t.departments - {k}))
  {
    var staged := t.(departments := t.departments - {k});
    ApplyWithoutRemovals(t, staged);
    if j :| j in t.employees && t.employees[j].departmentId == k {
      assert !EmployeeReferencesResolve(staged);
    }
  }

  /** A set whose members are all equal has at most one member. */
  lemma AtMostOne<T>(s: set<T>)
    requires forall x, y :: x in s && y in s ==> x == y
    ensures |s| <= 1
  {
    if |s| > 0 {
      var x :| x in s;
      assert s == {x};
    }
  }

  /** One-to-one: an employee manages at most one department. */
  lemma OneDepartmentPerManager(t: Tables, m: Id)
    requires Integrity(t)
    ensures |set j | j in t.departments && t.departments[j].managerId == Some(m)| <= 1
  {
    var managed := set j | j in t.departments && t.departments[j].managerId == Some(m);
    assert forall i, j :: i in managed && j in managed ==> i == j;
    AtMostOne(managed);
  }

  /** ApplicationDbContext: one session over the store. */
  class ApplicationDbContext {
    /** The change tracker: saved rows plus pending changes. */
    var staged: Tables
    /** Set when a pending change is one the database will refuse whatever
        else happens (an update of a row it does not hold, an explicit value
        for an identity column, a second row under one key); every later save
        then fails with it. */
    var doomed: Option<Error>
    var db: Database
    var seeds: Seeds

    function Snapshot(): ContextState
      reads this
    {
      ContextState(staged, doomed, db, seeds)
    }

    ghost predicate Valid()
      reads this
    {
      Consistent(Snapshot())
    }

    /** No change is pending. */
    predicate Clean()
      reads this
    {
      IsClean(Snapshot())
    }

    /** A session over a database that holds `rows`. */
    constructor (rows: Tables, identities: Seeds)
      requires Integrity(rows) && KeysBelow(rows, identities)
      requires identities.department >= 1 && identities.employee >= 1 && identities.task >= 1
      ensures Valid() && Clean()
      ensures db == Database(rows, rows, false) && seeds == identities
    {
      staged := rows;
      doomed := None;
      db := Database(rows, rows, false);
      seeds := identities;
    }

    /** DbContext.SaveChangesAsync: writes every pending change as one unit.
        Outside a transaction the write is durable at once; inside one it
        becomes durable at commit. A failed save changes nothing, and the
        tracker keeps its pending changes. */
    method SaveChanges(fault: bool) returns (r: Result<nat>)
      requires Valid()
      modifies this
      ensures Valid()
      ensures r == SaveResult(old(Snapshot()), fault)
      ensures r.Ok? ==> Snapshot() == SavedState(old(Snapshot())) && Clean()
      ensures r.Err? ==> Snapshot() == old(Snapshot())
    {
      if doomed.Some? && RaisedOnClient(doomed.value) {
        return Err(doomed.value);
      }
      if fault {
        return Err(StoreFailure);
      }
      if doomed.Some? {
        return Err(doomed.value);
      }
      var f := Flush(db.current, staged);
      if f.Err? {
        return Err(f.error);
      }
      SaveKeepsConsistency(Snapshot(), fault);
      var after := f.value;
      r := Ok(AffectedRows(db.current, after));
      staged := after;
      db := db.(current := after, committed := if db.inTransaction then db.committed else after);
    }

    /** Database.BeginTransactionAsync. A second transaction on the same
        connection is refused. */
    method BeginTransaction() returns (r: Result<()>)
      requires Valid()
      modifies this
      ensures Valid()
      ensures old(db.inTransaction) ==>
        r == Err(InvalidOperationException(TransactionAlreadyOpen)) && Snapshot() == old(Snapshot())
      ensures !old(db.inTransaction) ==>
        r == Ok(()) && Snapshot() == old(Snapshot()).(db := old(db).(inTransaction := true))
    {
      if db.inTransaction {
        return Err(InvalidOperationException(TransactionAlreadyOpen));
      }
      db := db.(inTransaction := true);
      r := Ok(());
    }

    /** IDbContextTransaction.CommitAsync: makes the session's rows durable and
        ends the transaction. When the server fails, the transaction stays open
        and uncommitted. */
    method CommitTransaction(fault: bool) returns (r: Result<()>)
      requires Valid() && db.inTransaction
      modifies this
      ensures Valid()
      ensures fault ==> r == Err(StoreFailure) && Snapshot() == old(Snapshot())
      ensures !fault ==>
        r == Ok(()) && Snapshot() == old(Snapshot()).(db := Database(old(db.current), old(db.current), false))
    {
      if fault {
        return Err(StoreFailure);
      }
      db := Database(db.current, db.current, false);
      r := Ok(());
    }

    /** IDbContextTransaction.RollbackAsync: the session's rows go back to the
        durable ones. The tracker is not touched. */
    method RollbackTransaction(fault: bool) returns (r: Result<()>)
      requires Valid() && db.inTransaction
      modifies this
      ensures Valid()
      ensures fault ==> r == Err(StoreFailure) && Snapshot() == old(Snapshot())
      ensures !fault ==>
        r == Ok(()) && Snapshot() == old(Snapshot()).(db := Database(old(db.committed), old(db.committed), false))
    {
      if fault {
        return Err(StoreFailure);
      }
      db := Database(db.committed, db.committed, false);
      r := Ok(());
    }

    /** IDbContextTransaction.DisposeAsync: a transaction still open is
        rolled back; otherwise nothing happens. */
    method DisposeTransaction()
      requires Valid()
      modifies this
      ensures Valid()
      ensures Snapshot() == old(Snapshot()).(db := Database(old(db.committed), old(db.committed), false))
    {
      db := Database(db.committed, db.committed, false);
    }

    // The writes GenericRepository<T> delegates to DbSet<T>: each only stages.

    /** DbSet<TaskItem>.Add. A key of 0 is unset and the identity column hands
        out the next one; an explicit key is refused by the identity column
        at save time. */
    method AddTask(task: TaskItem) returns (id: Id)
      requires Valid()
      modifies this
      ensures Valid()
      ensures task.id == 0 ==>
        && id == old(seeds.task) && id > 0
        && id !in old(staged.tasks) && id !in old(db.current.tasks) && id !in old(db.committed.tasks)
        && Snapshot() == old(Snapshot()).(
             staged := old(staged).(tasks := old(staged.tasks)[id := task.(id := id)]),
             seeds := old(seeds).(task := id + 1))
      ensures task.id != 0 ==>
        id == task.id && Snapshot() == old(Snapshot()).(doomed := Doom(old(doomed), DbUpdateException))
    {
      if task.id != 0 {
        id := task.id;
        doomed := Doom(doomed, DbUpdateException);
        return;
      }
      id := seeds.task;
      staged := staged.(tasks := staged.tasks[id := task.(id := id)]);
      seeds := seeds.(task := id + 1);
    }

    /** DbSet<TaskItem>.Update of a row the session loaded. */
    method UpdateTask(task: TaskItem)
      requires Valid() && task.id in db.current.tasks
      modifies this
      ensures Valid()
      ensures Snapshot() == old(Snapshot()).(staged := old(staged).(tasks := old(staged.tasks)[task.id := task]))
    {
      staged := staged.(tasks := staged.tasks[task.id := task]);
    }

    /** DbSet<TaskItem>.Remove. */
    method RemoveTask(id: Id)
      requires Valid()
      modifies this
      ensures Valid()
      ensures Snapshot() == old(Snapshot()).(staged := old(staged).(tasks := old(staged.tasks) - {id}))
    {
      staged := staged.(tasks := staged.tasks - {id});
    }

    /** DbSet<EmployeeTask>.Add. A key whose row was added in this session
        and not yet saved is an identity conflict: Add throws at once and
        tracks nothing. A key whose row is already in the database is not
        detected here; the insert then breaks the primary key, and the save
        fails. */
    method AddAssignment(taskId: Id, employeeId: Id, date: Timestamp) returns (r: Result<()>)
      requires Valid()
      modifies this
      ensures Valid()
      ensures (taskId, employeeId) in old(staged.assignments) && (taskId, employeeId) !in old(db.current.assignments) ==>
        r == Err(InvalidOperationException(KeyAlreadyTracked)) && Snapshot() == old(Snapshot())
      ensures (taskId, employeeId) in old(staged.assignments) && (taskId, employeeId) in old(db.current.assignments) ==>
        r == Ok(()) && Snapshot() == old(Snapshot()).(doomed := Doom(old(doomed), DbUpdateException))
      ensures (taskId, employeeId) !in old(staged.assignments) ==>
        r == Ok(()) && Snapshot() == old(Snapshot()).(
          staged := old(staged).(assignments := old(staged.assignments)[(taskId, employeeId) := date]))
    {
      if (taskId, employeeId) in staged.assignments {
        if (taskId, employeeId) !in db.current.assignments {
          return Err(InvalidOperationException(KeyAlreadyTracked));
        }
        doomed := Doom(doomed, DbUpdateException);
      } else {
        staged := staged.(assignments := staged.assignments[(taskId, employeeId) := date]);
      }
      r := Ok(());
    }

    /** DbSet<EmployeeTask>.Remove. */
    method RemoveAssignment(key: (Id, Id))
      requires Valid()
      modifies this
      ensures Valid()
      ensures Snapshot() == old(Snapshot()).(
        staged := old(staged).(assignments := old(staged.assignments) - {key}))
    {
      staged := staged.(assignments := staged.assignments - {key});
    }

    /** Writing a new EmployeeId into a tracked EmployeeTask. EmployeeId is
        part of the row's key, and EF refuses a changed key property of a
        tracked entity, so every later save fails; writing the same value
        changes nothing. */
    method ChangeAssignmentEmployee(key: (Id, Id), employeeId: Id)
      requires Valid()
      modifies this
      ensures Valid()
      ensures employeeId == key.1 ==> Snapshot() == old(Snapshot())
      ensures employeeId != key.1 ==>
        Snapshot() == old(Snapshot()).(doomed := Some(InvalidOperationException(KeyPropertyModified)))
    {
      if employeeId != key.1 {
        doomed := Some(InvalidOperationException(KeyPropertyModified));
      }
    }

    /** DbSet<Employee>.Update of a row the session loaded. */
    method UpdateEmployee(e: Employee)
      requires Valid() && e.id in db.current.employees
      modifies this
      ensures Valid()
      ensures Snapshot() == old(Snapshot()).(staged := old(staged).(employees := old(staged.employees)[e.id := e]))
    {
      staged := staged.(employees := staged.employees[e.id := e]);
    }

    /** DbSet<Employee>.Remove. */
    method RemoveEmployee(id: Id)
      requires Valid()
      modifies this
      ensures Valid()
      ensures Snapshot() == old(Snapshot()).(staged := old(staged).(employees := old(staged.employees) - {id}))
    {
      staged := staged.(employees := staged.employees - {id});
    }

    /** DbSet<Department>.Add, with the same identity rule as AddTask. */
    method AddDepartment(d: Department) returns (id: Id)
      requires Valid()
      modifies this
      ensures Valid()
      ensures d.id == 0 ==>
        && id == old(seeds.department) && id > 0
        && id !in old(staged.departments) && id !in old(db.current.departments)
        && Snapshot() == old(Snapshot()).(
             staged := old(staged).(departments := old(staged.departments)[id := d.(id := id)]),
             seeds := old(seeds).(department := id + 1))
      ensures d.id != 0 ==>
        id == d.id && Snapshot() == old(Snapshot()).(doomed := Doom(old(doomed), DbUpdateException))
    {
      if d.id != 0 {
        id := d.id;
        doomed := Doom(doomed, DbUpdateException);
        return;
      }
      id := seeds.department;
      staged := staged.(departments := staged.departments[id := d.(id := id)]);
      seeds := seeds.(department := id + 1);
    }

    /** DbSet<Department>.Update of a row built from a form rather than
        loaded. A key of 0 is unset, so EF inserts the row; a key the database
        does not hold makes the save fail with DbUpdateConcurrencyException. */
    method UpdateDepartment(d: Department) returns (id: Id)
      requires Valid()
      modifies this
      ensures Valid()
      ensures d.id == 0 ==>
        && id == old(seeds.department) && id > 0
        && id !in old(staged.departments) && id !in old(db.current.departments)
        && Snapshot() == old(Snapshot()).(
             staged := old(staged).(departments := old(staged.departments)[id := d.(id := id)]),
             seeds := old(seeds).(department := id + 1))
      ensures d.id != 0 && d.id in old(db.current.departments) ==>
        id == d.id && Snapshot() == old(Snapshot()).(
          staged := old(staged).(departments := old(staged.departments)[d.id := d]))
      ensures d.id != 0 && d.id !in old(db.current.departments) ==>
        id == d.id && Snapshot() == old(Snapshot()).(doomed := Doom(old(doomed), DbUpdateConcurrencyException))
    {
      if d.id == 0 {
        id := AddDepartment(d);
      } else if d.id in db.current.departments {
        id := d.id;
        staged := staged.(departments := staged.departments[d.id := d]);
      } else {
        id := d.id;
        doomed := Doom(doomed, DbUpdateConcurrencyException);
      }
    }

    /** DbSet<Department>.Remove. */
    method RemoveDepartment(id: Id)
      requires Valid()
      modifies this
      ensures Valid()
      ensures Snapshot() == old(Snapshot()).(
        staged := old(staged).(departments := old(staged.departments) - {id}))
    {
      staged := staged.(departments := staged.departments - {id});
    }
  }
}
