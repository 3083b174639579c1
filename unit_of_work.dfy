/** UnitOfWork: the four repositories over one shared context, plus the
    transaction handle the services drive through it. */
module UnitOfWork {
  import opened Models
  import opened DbContext
  import opened DepartmentRepository

  class UnitOfWork {
    /** The one context every repository is built over: writes through any
        repository land in the same tracker and the same transaction. */
    const context: ApplicationDbContext
    /** The one repository here with a write of its own; the Employees, Tasks
        and EmployeeTasks repositories only read, and are the query functions
        of their modules applied to `context`. */
    const departments: DepartmentRepository
    /** Whether the `_transaction` handle is set. */
    var transactionOpen: bool

    /** The handle is set exactly while the context has a transaction open. */
    ghost predicate Valid()
      reads this, context
    {
      context.Valid() && transactionOpen == context.db.inTransaction && departments.context == context
    }

    /** Builds the Departments, Employees, Tasks and EmployeeTasks
        repositories over `context`; no transaction is held yet. */
    constructor (context: ApplicationDbContext)
      requires context.Valid() && !context.db.inTransaction
      ensures Valid() && this.context == context && !transactionOpen
      ensures departments.context == context
    {
      this.context := context;
      departments := new DepartmentRepository(context);
      transactionOpen := false;
    }

    /** SaveChangesAsync: the context's save, and its affected-row count. */
    method SaveChanges(fault: bool) returns (r: Result<nat>)
      requires Valid()
      modifies context
      ensures Valid()
      ensures r == SaveResult(old(context.Snapshot()), fault)
      ensures r.Ok? ==> context.Snapshot() == SavedState(old(context.Snapshot()))
      ensures r.Err? ==> context.Snapshot() == old(context.Snapshot())
    {
      r := context.SaveChanges(fault);
    }

    /** BeginTransaction: opens a transaction and keeps its handle. When one
        is already open the context refuses and the old handle stays. */
    method BeginTransaction() returns (r: Result<()>)
      requires Valid()
      modifies this, context
      ensures Valid() && transactionOpen
      ensures old(transactionOpen) ==>
        r == Err(InvalidOperationException(TransactionAlreadyOpen)) && context.Snapshot() == old(context.Snapshot())
      ensures !old(transactionOpen) ==>
        r == Ok(()) && context.Snapshot() == old(context.Snapshot()).(db := old(context.db).(inTransaction := true))
    {
      r := context.BeginTransaction();
      transactionOpen := true;
    }

    /** CommitTransactionAsync: saves pending changes, then commits; the
        handle is disposed and cleared in every case, and disposing a
        transaction that did not commit rolls it back. With no handle, the
        save still runs and the null handle then throws. */
    method CommitTransaction(saveFault: bool, commitFault: bool) returns (r: Result<()>)
      requires Valid()
      modifies this, context
      ensures Valid() && !transactionOpen
      ensures
        var s := old(context.Snapshot());
        var save := SaveResult(s, saveFault);
        var rolledBack := Database(s.db.committed, s.db.committed, false);
        if !old(transactionOpen) then
          r == Err(NullReferenceException) && context.Snapshot() == (if save.Ok? then SavedState(s) else s)
        else if save.Err? then
          r == Err(save.error) && context.Snapshot() == s.(db := rolledBack)
        else if commitFault then
          r == Err(StoreFailure) && context.Snapshot() == SavedState(s).(db := rolledBack)
        else
          var rows := SavedState(s).db.current;
          r == Ok(()) && context.Snapshot() == SavedState(s).(db := Database(rows, rows, false))
    {
      var save := context.SaveChanges(saveFault);
      if !transactionOpen {
        return Err(NullReferenceException);
      }
      if save.Err? {
        context.DisposeTransaction();
        transactionOpen := false;
        return Err(save.error);
      }
      r := context.CommitTransaction(commitFault);
      context.DisposeTransaction();
      transactionOpen := false;
    }

    /** RollbackTransaction: the session's rows return to the durable ones and
        the handle is disposed and cleared, even when the server fails. With
        no handle, the null handle throws and nothing changes. */
    method RollbackTransaction(fault: bool) returns (r: Result<()>)
      requires Valid()
      modifies this, context
      ensures Valid() && !transactionOpen
      ensures !old(transactionOpen) ==>
        r == Err(NullReferenceException) && context.Snapshot() == old(context.Snapshot())
      ensures old(transactionOpen) ==>
        && r == (if fault then Err(StoreFailure) else Ok(()))
        && context.Snapshot() == old(context.Snapshot()).(
             db := Database(old(context.db.committed), old(context.db.committed), false))
    {
      if !transactionOpen {
        return Err(NullReferenceException);
      }
      r := context.RollbackTransaction(fault);
      context.DisposeTransaction();
      transactionOpen := false;
    }
  }
}
