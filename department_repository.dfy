/** DepartmentRepository: department queries, and a delete that saves at once. */
module DepartmentRepository {
  import opened Models
  import opened Text
  import opened DbContext
  import opened Repository

  /** GetDepartmentsWithDetailsAsync: every department when the search is
      null or blank, otherwise those whose name contains it. */
  function DepartmentsWithDetails(t: Tables, search: Option<string>): (r: map<Id, Department>)
    ensures IsNullOrWhiteSpace(search) ==> r == t.departments
    ensures !IsNullOrWhiteSpace(search) ==>
      forall k :: k in r <==> k in t.departments && Contains(t.departments[k].name, search.value)
    ensures forall k :: k in r ==> k in t.departments && r[k] == t.departments[k]
  {
    if IsNullOrWhiteSpace(search) then t.departments
    else GetAll(t.departments, (k: Id, d: Department) => Contains(d.name, search.value))
  }

  /** Refining a search never finds more: a term that contains another
      matches only departments the shorter term matches. */
  lemma DetailsSearchNarrows(t: Tables, shorter: string, longer: string)
    requires !IsNullOrWhiteSpace(Some(shorter)) && !IsNullOrWhiteSpace(Some(longer))
    requires Contains(longer, shorter)
    ensures DepartmentsWithDetails(t, Some(longer)).Keys <= DepartmentsWithDetails(t, Some(shorter)).Keys
  {
    forall k | k in DepartmentsWithDetails(t, Some(longer))
      ensures k in DepartmentsWithDetails(t, Some(shorter))
    {
      ContainsTransitive(t.departments[k].name, longer, shorter);
    }
  }

  /** GetDepartmentWithManagerAsync: the department with that key and the
      manager row Include loads for it; null when there is no department. */
  function DepartmentWithManager(t: Tables, id: Id): (r: Option<(Department, Option<Employee>)>)
    ensures r.Some? <==> id in t.departments
    ensures r.Some? ==> r.value.0 == t.departments[id]
    ensures r.Some? ==> (r.value.1.Some? <==> r.value.0.managerId.Some? && r.value.0.managerId.value in t.employees)
    ensures r.Some? && r.value.1.Some? ==> r.value.1.value == t.employees[r.value.0.managerId.value]
  {
    match GetById(t.departments, id)
    case None => None
    case Some(d) => Some((d, if d.managerId.Some? then GetById(t.employees, d.managerId.value) else None))
  }

  /** In a database that meets its constraints a department's manager is
      loaded exactly when its ManagerId is set. */
  lemma ManagerLoadedWhenSet(t: Tables, id: Id)
    requires Integrity(t) && id in t.departments
    ensures DepartmentWithManager(t, id).Some?
    ensures DepartmentWithManager(t, id).value.1.Some? <==> t.departments[id].managerId.Some?
  {
  }

  /** GetDepartmentsByBudgetRangeAsync: not implemented; it always throws. */
  function DepartmentsByBudgetRange(minBudget: Cents, maxBudget: Cents): (r: Result<map<Id, Department>>)
    ensures r == Err(NotImplementedException)
  {
    Err(NotImplementedException)
  }

  class DepartmentRepository {
    /** The context shared with the other repositories. */
    const context: ApplicationDbContext

    constructor (context: ApplicationDbContext)
      ensures this.context == context
    {
      this.context := context;
    }

    /** DeleteDepartmentAsync: false when no such department; otherwise
        removes it and saves. The save's exception propagates, and the
        tracker then keeps the pending removal. */
    method DeleteDepartment(id: Id, fault: bool) returns (r: Result<bool>)
      requires context.Valid()
      modifies context
      ensures context.Valid()
      ensures id !in old(context.db.current.departments) ==>
        r == Ok(false) && context.Snapshot() == old(context.Snapshot())
      ensures id in old(context.db.current.departments) ==>
        var s := old(context.Snapshot()).(staged := old(context.staged).(departments := old(context.staged.departments) - {id}));
        var save := SaveResult(s, fault);
        && (save.Ok? ==> r == Ok(true) && context.Snapshot() == SavedState(s))
        && (save.Err? ==> r == Err(save.error) && context.Snapshot() == s)
      ensures old(context.Clean()) && id in old(context.db.current.departments) ==>
        var before := old(context.db.current);
        && (r == Ok(true) <==> !fault && !DepartmentInUse(before, id))
        && (r == Ok(true) ==> context.db.current == before.(departments := before.departments - {id}))
        && (r.Err? ==> context.db == old(context.db))
    {
      var department := GetById(context.db.current.departments, id);
      if department.None? {
        return Ok(false);
      }
      if context.Clean() {
        RemovedDepartmentFlush(context.db.current, id);
      }
      context.RemoveDepartment(id);
      var save := context.SaveChanges(fault);
      if save.Err? {
        return Err(save.error);
      }
      r := Ok(true);
    }
  }
}
