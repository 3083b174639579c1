/** EmployeeService: the employee list and search views, image upload
    validation, and the update, delete and manager-assignment operations. */
module EmployeeService {
  import opened Models
  import opened Text
  import opened DbContext
  import opened Repository
  import opened EmployeeRepository
  import opened UnitOfWork

  /** EmployeeViewModel: the row's columns plus the department's name and the
      manager's full name that Include loads. */
  datatype EmployeeView = EmployeeView(
    id: Id,
    firstName: string,
    lastName: string,
    salary: Cents,
    isActive: bool,
    imagePath: Option<string>,
    departmentId: Id,
    managerId: Option<Id>,
    departmentName: Option<string>,
    managerName: Option<string>)

  /** The department's name, or null when the row is not there to load. */
  function DepartmentName(t: Tables, e: Employee): Option<string> {
    match GetById(t.departments, e.departmentId)
    case None => None
    case Some(d) => Some(d.name)
  }

  /** The manager's FullName, or null when there is no manager to load. */
  function ManagerName(t: Tables, e: Employee): Option<string> {
    if e.managerId.None? then None
    else match GetById(t.employees, e.managerId.value)
      case None => None
      case Some(m) => Some(FullName(m))
  }

  /** The projection GetAllAsync and SearchEmployeesAsync write out by hand. */
  function ToView(t: Tables, e: Employee): EmployeeView {
    EmployeeView(e.id, e.firstName, e.lastName, e.salary, e.isActive, e.imagePath,
                 e.departmentId, e.managerId, DepartmentName(t, e), ManagerName(t, e))
  }

  /** GetAllEmployeesAsync: one view per employee. In a database that meets
      its constraints every view names its department, and names a manager
      exactly when the employee has one. */
  function AllEmployees(t: Tables): (r: map<Id, EmployeeView>)
    ensures r.Keys == t.employees.Keys
    ensures forall k :: k in r ==> r[k].id == t.employees[k].id && r[k].salary == t.employees[k].salary
    ensures Integrity(t) ==> forall k :: k in r ==>
      && r[k].departmentName.Some?
      && (r[k].managerName.Some? <==> t.employees[k].managerId.Some?)
  {
    map k | k in t.employees :: ToView(t, t.employees[k])
  }

  /** GetEmployeesByManagerAsync: the views of the employees whose ManagerId
      is `managerId`. */
  function EmployeesByManager(t: Tables, managerId: Id): map<Id, EmployeeView> {
    var rows := GetAll(t.employees, (k: Id, e: Employee) => e.managerId == Some(managerId));
    map k | k in rows :: ToView(t, rows[k])
  }

  /** The service's list is the repository's one-level subordinate query,
      seen through the view. */
  lemma ByManagerIsSubordinates(t: Tables, managerId: Id)
    ensures EmployeesByManager(t, managerId).Keys == Subordinates(t, managerId).Keys
    ensures forall k :: k in EmployeesByManager(t, managerId) ==>
      EmployeesByManager(t, managerId)[k] == AllEmployees(t)[k]
  {
  }

  /** The search filter: the term occurs in the first name, the last name or
      the department's name. */
  predicate Matches(t: Tables, e: Employee, term: string) {
    || Contains(e.firstName, term)
    || Contains(e.lastName, term)
    || (e.departmentId in t.departments && Contains(t.departments[e.departmentId].name, term))
  }

  /** SearchEmployeesAsync: every employee for a null or blank term;
      otherwise the employees the term matches, with the same views. */
  function SearchEmployees(t: Tables, term: Option<string>): (r: map<Id, EmployeeView>)
    ensures IsNullOrWhiteSpace(term) ==> r == AllEmployees(t)
    ensures !IsNullOrWhiteSpace(term) ==>
      forall k :: k in r <==> k in t.employees && Matches(t, t.employees[k], term.value)
    ensures forall k :: k in r ==> k in AllEmployees(t) && r[k] == AllEmployees(t)[k]
  {
    if IsNullOrWhiteSpace(term) then AllEmployees(t)
    else
      var rows := GetAll(t.employees, (k: Id, e: Employee) => Matches(t, e, term.value));
      map k | k in rows :: ToView(t, rows[k])
  }

  /** A longer term finds no more: whatever a term containing `shorter`
      matches, `shorter` matches too. */
  lemma SearchNarrows(t: Tables, shorter: string, longer: string)
    requires !IsNullOrWhiteSpace(Some(shorter)) && !IsNullOrWhiteSpace(Some(longer))
    requires Contains(longer, shorter)
    ensures SearchEmployees(t, Some(longer)).Keys <= SearchEmployees(t, Some(shorter)).Keys
  {
    forall k | k in SearchEmployees(t, Some(longer))
      ensures k in SearchEmployees(t, Some(shorter))
    {
      var e := t.employees[k];
      if Contains(e.firstName, longer) {
        ContainsTransitive(e.firstName, longer, shorter);
      } else if Contains(e.lastName, longer) {
        ContainsTransitive(e.lastName, longer, shorter);
      } else {
        ContainsTransitive(t.departments[e.departmentId].name, longer, shorter);
      }
    }
  }

  /** An uploaded file: its client-side name and its length in bytes. */
  datatype Upload = Upload(fileName: string, length: nat)

  /** The 5 MiB ceiling on an image. */
  const MaxImageBytes: nat := 5 * 1024 * 1024

  /** The extensions an image may have, compared in lower case. */
  const AllowedExtensions: seq<string> := [".jpg", ".jpeg", ".png", ".gif"]

  lemma AllowedAreExtensions()
    ensures forall x :: x in AllowedExtensions ==> IsExtension(x)
  {
  }

  /** The validating half of SaveEmployeeImageAsync: null for no file or an
      empty one; InvalidOperationException for a file above the ceiling, and
      then for an extension outside the list; otherwise the stored path,
      "/uploads/" then the generated name then the lower-cased extension. The
      generated name (a fresh GUID) is a parameter. */
  function ImagePathFor(image: Option<Upload>, generatedName: string): (r: Result<Option<string>>)
    ensures r == Ok(None) <==> image.None? || image.value.length == 0
    ensures r == Err(InvalidOperationException(FileTooLarge)) <==> image.Some? && image.value.length > MaxImageBytes
    ensures r == Err(InvalidOperationException(ExtensionNotAllowed)) <==>
      && image.Some? && 0 < image.value.length <= MaxImageBytes
      && ToLowerInvariant(GetExtension(image.value.fileName)) !in AllowedExtensions
    ensures r.Ok? && r.value.Some? ==>
      var path := r.value.value;
      && |path| >= 9 && path[..9] == "/uploads/"
      && GetExtension(path) == ToLowerInvariant(GetExtension(image.value.fileName))
      && GetExtension(path) in AllowedExtensions
  {
    if image.None? || image.value.length == 0 then Ok(None)
    else if image.value.length > MaxImageBytes then Err(InvalidOperationException(FileTooLarge))
    else
      var extension := ToLowerInvariant(GetExtension(image.value.fileName));
      if extension !in AllowedExtensions then Err(InvalidOperationException(ExtensionNotAllowed))
      else
        AllowedAreExtensions();
        ExtensionOfSuffix("/uploads/" + generatedName, extension);
        assert "/uploads/" + generatedName + extension == ("/uploads/" + generatedName) + extension;
        Ok(Some("/uploads/" + generatedName + extension))
  }

  /** The extension check ignores case: a file ending in ".JPG" is accepted
      and stored under ".jpg". */
  lemma {:induction false} UpperCaseExtensionAccepted(generatedName: string)
    ensures ImagePathFor(Some(Upload("photo.JPG", 1024)), generatedName) == Ok(Some("/uploads/" + generatedName + ".jpg"))
  {
    ExtensionOfSuffix("photo", ".JPG");
    assert "photo.JPG" == "photo" + ".JPG";
    assert ToLowerInvariant(".JPG") == ".jpg";
  }

  /** A stored image path names a file: it is neither null nor empty. */
  predicate HasImage(path: Option<string>) {
    path.Some? && path.value != ""
  }

  /** A task names the employee as its assignee or its creator. */
  predicate NamedByTask(t: Tables, k: Id) {
    exists j :: j in t.tasks && (t.tasks[j].employeeId == k || t.tasks[j].createdByManagerId == Some(k))
  }

  /** The form's mapped columns written onto a loaded employee (Id, names,
      salary, flag, department and manager). */
  function MapOnto(form: EmployeeView, e: Employee): Employee {
    e.(id := form.id, firstName := form.firstName, lastName := form.lastName, salary := form.salary,
       isActive := form.isActive, departmentId := form.departmentId, managerId := form.managerId)
  }

  class EmployeeService {
    const unitOfWork: UnitOfWork

    ghost predicate Valid()
      reads this, unitOfWork, unitOfWork.context
    {
      unitOfWork.Valid()
    }

    /** The rows the session reads. */
    function Rows(): Tables
      reads unitOfWork.context
    {
      unitOfWork.context.db.current
    }

    ghost function State(): ContextState
      reads unitOfWork.context
    {
      unitOfWork.context.Snapshot()
    }

    constructor (unitOfWork: UnitOfWork)
      requires unitOfWork.Valid()
      ensures Valid() && this.unitOfWork == unitOfWork
    {
      this.unitOfWork := unitOfWork;
    }

    /** The row work of DeleteEmployeeAsync: false, with nothing changed,
        when there is no such employee or someone reports to them (the
        loaded ManagedEmployees is not empty). Otherwise the row is removed
        and saved; the save's exception propagates. The Restrict rule then
        refuses the save exactly when a task still names the employee;
        otherwise their assignments cascade and a department they managed
        loses its manager. */
    method DeleteEmployeeRow(id: Id, fault: bool) returns (r: Result<bool>)
      requires Valid()
      modifies unitOfWork.context
      ensures Valid()
      ensures id !in old(Rows().employees) ==> r == Ok(false) && State() == old(State())
      ensures id in old(Rows().employees) && Subordinates(old(Rows()), id) != map[] ==>
        r == Ok(false) && State() == old(State())
      ensures r.Err? ==> unitOfWork.context.db == old(unitOfWork.context.db)
      ensures r == Ok(true) ==> id in old(Rows().employees) && id !in Rows().employees
      ensures old(unitOfWork.context.Clean()) && id in old(Rows().employees) && Subordinates(old(Rows()), id) == map[] ==>
        var before := old(Rows());
        && (r == Ok(true) <==> !fault && !NamedByTask(before, id))
        && (r.Err? ==> r.error == if fault then StoreFailure else DbUpdateException)
        && (r.Ok? ==> r.value && Rows() == WithoutEmployee(before, id))
    {
      var context := unitOfWork.context;
      var employee := GetById(context.db.current.employees, id);
      if employee.None? {
        return Ok(false);
      }
      if Subordinates(context.db.current, id) != map[] {
        return Ok(false);
      }
      if context.Clean() {
        var before := context.db.current;
        RemovedEmployeeFlush(before, id);
        assert EmployeeReferenced(before, id) <==> NamedByTask(before, id) by {
          if j :| j in before.employees && j != id && before.employees[j].managerId == Some(id) {
            assert j in Subordinates(before, id);
          }
        }
      }
      context.RemoveEmployee(id);
      var saved := unitOfWork.SaveChanges(fault);
      if saved.Err? {
        return Err(saved.error);
      }
      r := Ok(true);
    }

    /** DeleteEmployeeAsync as written: the stored image file, when the row
        names one, is deleted before the row is removed and saved, so a save
        that fails (a task still names the employee, or the server fails)
        leaves the row naming a file that is gone. `removedImage` is the path
        deleted. */
    method DeleteEmployee(id: Id, fault: bool) returns (r: Result<bool>, removedImage: Option<string>)
      requires Valid()
      modifies unitOfWork.context
      ensures Valid()
      ensures id !in old(Rows().employees) ==> r == Ok(false) && State() == old(State())
      ensures id in old(Rows().employees) && Subordinates(old(Rows()), id) != map[] ==>
        r == Ok(false) && State() == old(State())
      ensures r.Err? ==> unitOfWork.context.db == old(unitOfWork.context.db)
      ensures r == Ok(true) ==> id in old(Rows().employees) && id !in Rows().employees
      ensures old(unitOfWork.context.Clean()) && id in old(Rows().employees) && Subordinates(old(Rows()), id) == map[] ==>
        var before := old(Rows());
        && (r == Ok(true) <==> !fault && !NamedByTask(before, id))
        && (r.Err? ==> r.error == if fault then StoreFailure else DbUpdateException)
        && (r.Ok? ==> r.value && Rows() == WithoutEmployee(before, id))
      ensures removedImage.Some? <==>
        id in old(Rows().employees) && Subordinates(old(Rows()), id) == map[] && HasImage(old(Rows().employees[id].imagePath))
      ensures removedImage.Some? ==> id in old(Rows().employees) && removedImage == old(Rows().employees[id].imagePath)
      ensures r.Err? && removedImage.Some? ==> id in Rows().employees && Rows().employees[id].imagePath == removedImage
    {
      var context := unitOfWork.context;
      var employee := GetById(context.db.current.employees, id);
      removedImage := None;
      if employee.Some? && Subordinates(context.db.current, id) == map[] && HasImage(employee.value.imagePath) {
        removedImage := employee.value.imagePath;
      }
      r := DeleteEmployeeRow(id, fault);
    }

    /** DeleteEmployeeAsync as evidently intended: the image file is deleted
        only once the row is gone, so a refused save keeps both the row and
        its file. */
    method DeleteEmployeeThenImage(id: Id, fault: bool) returns (r: Result<bool>, removedImage: Option<string>)
      requires Valid()
      modifies unitOfWork.context
      ensures Valid()
      ensures id !in old(Rows().employees) ==> r == Ok(false) && State() == old(State())
      ensures id in old(Rows().employees) && Subordinates(old(Rows()), id) != map[] ==>
        r == Ok(false) && State() == old(State())
      ensures r.Err? ==> unitOfWork.context.db == old(unitOfWork.context.db)
      ensures r == Ok(true) ==> id in old(Rows().employees) && id !in Rows().employees
      ensures old(unitOfWork.context.Clean()) && id in old(Rows().employees) && Subordinates(old(Rows()), id) == map[] ==>
        var before := old(Rows());
        && (r == Ok(true) <==> !fault && !NamedByTask(before, id))
        && (r.Err? ==> r.error == if fault then StoreFailure else DbUpdateException)
        && (r.Ok? ==> r.value && Rows() == WithoutEmployee(before, id))
      ensures removedImage.Some? <==>
        r == Ok(true) && id in old(Rows().employees) && HasImage(old(Rows().employees[id].imagePath))
      ensures removedImage.Some? ==>
        id in old(Rows().employees) && removedImage == old(Rows().employees[id].imagePath) && id !in Rows().employees
    {
      var context := unitOfWork.context;
      var employee := GetById(context.db.current.employees, id);
      r := DeleteEmployeeRow(id, fault);
      removedImage := None;
      if r == Ok(true) && employee.Some? && HasImage(employee.value.imagePath) {
        removedImage := employee.value.imagePath;
      }
    }

    /** AssignManagerAsync: a missing employee is a silent no-op. Otherwise
        ManagerId and UpdateDate are set and the row saved; the save's
        exception propagates. Neither the manager's existence nor
        `managerId != employeeId` is checked: the foreign key refuses a
        manager that does not exist, and an employee may manage themself. */
    method AssignManager(employeeId: Id, managerId: Id, now: Timestamp, fault: bool) returns (r: Result<()>)
      requires Valid()
      modifies unitOfWork.context
      ensures Valid()
      ensures employeeId !in old(Rows().employees) ==> r == Ok(()) && State() == old(State())
      ensures r.Err? ==> unitOfWork.context.db == old(unitOfWork.context.db)
      ensures old(unitOfWork.context.Clean()) && employeeId in old(Rows().employees) ==>
        var before := old(Rows());
        var updated := before.employees[employeeId].(managerId := Some(managerId), updateDate := Some(now));
        && (r.Ok? <==> !fault && managerId in before.employees)
        && (r.Err? ==> r.error == if fault then StoreFailure else DbUpdateException)
        && (r.Ok? ==> Rows() == before.(employees := before.employees[employeeId := updated]))
    {
      var context := unitOfWork.context;
      var employee := GetById(context.db.current.employees, employeeId);
      if employee.None? {
        return Ok(());
      }
      var updated := employee.value.(managerId := Some(managerId), updateDate := Some(now));
      if context.Clean() {
        var before := context.db.current;
        IntegrityWithEmployee(before, updated);
        FlushWithoutRemovals(before, before.(employees := before.employees[employeeId := updated]));
      }
      context.UpdateEmployee(updated);
      var saved := unitOfWork.SaveChanges(fault);
      if saved.Err? {
        return Err(saved.error);
      }
      r := Ok(());
    }

    /** An employee made their own manager can never be deleted: they are
        among their own subordinates. */
    method SelfManagedDelete(id: Id, now: Timestamp, fault: bool) returns (managerSet: Result<()>, deleted: Result<bool>)
      requires Valid() && unitOfWork.context.Clean() && id in Rows().employees
      modifies unitOfWork.context
      ensures Valid()
      ensures !fault ==> managerSet.Ok? && deleted == Ok(false)
    {
      managerSet := AssignManager(id, id, now, fault);
      if managerSet.Ok? {
        assert id in Subordinates(Rows(), id);
      }
      var removedImage;
      deleted, removedImage := DeleteEmployee(id, fault);
    }

    /** Update of a loaded employee row, then SaveChangesAsync: the row as
        the session now reads it, or the save's exception with the database
        untouched. In a clean session the save succeeds exactly when the
        row's foreign keys resolve and the server does not fail, and then
        that row alone changes. */
    method WriteEmployee(row: Employee, fault: bool) returns (r: Result<EmployeeView>)
      requires Valid() && row.id in Rows().employees
      modifies unitOfWork.context
      ensures Valid()
      ensures r.Err? ==> unitOfWork.context.db == old(unitOfWork.context.db)
      ensures r.Ok? ==> row.id in Rows().employees && Rows().employees[row.id] == row && r.value == ToView(Rows(), row)
      ensures old(unitOfWork.context.Clean()) ==>
        var before := old(Rows());
        && (r.Ok? <==> !fault && EmployeeResolves(before, row))
        && (r.Ok? ==> Rows() == before.(employees := before.employees[row.id := row]))
    {
      var context := unitOfWork.context;
      if context.Clean() {
        var before := context.db.current;
        IntegrityWithEmployee(before, row);
        FlushWithoutRemovals(before, before.(employees := before.employees[row.id := row]));
      }
      context.UpdateEmployee(row);
      var saved := unitOfWork.SaveChanges(fault);
      if saved.Err? {
        return Err(saved.error);
      }
      r := Ok(ToView(context.db.current, row));
    }

    /** UpdateEmployeeAsync: null, with nothing changed, when there is no such
        employee. When a new image is given, the old image file, if the row
        names one, is deleted first (`removedImage`); then the new image is
        validated, and its refusal propagates before any write. The form's
        columns are mapped onto the row and the row saved; the save's
        exception propagates. Which ImagePath the mapping leaves is not
        stated here. UpdateDate is not stamped. */
    method UpdateEmployee(form: EmployeeView, image: Option<Upload>, generatedName: string, fault: bool)
      returns (r: Result<Option<EmployeeView>>, removedImage: Option<string>)
      requires Valid()
      modifies unitOfWork.context
      ensures Valid()
      ensures form.id !in old(Rows().employees) ==> r == Ok(None) && removedImage.None? && State() == old(State())
      ensures removedImage.Some? ==>
        form.id in old(Rows().employees) && image.Some? && removedImage == old(Rows().employees[form.id].imagePath)
      ensures form.id in old(Rows().employees) && image.Some? && HasImage(old(Rows().employees[form.id].imagePath)) ==>
        removedImage == old(Rows().employees[form.id].imagePath)
      ensures form.id in old(Rows().employees) && image.Some? && ImagePathFor(image, generatedName).Err? ==>
        && r == Err(ImagePathFor(image, generatedName).error) && State() == old(State())
        && Rows().employees[form.id].imagePath == old(Rows().employees[form.id].imagePath)
      ensures r.Err? ==> unitOfWork.context.db == old(unitOfWork.context.db)
      ensures old(unitOfWork.context.Clean()) && form.id in old(Rows().employees)
              && (image.None? || ImagePathFor(image, generatedName).Ok?) ==>
        var before := old(Rows());
        var mapped := MapOnto(form, before.employees[form.id]);
        && (r.Ok? <==> !fault && EmployeeResolves(before, mapped))
        && (r.Ok? ==>
              && form.id in Rows().employees
              && Rows() == before.(employees := before.employees[form.id := Rows().employees[form.id]])
              && Rows().employees[form.id] == mapped.(imagePath := Rows().employees[form.id].imagePath)
              && r.value.Some? && r.value.value.id == form.id)
    {
      removedImage := None;
      var employee := GetById(unitOfWork.context.db.current.employees, form.id);
      if employee.None? {
        return Ok(None), None;
      }
      var row := employee.value;
      if image.Some? {
        if HasImage(row.imagePath) {
          removedImage := row.imagePath;
        }
        var stored := ImagePathFor(image, generatedName);
        if stored.Err? {
          return Err(stored.error), removedImage;
        }
        row := row.(imagePath := stored.value);
      }
      var written := WriteEmployee(MapOnto(form, row), fault);
      if written.Err? {
        return Err(written.error), removedImage;
      }
      r := Ok(Some(written.value));
    }

    /** UpdateEmployeeAsync as evidently intended: the new image is validated
        and the row saved with the new ImagePath before the old file is
        deleted, so a refused image or a failed save never leaves the row
        naming a deleted file. */
    method UpdateEmployeeThenDeleteImage(form: EmployeeView, image: Option<Upload>, generatedName: string, fault: bool)
      returns (r: Result<Option<EmployeeView>>, removedImage: Option<string>)
      requires Valid()
      modifies unitOfWork.context
      ensures Valid()
      ensures form.id !in old(Rows().employees) ==> r == Ok(None) && removedImage.None? && State() == old(State())
      ensures form.id in old(Rows().employees) && image.Some? && ImagePathFor(image, generatedName).Err? ==>
        r == Err(ImagePathFor(image, generatedName).error) && removedImage.None? && State() == old(State())
      ensures r.Err? ==> unitOfWork.context.db == old(unitOfWork.context.db) && removedImage.None?
      ensures removedImage.Some? ==>
        && r.Ok? && form.id in old(Rows().employees) && removedImage == old(Rows().employees[form.id].imagePath)
        && form.id in Rows().employees && Rows().employees[form.id].imagePath != removedImage
      ensures r.Ok? && image.Some? && form.id in old(Rows().employees) ==>
        && form.id in Rows().employees && Rows().employees[form.id].imagePath == ImagePathFor(image, generatedName).value
        && (HasImage(old(Rows().employees[form.id].imagePath))
              && old(Rows().employees[form.id].imagePath) != ImagePathFor(image, generatedName).value
            ==> removedImage == old(Rows().employees[form.id].imagePath))
      ensures old(unitOfWork.context.Clean()) && form.id in old(Rows().employees)
              && (image.None? || ImagePathFor(image, generatedName).Ok?) ==>
        var before := old(Rows());
        var mapped := MapOnto(form, before.employees[form.id]);
        && (r.Ok? <==> !fault && EmployeeResolves(before, mapped))
        && (r.Ok? ==>
              && form.id in Rows().employees
              && Rows() == before.(employees := before.employees[form.id := Rows().employees[form.id]])
              && Rows().employees[form.id] == mapped.(imagePath := Rows().employees[form.id].imagePath)
              && r.value.Some? && r.value.value.id == form.id)
    {
      removedImage := None;
      var employee := GetById(unitOfWork.context.db.current.employees, form.id);
      if employee.None? {
        return Ok(None), None;
      }
      var oldPath := employee.value.imagePath;
      var row := employee.value;
      if image.Some? {
        var stored := ImagePathFor(image, generatedName);
        if stored.Err? {
          return Err(stored.error), None;
        }
        row := row.(imagePath := stored.value);
      }
      var written := WriteEmployee(MapOnto(form, row), fault);
      if written.Err? {
        return Err(written.error), None;
      }
      r := Ok(Some(written.value));
      if image.Some? && HasImage(oldPath) && oldPath != row.imagePath {
        removedImage := oldPath;
      }
    }
  }
}
