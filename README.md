# EmployeeManagement: persistence layer and domain services

This project models the core of the EmployeeManagement application in Dafny:
the Entity Framework context with its keys and delete rules, the unit of work
with its transaction handle, the repositories' queries, and the task,
employee and department services that sit on them.

The store is four tables (`DbContext.Tables`): departments, employees and
tasks as maps from id to record, and the `EmployeeTask` assignments as a map
from the composite key `(TaskId, EmployeeId)` to the assigned date.

`DbContext.ApplicationDbContext` is the stateful context one request works
through. It holds:

- the change tracker's view of the rows (`staged`), which `Add`, `Update` and
  `Remove` edit;
- a pending change the database will always refuse (`doomed`), such as an
  explicit key value or a modified key property;
- the rows the session reads (`db.current`) and the durable rows
  (`db.committed`), which differ only while a transaction is open;
- the identity seeds that hand out new keys.

`SaveChanges` writes the tracked rows over the session's rows, applies the
Cascade and SetNull delete rules (`DbContext.Apply`), and checks every
constraint the schema declares (`DbContext.Integrity`). A refused save
changes no row and keeps its pending changes in the tracker, as EF Core does.

The services take every server failure as a `fault` parameter, and the clock
and generated file names as plain values. Their contracts state the exact
outcome for a session that starts with no pending change
(`ApplicationDbContext.Clean()`), which is how every service call of the
application begins. Read-only queries are functions over the session's rows.

## Model

| member | source | states |
|---|---|---|
| Models.FullName | EmployeeManagement.Domain/Models/Employee.cs:33-34 | The full name is the first name, one space, then the last name, so its length is their lengths plus one |
| Models.SplitAtFirstSpace | EmployeeManagement.Domain/Models/Employee.cs:33-34 | Splitting at the first space gives the whole text when there is no space, and otherwise two parts that with the space make up the text |
| Models.FullNameSplits | EmployeeManagement.Domain/Models/Employee.cs:33-34 | When the first name holds no space, the full name splits back into exactly the first and last names |
| Models.SplitAfterPrefix | EmployeeManagement.Domain/Models/Employee.cs:33-34 | A space-free first part, a space and any rest split back into those two parts |
| Text.ToLowerInvariant | EmployeeManagement.Application/Services/Implementation/EmployeeService.cs:222 | Lower-casing keeps the length and lowers exactly the upper-case letters |
| Text.GetExtension | EmployeeManagement.Application/Services/Implementation/EmployeeService.cs:222 | The extension is empty or a suffix of the file name that starts with a dot |
| Text.ExtensionOfSuffix | EmployeeManagement.Application/Services/Implementation/EmployeeService.cs:222 | A file name ending in a dot and separator-free characters has exactly that suffix as its extension |
| Text.ContainsTransitive | EmployeeManagement.Application/Services/Implementation/EmployeeService.cs:183-185 | Substring containment is transitive |
| DbContext.Flush | EmployeeManagement.Infrastructure/Data/EmployeeManagementDbContext.cs:20-83 | A save the database accepts leaves rows that meet every declared constraint; a refused one raises DbUpdateException |
| DbContext.NoAffectedRowsIffUnchanged | EmployeeManagement.Infrastructure/Repositories/UnitOfWork.cs:44-47 | The model's affected-row count, the number of rows whose value differs, is zero exactly when the save changes no row |
| DbContext.SaveKeepsConsistency | EmployeeManagement.Infrastructure/Repositories/UnitOfWork.cs:44-47 | A successful save leaves the session consistent and with no pending change |
| DbContext.FlushWithoutRemovals | EmployeeManagement.Infrastructure/Data/EmployeeManagementDbContext.cs:20-83 | A save that removes no employee and no task stores exactly the tracked rows when they meet every constraint, and is refused otherwise |
| DbContext.CleanSaveIsIdle | EmployeeManagement.Infrastructure/Repositories/UnitOfWork.cs:58 | Saving with nothing pending reports zero rows and changes nothing |
| DbContext.IntegrityWithoutAssignment | EmployeeManagement.Infrastructure/Data/EmployeeManagementDbContext.cs:54-65 | Removing an assignment row never breaks a constraint |
| DbContext.IntegrityWithTask | EmployeeManagement.Infrastructure/Data/EmployeeManagementDbContext.cs:70-79 | Adding or replacing a task keeps every constraint exactly when its assignee and its creator, if set, exist |
| DbContext.IntegrityWithAssignment | EmployeeManagement.Infrastructure/Data/EmployeeManagementDbContext.cs:54-65 | Adding an assignment keeps every constraint exactly when its task and employee exist |
| DbContext.IntegrityWithEmployee | EmployeeManagement.Infrastructure/Data/EmployeeManagementDbContext.cs:28-39 | Rewriting a stored employee row keeps every constraint exactly when its department and its manager, if set, exist |
| DbContext.IntegrityWithDepartment | EmployeeManagement.Infrastructure/Data/EmployeeManagementDbContext.cs:47-51 | Adding or replacing a department keeps every constraint exactly when its manager exists and manages no other department |
| DbContext.RemovedEmployeeFlush | EmployeeManagement.Infrastructure/Data/EmployeeManagementDbContext.cs:35-79 | Deleting an employee is refused while anyone reports to them or a task names them; otherwise their assignments cascade away and their department loses its ManagerId |
| DbContext.RemovedTaskFlush | EmployeeManagement.Infrastructure/Data/EmployeeManagementDbContext.cs:57-60 | Deleting a task always succeeds and removes its assignments with it, and nothing else |
| DbContext.RemovedDepartmentFlush | EmployeeManagement.Infrastructure/Data/EmployeeManagementDbContext.cs:28-32 | Deleting a department succeeds exactly when no employee belongs to it, and removes only that row |
| DbContext.OneDepartmentPerManager | EmployeeManagement.Infrastructure/Data/EmployeeManagementDbContext.cs:47-51 | Under the constraints an employee manages at most one department |
| DbContext.ApplicationDbContext.constructor | EmployeeManagement.Infrastructure/Repositories/UnitOfWork.cs:19-21 | A new context has nothing pending and no transaction, and reads the durable rows |
| DbContext.ClientRefusalSurvivesDoom | EmployeeManagement.Application/Services/Implementation/TaskService.cs:245-255 | Once a key change is refused on the client, no later doomed add or update and no server fault changes what the save reports |
| DbContext.ApplicationDbContext.SaveChanges | EmployeeManagement.Infrastructure/Repositories/UnitOfWork.cs:44-47 | Saving reports the number of rows whose value differs and makes the applied rows the session's rows, durable at once outside a transaction. A key change refused on the client fails the save whatever the server's state; otherwise a server fault comes before a refusal by the database. A failed save changes nothing |
| DbContext.ApplicationDbContext.BeginTransaction | EmployeeManagement.Infrastructure/Repositories/UnitOfWork.cs:49-52 | Beginning opens a transaction, and is refused while one is already open |
| DbContext.ApplicationDbContext.CommitTransaction | EmployeeManagement.Infrastructure/Repositories/UnitOfWork.cs:59 | Committing makes the session's rows durable and ends the transaction; a failed commit changes nothing |
| DbContext.ApplicationDbContext.RollbackTransaction | EmployeeManagement.Infrastructure/Repositories/UnitOfWork.cs:72 | Rolling back restores the durable rows and ends the transaction; the tracker is not reset |
| DbContext.ApplicationDbContext.DisposeTransaction | EmployeeManagement.Infrastructure/Repositories/UnitOfWork.cs:63 | Disposing the handle of a transaction not committed rolls it back |
| DbContext.ApplicationDbContext.AddTask | EmployeeManagement.Application/Services/Implementation/TaskService.cs:57 | Tracking a new task gives it the next identity key, or dooms the save when it carries an explicit key |
| DbContext.ApplicationDbContext.UpdateTask | EmployeeManagement.Application/Services/Implementation/TaskService.cs:102 | Updating replaces only that task's tracked row |
| DbContext.ApplicationDbContext.RemoveTask | EmployeeManagement.Application/Services/Implementation/TaskService.cs:129 | Removing drops only that task's tracked row |
| DbContext.ApplicationDbContext.AddAssignment | EmployeeManagement.Application/Services/Implementation/TaskService.cs:68 | Tracking a new assignment adds that pair with its date; a pair added earlier in the session and not yet saved makes the add throw InvalidOperationException and tracks nothing; a pair already in the database dooms the save |
| DbContext.ApplicationDbContext.RemoveAssignment | EmployeeManagement.Application/Services/Implementation/TaskService.cs:126 | Removing drops only that pair's tracked row |
| DbContext.ApplicationDbContext.ChangeAssignmentEmployee | EmployeeManagement.Application/Services/Implementation/TaskService.cs:245 | Writing the same employee id changes nothing; writing another one modifies a key property and dooms the save with InvalidOperationException |
| DbContext.ApplicationDbContext.UpdateEmployee | EmployeeManagement.Application/Services/Implementation/EmployeeService.cs:150 | Updating replaces only that employee's tracked row |
| DbContext.ApplicationDbContext.RemoveEmployee | EmployeeManagement.Application/Services/Implementation/EmployeeService.cs:138 | Removing drops only that employee's tracked row |
| DbContext.ApplicationDbContext.AddDepartment | EmployeeManagement.Application/Services/Implementation/DepartmentService.cs:29 | Tracking a new department gives it the next identity key, or dooms the save when it carries an explicit key |
| DbContext.ApplicationDbContext.UpdateDepartment | EmployeeManagement.Application/Services/Implementation/DepartmentService.cs:39 | Updating a department with a key replaces its tracked row; with key 0 it is inserted under the next identity key |
| DbContext.ApplicationDbContext.RemoveDepartment | EmployeeManagement.Application/Services/Implementation/DepartmentService.cs:91 | Removing drops only that department's tracked row |
| Repository.GetById | EmployeeManagement.Application/Services/Implementation/EmployeeService.cs:83 | The lookup finds a row exactly when the key exists, and then returns that row |
| Repository.GetAll | EmployeeManagement.Application/Services/Implementation/EmployeeService.cs:169-170 | A filtered read returns exactly the rows the filter accepts, unchanged |
| Repository.GetFirstOrDefault | EmployeeManagement.Application/Services/Implementation/TaskService.cs:235-240 | The first match satisfies the filter, and there is none exactly when no row does |
| Repository.GetAllMonotone | EmployeeManagement.Application/Services/Implementation/EmployeeService.cs:181-188 | A weaker filter returns at least the rows of a stronger one |
| EmployeeTaskRepository.AssignmentsByEmployee | EmployeeManagement.Infrastructure/Repositories/EmployeeTaskRepository.cs:18-24 | Exactly the assignments whose EmployeeId is the argument, with their dates |
| EmployeeTaskRepository.AssignmentsByTask | EmployeeManagement.Infrastructure/Repositories/EmployeeTaskRepository.cs:26-32 | Exactly the assignments whose TaskId is the argument, with their dates |
| EmployeeTaskRepository.FindAssignment | EmployeeManagement.Infrastructure/Repositories/EmployeeTaskRepository.cs:34-38 | The row matching both ids, and null exactly when there is none |
| EmployeeTaskRepository.LookupsAgree | EmployeeManagement.Infrastructure/Repositories/EmployeeTaskRepository.cs:18-38 | The pair lookup finds a row exactly when the by-task and the by-employee lookups list it |
| EmployeeTaskRepository.OneRowPerEmployee | EmployeeManagement.Infrastructure/Data/EmployeeManagementDbContext.cs:54-55 | Because of the composite key, a task has one assignment row per assigned employee |
| TaskRepository.TasksByStatus | EmployeeManagement.Infrastructure/Repositories/TaskRepository.cs:45-50 | Exactly the tasks in the given status, unchanged |
| TaskRepository.StatusesPartitionTasks | EmployeeManagement.Infrastructure/Repositories/TaskRepository.cs:45-50 | Each task appears under its own status and under no other |
| TaskRepository.TasksByEmployeeId | EmployeeManagement.Infrastructure/Repositories/TaskRepository.cs:26-33 | Every task, whatever the employee id |
| TaskRepository.TasksByManagerId | EmployeeManagement.Infrastructure/Repositories/TaskRepository.cs:35-43 | Every task, whatever the manager id, because the filter is commented out |
| TaskRepository.TasksByIds | EmployeeManagement.Application/Services/Implementation/TaskService.cs:145 | Exactly the tasks whose ids are listed, unchanged |
| TaskRepository.TasksAssignedTo | EmployeeManagement.Infrastructure/Repositories/TaskRepository.cs:26-33 | Exactly the tasks the employee holds an assignment for |
| TaskRepository.TasksByEmployeeIdReturnsOthersTasks | EmployeeManagement.Infrastructure/Repositories/TaskRepository.cs:26-33 | A store meeting every constraint where the query for one employee returns a task assigned only to another |
| EmployeeRepository.ActiveEmployees | EmployeeManagement.Infrastructure/Repositories/EmployeeRepository.cs:24-29 | Exactly the active employees, unchanged |
| EmployeeRepository.EmployeesByDepartment | EmployeeManagement.Infrastructure/Repositories/EmployeeRepository.cs:31-37 | Exactly the employees of the department, unchanged |
| EmployeeRepository.EmployeesWithManager | EmployeeManagement.Infrastructure/Repositories/EmployeeRepository.cs:39-45 | Exactly the employees who have a manager, unchanged |
| EmployeeRepository.Subordinates | EmployeeManagement.Infrastructure/Repositories/EmployeeRepository.cs:54-59 | Exactly the employees whose ManagerId is the argument, unchanged |
| EmployeeRepository.EmployeeWithDepartment | EmployeeManagement.Infrastructure/Repositories/EmployeeRepository.cs:47-52 | The employee with that id and their department, or null when there is no such employee |
| EmployeeRepository.DepartmentAlwaysLoaded | EmployeeManagement.Infrastructure/Repositories/EmployeeRepository.cs:47-52 | Under the constraints an existing employee always comes with their department |
| EmployeeRepository.WithManagerAreSubordinates | EmployeeManagement.Infrastructure/Repositories/EmployeeRepository.cs:39-59 | An employee has a manager exactly when they are somebody's subordinate |
| EmployeeRepository.SubordinatesOneLevel | EmployeeManagement.Infrastructure/Repositories/EmployeeRepository.cs:54-59 | A subordinate's subordinate is not among the manager's own subordinates |
| EmployeeRepository.DepartmentsSplitEmployees | EmployeeManagement.Infrastructure/Repositories/EmployeeRepository.cs:31-37 | Each employee is listed under their own department and under no other |
| DepartmentRepository.DepartmentsWithDetails | EmployeeManagement.Infrastructure/Repositories/DepartmentRepository.cs:52-64 | A blank search returns every department; any other returns exactly the departments whose name contains it |
| DepartmentRepository.DetailsSearchNarrows | EmployeeManagement.Infrastructure/Repositories/DepartmentRepository.cs:58-61 | A longer search term that contains a shorter one finds no more departments |
| DepartmentRepository.DepartmentWithManager | EmployeeManagement.Infrastructure/Repositories/DepartmentRepository.cs:44-50 | The department with that id and its manager when set, or null when there is no such department |
| DepartmentRepository.ManagerLoadedWhenSet | EmployeeManagement.Infrastructure/Repositories/DepartmentRepository.cs:44-50 | Under the constraints the manager is loaded exactly when the department has one |
| DepartmentRepository.DepartmentsByBudgetRange | EmployeeManagement.Infrastructure/Repositories/DepartmentRepository.cs:34-37 | The query always throws NotImplementedException |
| DepartmentRepository.DepartmentRepository.DeleteDepartment | EmployeeManagement.Infrastructure/Repositories/DepartmentRepository.cs:21-32 | A missing id gives false and no change; otherwise the department is deleted and true returned exactly when no employee belongs to it and the server does not fail |
| UnitOfWork.UnitOfWork.constructor | EmployeeManagement.Infrastructure/Repositories/UnitOfWork.cs:19-30 | Every repository is built over the one shared context, and no transaction is held |
| UnitOfWork.UnitOfWork.SaveChanges | EmployeeManagement.Infrastructure/Repositories/UnitOfWork.cs:44-47 | Returns the context's affected-row count and leaves the transaction handle as it was |
| UnitOfWork.UnitOfWork.BeginTransaction | EmployeeManagement.Infrastructure/Repositories/UnitOfWork.cs:49-52 | Afterwards a transaction is held and open; a second begin is refused and changes nothing |
| UnitOfWork.UnitOfWork.CommitTransaction | EmployeeManagement.Infrastructure/Repositories/UnitOfWork.cs:54-66 | Flushes the pending changes before committing; on success they are durable, on any failure nothing of the transaction persists; no handle is held afterwards; with no handle the save runs and NullReferenceException follows |
| UnitOfWork.UnitOfWork.RollbackTransaction | EmployeeManagement.Infrastructure/Repositories/UnitOfWork.cs:68-79 | Restores the durable rows; no handle is held afterwards, whether it returns or throws; with no handle NullReferenceException is thrown and nothing changes |
| TaskService.ViewOfMappedForm | EmployeeManagement.Application/Services/Implementation/TaskService.cs:52-55 | Mapping a form onto a task and back gives the form again |
| TaskService.TasksByEmployeeAreAssigned | EmployeeManagement.Application/Services/Implementation/TaskService.cs:140-147 | The service's two-step query returns exactly the tasks the employee holds an assignment for |
| TaskService.TaskService.constructor | EmployeeManagement.Application/Services/Implementation/TaskService.cs:20-24 | The service works through the unit of work it is given |
| TaskService.TaskService.InsertTask | EmployeeManagement.Application/Services/Implementation/TaskService.cs:57-58 | Inserting a task succeeds exactly when it has no explicit key, its foreign keys resolve and the server does not fail; a failed insert changes no row |
| TaskService.TaskService.InsertAssignment | EmployeeManagement.Application/Services/Implementation/TaskService.cs:60-69 | A pair added earlier and still unsaved makes the add throw with no change; in a clean session the insert succeeds exactly when the pair is new, both ends exist and the server does not fail, and only that pair is added |
| TaskService.TaskService.ReplaceAssignment | EmployeeManagement.Application/Services/Implementation/TaskService.cs:245-248 | Removing one pair and adding another in one save succeeds exactly when the new pair is free and resolves; nothing else changes |
| TaskService.TaskService.CreateInTransaction | EmployeeManagement.Application/Services/Implementation/TaskService.cs:52-71 | Either the task and its one assignment are both committed, or the first failing save is reported with the transaction still open, or a failing commit ends the transaction with nothing durable |
| TaskService.TaskService.CreateTaskAsWritten | EmployeeManagement.Application/Services/Implementation/TaskService.cs:42-83 | An unknown employee throws ArgumentException before any transaction; success adds exactly one task and one assignment and names the employee; any failure leaves no row; a failed commit surfaces as NullReferenceException |
| TaskService.TaskService.CreateTask | EmployeeManagement.Application/Services/Implementation/TaskService.cs:42-83 | As the source, except that a failed commit reports its own exception |
| TaskService.TaskService.UpdateTask | EmployeeManagement.Application/Services/Implementation/TaskService.cs:85-110 | A missing task gives false and no change; otherwise true exactly when the mapped row resolves and the server does not fail, and then only that task changes |
| TaskService.TaskService.UpdateTaskStatus | EmployeeManagement.Application/Services/Implementation/TaskService.cs:171-192 | A missing task or a failed save gives false; otherwise any status is set from any status, and only Status and UpdateDate change |
| TaskService.TaskService.DeleteTask | EmployeeManagement.Application/Services/Implementation/TaskService.cs:112-139 | A missing task gives false and no change; otherwise the task and every assignment to it go in one save, nothing else changes, and a failure rethrows with nothing removed |
| TaskService.TaskService.AssignTaskToEmployee | EmployeeManagement.Application/Services/Implementation/TaskService.cs:194-219 | A missing task throws KeyNotFoundException, an existing pair InvalidOperationException, both with no change; a pair left unsaved in the tracker by an earlier failed call throws InvalidOperationException at the add; otherwise exactly that pair is added, and the save fails when the employee does not exist |
| TaskService.TaskService.AssignTwice | EmployeeManagement.Application/Services/Implementation/TaskService.cs:194-219 | A second identical assignment always fails: with InvalidOperationException (already assigned) after a first one that succeeded, and with InvalidOperationException (key already tracked) after a first one whose save failed |
| TaskService.TaskService.AssignThenUnassign | EmployeeManagement.Application/Services/Implementation/TaskService.cs:194-231 | From a clean session, when the assignment succeeds the unassignment succeeds exactly when its save does, and then the rows are exactly as before |
| TaskService.TaskService.UnassignTaskFromEmployee | EmployeeManagement.Application/Services/Implementation/TaskService.cs:221-231 | A missing pair throws KeyNotFoundException with no change; otherwise exactly that pair is removed |
| TaskService.TaskService.UpdateTaskAssignment | EmployeeManagement.Application/Services/Implementation/TaskService.cs:233-259 | A task with no assignment gives null and no change; writing a different employee into the key always fails with InvalidOperationException, whatever the server's state, so no assignment ever moves; a success returns the re-read row mapped to a TaskMB, which carries only that row's EmployeeId |
| TaskService.TaskService.ReassignTask | EmployeeManagement.Application/Services/Implementation/TaskService.cs:233-259 | The first assignment of the task is replaced by one for the new employee with the same date, exactly when that employee exists and the pair is free |
| EmployeeService.AllEmployees | EmployeeManagement.Application/Services/Implementation/EmployeeService.cs:32-56 | One view per employee, with the employee's own data; under the constraints the department name is always present and the manager's name exactly when a manager is set |
| EmployeeService.ByManagerIsSubordinates | EmployeeManagement.Application/Services/Implementation/EmployeeService.cs:167-172 | The views by manager are exactly the views of the manager's direct subordinates |
| EmployeeService.SearchEmployees | EmployeeManagement.Application/Services/Implementation/EmployeeService.cs:174-206 | A blank term gives the same views as listing all employees; any other keeps exactly the employees whose first name, last name or department name contains it |
| EmployeeService.SearchNarrows | EmployeeManagement.Application/Services/Implementation/EmployeeService.cs:181-188 | A longer search term that contains a shorter one finds no more employees |
| EmployeeService.ImagePathFor | EmployeeManagement.Application/Services/Implementation/EmployeeService.cs:208-247 | A missing or empty file gives null, one over 5 MiB or with a lower-cased extension outside .jpg, .jpeg, .png, .gif throws, and otherwise the path is /uploads/ + name + lower-cased extension |
| EmployeeService.UpperCaseExtensionAccepted | EmployeeManagement.Application/Services/Implementation/EmployeeService.cs:221-223 | An upper-case extension is accepted and stored in lower case |
| EmployeeService.EmployeeService.constructor | EmployeeManagement.Application/Services/Implementation/EmployeeService.cs:26-30 | The service works through the unit of work it is given |
| EmployeeService.EmployeeService.DeleteEmployeeRow | EmployeeManagement.Application/Services/Implementation/EmployeeService.cs:118-141 | A missing employee or one who manages anyone gives false and no change; otherwise true exactly when no task names them and the server does not fail, and then only they go, with the cascades |
| EmployeeService.EmployeeService.DeleteEmployee | EmployeeManagement.Application/Services/Implementation/EmployeeService.cs:118-141 | The same outcome and rows, and the stored image path is deleted before the save exactly when the employee exists, manages nobody and has an image; a failed save then leaves the row naming the deleted file |
| EmployeeService.EmployeeService.DeleteEmployeeThenImage | EmployeeManagement.Application/Services/Implementation/EmployeeService.cs:118-141 | The same outcome and rows, but the image path is deleted exactly when the delete succeeds and the row had one, so a deleted file is never named by a stored row |
| EmployeeService.EmployeeService.AssignManager | EmployeeManagement.Application/Services/Implementation/EmployeeService.cs:143-153 | A missing employee is a silent no-op; otherwise ManagerId and UpdateDate are set on that employee only, and the save succeeds exactly when the manager exists, even when it is the employee |
| EmployeeService.EmployeeService.SelfManagedDelete | EmployeeManagement.Application/Services/Implementation/EmployeeService.cs:130-153 | An employee made their own manager can no longer be deleted |
| EmployeeService.EmployeeService.WriteEmployee | EmployeeManagement.Application/Services/Implementation/EmployeeService.cs:112-113 | Saving a loaded row gives that row back or changes nothing; in a clean session it succeeds exactly when the row's foreign keys resolve and the server does not fail, and then only that row changes |
| EmployeeService.EmployeeService.UpdateEmployee | EmployeeManagement.Application/Services/Implementation/EmployeeService.cs:81-116 | A missing employee gives null and no change; with a new image the old image file, when the row names one, is deleted first, and a rejected image then throws with the row still naming that deleted file; otherwise success exactly when the mapped row resolves, and then only that employee changes |
| EmployeeService.EmployeeService.UpdateEmployeeThenDeleteImage | EmployeeManagement.Application/Services/Implementation/EmployeeService.cs:81-116 | As the source, except that the old image is deleted only after the row is saved with the new path, so a deleted file is never the one the row names |
| DepartmentService.SalaryTotalRemove | EmployeeManagement.Application/Services/Implementation/DepartmentService.cs:71 | The salary total is the sum over the members in any order: it is one member's salary plus the total of the rest |
| DepartmentService.GetDepartmentById | EmployeeManagement.Application/Services/Implementation/DepartmentService.cs:60-78 | Null exactly when the id does not resolve; otherwise the department's id and name |
| DepartmentService.AllDepartments | EmployeeManagement.Application/Services/Implementation/DepartmentService.cs:44-58 | One view per department, each equal to the single-department view |
| DepartmentService.EmptyDepartmentTotals | EmployeeManagement.Application/Services/Implementation/DepartmentService.cs:70-71 | A department nobody belongs to shows count 0 and total salary 0 |
| DepartmentService.HireRaisesTotals | EmployeeManagement.Application/Services/Implementation/DepartmentService.cs:70-71 | A new employee raises their department's count by one and its total salary by their salary |
| DepartmentService.HireJoinsMembers | EmployeeManagement.Application/Services/Implementation/DepartmentService.cs:70 | A new employee joins exactly their department's members |
| DepartmentService.HireElsewhereKeepsTotals | EmployeeManagement.Application/Services/Implementation/DepartmentService.cs:62-75 | A new employee leaves every other department's view unchanged |
| DepartmentService.DepartmentService.constructor | EmployeeManagement.Application/Services/Implementation/DepartmentService.cs:19-23 | The service works through the unit of work it is given |
| DepartmentService.DepartmentService.CreateDepartment | EmployeeManagement.Application/Services/Implementation/DepartmentService.cs:24-32 | Success exactly when the form has no key, its manager resolves and the server does not fail; then exactly one department is added, stamped created and active |
| DepartmentService.DepartmentService.UpdateDepartment | EmployeeManagement.Application/Services/Implementation/DepartmentService.cs:34-41 | The mapped fields replace the stored row together with CreatedAt = now and IsActive = true, whatever the stored values were; an unknown non-zero id fails; an id of 0 inserts the mapped row under the next identity key exactly when its manager, if set, exists and manages no other department and the server does not fail |
| DepartmentService.DepartmentService.UpdateDepartmentKeepingHistory | EmployeeManagement.Application/Services/Implementation/DepartmentService.cs:34-41 | A missing id throws KeyNotFoundException; otherwise the mapped fields and UpdateDate change, and CreatedAt and IsActive are kept |
| DepartmentService.DepartmentService.DeleteDepartment | EmployeeManagement.Application/Services/Implementation/DepartmentService.cs:84-93 | A missing id throws KeyNotFoundException with no change; otherwise the department goes exactly when nobody belongs to it and the server does not fail |

## Left out

- File-system work in image handling is not modelled: the directory, the file write and `File.Delete`. The GUID file name is a parameter. The only trace of `DeleteImage` is the path that `UpdateEmployee` and `DeleteEmployee` report as removed.
- Clocks are not modelled. `DateTime.UtcNow` is a `now` parameter, and a timestamp is an opaque number.
- Connection, timeout and server faults are not modelled as events. Each save, commit or rollback takes a `fault` flag that makes it fail with `StoreFailure`.
- The following are left out: async/await; other sessions and last-write-wins between them; `Dispose` of the unit of work; the console logging in `DeleteTaskAsync`.
- AutoMapper is modelled as explicit field copies. `MappingProfile.cs` registers no `TaskMB` map, so the task view copies the fields it names.
- EmployeeService.EmployeeService.UpdateEmployee: the stored ImagePath after a successful update is not stated. The duplicate `EmployeeViewModel` maps leave it to AutoMapper's resolution whether the image path survives.
- The source of `GenericRepository<T>` is not part of this model. `GetById`, `GetAll`, `GetFirstOrDefault` and `GetTasksByIdsAsync` are given filter-over-table contracts.
- Queries read the session's rows, not the change tracker. No service queries while changes are pending.
- `Contains` is plain ordinal substring search. The database collation may make it case-insensitive.
- `Char.IsWhiteSpace`, `ToLowerInvariant` and `Path.GetExtension` are modelled for the characters that matter here. These are ASCII letters, the common white space, and the `/`, `\` and `:` separators. Other Unicode rules are not modelled.
- Salary is a whole number of cents. Rounding of values with more than two fractional digits to `decimal(18,2)` is not modelled.
- View-model data annotations are not modelled, because ASP.NET model binding enforces them.
- The following are not modelled because they are outside the core: `GetAllTasksAsync`, `GetTaskByIdAsync`, `GetTasksByManagerAsync`, `GetTasksByStatusAsync` and `GetOverdueTasksAsync` in the task service; `GetEmployeeByIdAsync`, `CreateEmployeeAsync` and `GetEmployeeByUserIdAsync`; `GetDepartmentsWithEmployeesAsync` in the repository and the service. The repository queries under the first group are modelled.
- Navigation collections (`ManagedEmployees`, `EmployeeTasks`) are not modelled as stored fields. A new employee's collections are the queries `Subordinates` and `AssignmentsByEmployee`, which are empty for a key not yet used.
- `DepartmentViewModel` as shown declares no `EmployeeCount` property. The model keeps the count the service assigns at `DepartmentService.cs:70`.
- UnitOfWork.UnitOfWork.CommitTransaction and RollbackTransaction do not require an open transaction. Without a handle, the source dereferences null, so the model returns `NullReferenceException` instead.
- The source gives the assignment-to-task foreign key no delete behaviour, so EF's default for a required key, Cascade, applies. The model follows the code: deleting a task removes its assignments even without the explicit loop.
- TaskService.TaskService.AssignTaskToEmployee: the rows after the call are stated exactly only for a session with no pending change. In other sessions the contract states the outcome for a pair already pending in the tracker and for a doomed save.
- TaskService.TaskService.InsertTask: the outcome and the rows are stated exactly only for a session with no pending change (`Clean()`).
- TaskService.TaskService.InsertAssignment: the outcome and the rows are stated exactly only for a session with no pending change (`Clean()`).
- TaskService.TaskService.ReplaceAssignment: the outcome and the rows are stated exactly only for a session with no pending change (`Clean()`).
- TaskService.TaskService.CreateInTransaction: the outcome and the rows are stated exactly only for a session with no pending change (`Clean()`). It also requires the session's rows to equal the durable ones, as they do right after BeginTransaction.
- TaskService.TaskService.CreateTaskAsWritten: the outcome and the rows are stated exactly only for a session with no pending change (`Clean()`). It also requires that no transaction is open, since otherwise BeginTransaction refuses.
- TaskService.TaskService.CreateTask: the outcome and the rows are stated exactly only for a session with no pending change (`Clean()`). It also requires that no transaction is open, since otherwise BeginTransaction refuses.
- TaskService.TaskService.UpdateTask: the outcome and the rows are stated exactly only for a session with no pending change (`Clean()`).
- TaskService.TaskService.UpdateTaskStatus: the outcome and the rows are stated exactly only for a session with no pending change (`Clean()`).
- TaskService.TaskService.DeleteTask: the outcome and the rows are stated exactly only for a session with no pending change (`Clean()`).
- TaskService.TaskService.UnassignTaskFromEmployee: the outcome and the rows are stated exactly only for a session with no pending change (`Clean()`).
- TaskService.TaskService.UpdateTaskAssignment: the rows are stated exactly only for a session with no pending change (`Clean()`).
- TaskService.TaskService.UpdateTaskAssignment: the result maps the re-read EmployeeTask onto TaskMB by property name. TaskMB's `AssignedDate` also matches by name, but it is not a field of the model's task view, so the result does not carry the date. `MappingProfile.cs` registers no EmployeeTask map, so AutoMapper as configured would throw instead of returning.
- TaskService.TaskService.ReassignTask: the outcome and the rows are stated exactly only for a session with no pending change (`Clean()`).
- EmployeeService.EmployeeService.WriteEmployee: the outcome and the rows are stated exactly only for a session with no pending change (`Clean()`).
- EmployeeService.EmployeeService.DeleteEmployeeRow: the outcome and the rows are stated exactly only for a session with no pending change (`Clean()`).
- EmployeeService.EmployeeService.DeleteEmployee: the outcome and the rows are stated exactly only for a session with no pending change (`Clean()`).
- EmployeeService.EmployeeService.DeleteEmployeeThenImage: the outcome and the rows are stated exactly only for a session with no pending change (`Clean()`).
- EmployeeService.EmployeeService.AssignManager: the outcome and the rows are stated exactly only for a session with no pending change (`Clean()`).
- EmployeeService.EmployeeService.UpdateEmployee: the outcome and the rows are stated exactly only for a session with no pending change (`Clean()`).
- EmployeeService.EmployeeService.UpdateEmployeeThenDeleteImage: the outcome and the rows are stated exactly only for a session with no pending change (`Clean()`).
- DepartmentService.DepartmentService.CreateDepartment: the outcome and the rows are stated exactly only for a session with no pending change (`Clean()`).
- DepartmentService.DepartmentService.UpdateDepartment: the outcome and the rows are stated exactly only for a session with no pending change (`Clean()`).
- DepartmentService.DepartmentService.UpdateDepartmentKeepingHistory: the outcome and the rows are stated exactly only for a session with no pending change (`Clean()`).
- DepartmentService.DepartmentService.DeleteDepartment: the outcome and the rows are stated exactly only for a session with no pending change (`Clean()`).
- DepartmentRepository.DepartmentRepository.DeleteDepartment: the outcome and the rows are stated exactly only for a session with no pending change (`Clean()`).
- DbContext.ApplicationDbContext.SaveChanges: the count it reports is the row-difference count described under `DbContext.AffectedRows`, not EF Core's count of entries written.
- DbContext.AffectedRows: the count is the number of rows whose value differs between before and after the save, including rows removed by a cascade and departments whose manager was set to null. EF Core instead counts the tracked entries it writes: an `Update` of an unchanged row counts 1, and rows the database cascades count 0. No caller in the core reads the count.
- DbContext.ApplicationDbContext.RollbackTransaction: the tracker is not reset. Rows saved inside the rolled-back transaction stay in `staged`, so a later save in the same session writes them again, where EF Core holds them as unchanged and would not. No service saves again after a rollback.
- DbContext.ApplicationDbContext.AddAssignment: a pair whose row is in the database is treated as untracked, so the add succeeds and the save fails. EF Core throws at the add when that row was loaded into the tracker.
- `BaseEntity.DeleteDate` is not modelled. No operation of the core reads or sets it.

## Findings

| source | as written | input that shows it | evidently intended | confidence | as-written member | corrected member |
|---|---|---|---|---|---|---|
| EmployeeManagement.Application/Services/Implementation/TaskService.cs:71-82 | When the commit fails, `CommitTransactionAsync` has already cleared the handle. The catch block then rolls back through a null transaction, so the caller sees a NullReferenceException instead of the commit's exception | A valid form whose commit fails on the server | Roll back only a transaction still open, and rethrow the original exception | not executed; high | TaskService.TaskService.CreateTaskAsWritten | TaskService.TaskService.CreateTask |
| EmployeeManagement.Infrastructure/Repositories/TaskRepository.cs:26-33 | `GetTasksByEmployeeIdAsync` ignores its argument and returns every task | Employee 1 and a task assigned only to employee 2: the query for employee 1 returns it | Only the tasks assigned to the employee | not executed; high | TaskRepository.TasksByEmployeeIdReturnsOthersTasks | TaskRepository.TasksAssignedTo |
| EmployeeManagement.Application/Services/Implementation/TaskService.cs:245-248 | The method writes a new EmployeeId into a tracked assignment's composite key. EF Core refuses to save a modified key property, so no task is ever reassigned | A task assigned to employee 1, reassigned to employee 2 | Replace the assignment row with one for the new employee | not executed; medium | TaskService.TaskService.UpdateTaskAssignment | TaskService.TaskService.ReassignTask |
| EmployeeManagement.Application/Services/Implementation/DepartmentService.cs:34-41 | The update maps the view model to a fresh Department. BaseEntity's defaults then overwrite the stored CreatedAt with now and IsActive with true | Updating a department created yesterday or deactivated | Keep CreatedAt and IsActive, and stamp only UpdateDate | not executed; high | DepartmentService.DepartmentService.UpdateDepartment | DepartmentService.DepartmentService.UpdateDepartmentKeepingHistory |
| EmployeeManagement.Application/Services/Implementation/EmployeeService.cs:90-101 | With a new image, the old image file is deleted before the new one is validated. A rejected upload throws after the delete, and the unchanged row still names the deleted file | An employee with an image, updated with a 6 MiB upload | Validate and save first, then delete the old file | not executed; high | EmployeeService.EmployeeService.UpdateEmployee | EmployeeService.EmployeeService.UpdateEmployeeThenDeleteImage |
| EmployeeManagement.Application/Services/Implementation/EmployeeService.cs:132-139 | The image file is deleted before the employee row is removed and saved. When the save fails, the row stays and still names the deleted file | An employee with an image who is still the assignee of a task: the Restrict rule refuses the delete | Delete the file only after the save succeeds | not executed; high | EmployeeService.EmployeeService.DeleteEmployee | EmployeeService.EmployeeService.DeleteEmployeeThenImage |
