/** Entities of the domain: plain records holding the columns the store keeps
    (Employee, Department, TaskItem and the EmployeeTask join row), plus the
    Option/Result/Error vocabulary shared by every other module. */
module Models {

  /** Key of a department, employee or task row (an SQL identity column). */
  type Id = int

  /** A DateTime value; the model never inspects it. */
  type Timestamp = int

  /** Money stored as decimal(18,2): an exact number of hundredths. */
  type Cents = int

  datatype Option<+T> = None | Some(value: T)

  /** Why an image upload or a store operation was refused. */
  datatype Refusal =
    | AlreadyAssigned        // the (task, employee) pair already has a row
    | FileTooLarge           // upload above the 5 MiB ceiling
    | ExtensionNotAllowed    // upload outside .jpg/.jpeg/.png/.gif
    | TransactionAlreadyOpen // BeginTransaction while one is open
    | KeyPropertyModified    // a tracked row had part of its key rewritten
    | KeyAlreadyTracked      // a second row was added under a key the tracker already holds

  /** The exceptions the core raises, by .NET type. */
  datatype Error =
    | ArgumentException
    | KeyNotFoundException
    | InvalidOperationException(why: Refusal)
    | NullReferenceException
    | NotImplementedException
    | DbUpdateException              // a foreign-key or unique constraint refused the save
    | DbUpdateConcurrencyException   // an UPDATE found no row to change
    | StoreFailure                   // the connection or server failed

  datatype Result<+T> = Ok(value: T) | Err(error: Error)

  /** TaskItem.Status. The C# enum numbers its members from 0 in this order. */
  datatype TaskStatus = New | InProgress | Completed | Delayed | Cancelled

  datatype Department = Department(
    id: Id,
    name: string,
    description: string,
    managerId: Option<Id>,
    isActive: bool,
    createdAt: Option<Timestamp>,
    updateDate: Option<Timestamp>)

  /** DepartmentId is required, ManagerId optional; the ManagedEmployees and
      EmployeeTasks collections are back-references, derived from the other
      rows by the repositories rather than stored here. */
  datatype Employee = Employee(
    id: Id,
    firstName: string,
    lastName: string,
    salary: Cents,
    imagePath: Option<string>,
    userId: Option<string>,
    departmentId: Id,
    managerId: Option<Id>,
    isActive: bool,
    createdAt: Option<Timestamp>,
    updateDate: Option<Timestamp>)

  /** EmployeeId is required, CreatedByManagerId optional. Status is a plain
      settable column: nothing restricts which value replaces which. */
  datatype TaskItem = TaskItem(
    id: Id,
    title: string,
    description: string,
    status: TaskStatus,
    employeeId: Id,
    createdByManagerId: Option<Id>,
    isActive: bool,
    createdAt: Option<Timestamp>,
    updateDate: Option<Timestamp>)

  /** The join row linking a task to an employee; (taskId, employeeId) is its key. */
  datatype EmployeeTask = EmployeeTask(taskId: Id, employeeId: Id, assignedDate: Timestamp)

  /** Employee.FullName: first name, one space, last name. */
  function FullName(e: Employee): (r: string)
    ensures |r| == |e.firstName| + 1 + |e.lastName|
  {
    e.firstName + " " + e.lastName
  }

  /** Cuts a string at its first space: the part before it and the part after it. */
  function SplitAtFirstSpace(s: string): (r: (string, string))
    ensures ' ' !in s ==> r == (s, "")
    ensures ' ' in s ==> |r.0| + 1 + |r.1| == |s|
  {
    if s == [] then ("", "")
    else if s[0] == ' ' then ("", s[1..])
    else
      var rest := SplitAtFirstSpace(s[1..]);
      assert ' ' !in s ==> [s[0]] + s[1..] == s;
      ([s[0]] + rest.0, rest.1)
  }

  /** A full name gives back the first and last name it was built from,
      whenever the first name holds no space. */
  lemma {:induction false} FullNameSplits(e: Employee)
    requires ' ' !in e.firstName
    ensures SplitAtFirstSpace(FullName(e)) == (e.firstName, e.lastName)
  {
    SplitAfterPrefix(e.firstName, e.lastName);
  }

  lemma {:induction false} SplitAfterPrefix(first: string, last: string)
    requires ' ' !in first
    ensures SplitAtFirstSpace(first + " " + last) == (first, last)
  {
    if first == [] {
      assert first + " " + last == [' '] + last;
    } else {
      var s := first + " " + last;
      assert s[0] == first[0] && s[1..] == first[1..] + " " + last;
      SplitAfterPrefix(first[1..], last);
      assert [first[0]] + first[1..] == first;
    }
  }
}
