/**
  The legacy directory (crud.py).  It differs from the repository in three
  ways: add_employee queries for the id before inserting (so a duplicate is
  refused without touching the session), update_employee replaces name,
  embedding and role all at once from a full input object, and
  remove_employee_by_id returns a snapshot of the deleted row.
 */
module Crud {
  import opened Failures
  import opened Vectors
  import opened Directory
  import EmployeeRepository

  /** The row Employee(**employee.model_dump()) builds from an input object. */
  function RecordOf(employee: EmployeeInput): Employee
    reads employee
  {
    Employee(employee.employeeId, employee.name, employee.embedding, employee.role)
  }

  /** add_employee: refuses a taken id before any insert, otherwise stores a
      row with every input field and returns it. */
  method AddEmployee(db: EmployeeTable, employee: EmployeeInput, commitOk: bool) returns (r: Result<Employee>)
    requires db.Valid()
    modifies db
    ensures db.Valid()
    ensures HasId(old(db.rows), employee.employeeId) ==> r == Err(EmployeeAlreadyExists) && db.rows == old(db.rows)
    ensures !HasId(old(db.rows), employee.employeeId) && !commitOk ==> r == Err(DatabaseError) && db.rows == old(db.rows)
    ensures !HasId(old(db.rows), employee.employeeId) && commitOk ==>
      && r.Ok?
      && r.value == Employee(employee.employeeId, employee.name, employee.embedding, employee.role)
      && db.rows == old(db.rows) + [r.value]
  {
    if GetEmployeeById(db.rows, employee.employeeId).Ok? {
      return Err(EmployeeAlreadyExists);
    }
    if !commitOk {
      return Err(DatabaseError);
    }
    var emp := RecordOf(employee);
    EmployeeRepository.AppendKeepsUniqueIds(db.rows, emp);
    db.rows := db.rows + [emp];
    r := Ok(emp);
  }

  /** update_employee: a full replacement of name, embedding and role. */
  method UpdateEmployee(db: EmployeeTable, employee: EmployeeInput, commitOk: bool) returns (r: Result<Employee>)
    requires db.Valid()
    modifies db
    ensures db.Valid()
    ensures !HasId(old(db.rows), employee.employeeId) ==> r == Err(EmployeeNotFound) && db.rows == old(db.rows)
    ensures HasId(old(db.rows), employee.employeeId) && !commitOk ==> r == Err(DatabaseError) && db.rows == old(db.rows)
    ensures HasId(old(db.rows), employee.employeeId) && commitOk ==>
      var i := IndexOf(old(db.rows), employee.employeeId).value;
      && r == Ok(Employee(employee.employeeId, employee.name, employee.embedding, employee.role))
      && db.rows == old(db.rows)[i := r.value]
  {
    var found := GetEmployeeById(db.rows, employee.employeeId);
    if found.Err? {
      return Err(found.failure);
    }
    if !commitOk {
      return Err(DatabaseError);
    }
    var i := IndexOf(db.rows, employee.employeeId).value;
    var emp := db.rows[i].(name := employee.name, embedding := employee.embedding, role := employee.role);
    db.rows := db.rows[i := emp];
    r := Ok(emp);
  }

  /** remove_employee_by_id: deletes the row and returns a snapshot equal to
      it as it was before the delete. */
  method RemoveEmployeeById(db: EmployeeTable, employeeId: string, commitOk: bool) returns (r: Result<Employee>)
    requires db.Valid()
    modifies db
    ensures db.Valid()
    ensures !HasId(old(db.rows), employeeId) ==> r == Err(EmployeeNotFound) && db.rows == old(db.rows)
    ensures HasId(old(db.rows), employeeId) && !commitOk ==> r == Err(DatabaseError) && db.rows == old(db.rows)
    ensures HasId(old(db.rows), employeeId) && commitOk ==>
      var i := IndexOf(old(db.rows), employeeId).value;
      && r == Ok(old(db.rows)[i])
      && r == GetEmployeeById(old(db.rows), employeeId)
      && db.rows == old(db.rows)[..i] + old(db.rows)[i + 1..]
      && !HasId(db.rows, employeeId)
  {
    var found := GetEmployeeById(db.rows, employeeId);
    if found.Err? {
      return Err(found.failure);
    }
    if !commitOk {
      return Err(DatabaseError);
    }
    var i := IndexOf(db.rows, employeeId).value;
    var removed := Employee(db.rows[i].employeeId, db.rows[i].name, db.rows[i].embedding, db.rows[i].role);
    EmployeeRepository.RemoveAtDropsOnlyThatId(db.rows, i);
    db.rows := db.rows[..i] + db.rows[i + 1..];
    r := Ok(removed);
  }
}
