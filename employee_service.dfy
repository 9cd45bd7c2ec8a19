/**
  The legacy employee service (services/employee_service.py).  Unlike the
  current registration it overwrites the caller's embedding in place before
  handing the same object to the legacy directory, so the caller sees the
  normalised vector even when the insert is refused.  Its search is the same
  projection as services/search_employees.py over the same prefix query, and
  is SearchEmployees.SearchEmployeesByPrefix.
 */
module EmployeeService {
  import opened Failures
  import opened Vectors
  import opened Directory
  import Crud

  /** register_employee (legacy): returns nothing on success. */
  method RegisterEmployee(k: Kernel, employee: EmployeeInput, db: EmployeeTable, commitOk: bool)
    returns (r: Result<()>)
    requires db.Valid()
    modifies employee, db
    ensures db.Valid()
    ensures employee.employeeId == old(employee.employeeId) && employee.name == old(employee.name)
    ensures employee.role == old(employee.role)
    ensures IsZero(old(employee.embedding)) ==>
      r == Err(InvalidVector) && employee.embedding == old(employee.embedding) && db.rows == old(db.rows)
    ensures !IsZero(old(employee.embedding)) ==> employee.embedding == k.unitOf(old(employee.embedding))
    ensures !IsZero(old(employee.embedding)) && HasId(old(db.rows), employee.employeeId)
            ==> r == Err(EmployeeAlreadyExists) && db.rows == old(db.rows)
    ensures !IsZero(old(employee.embedding)) && !HasId(old(db.rows), employee.employeeId) && !commitOk
            ==> r == Err(DatabaseError) && db.rows == old(db.rows)
    ensures !IsZero(old(employee.embedding)) && !HasId(old(db.rows), employee.employeeId) && commitOk ==>
      && r == Ok(())
      && db.rows == old(db.rows) + [Employee(employee.employeeId, employee.name, k.unitOf(old(employee.embedding)), employee.role)]
  {
    r := employee.NormalizeEmbedding(k);
    if r.Err? {
      return;
    }
    var created := Crud.AddEmployee(db, employee, commitOk);
    if created.Err? {
      return Err(created.failure);
    }
  }
}
