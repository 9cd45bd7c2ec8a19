/**
  The legacy registration service (services/employee_registration_service.py):
  normalise the caller's embedding in place, insert through the legacy
  directory, and return the public view of the created row.
 */
module EmployeeRegistrationService {
  import opened Failures
  import opened Vectors
  import opened Directory
  import Crud

  /** register_employee (legacy, returning a view). */
  method RegisterEmployee(k: Kernel, face: EmployeeInput, db: EmployeeTable, commitOk: bool)
    returns (r: Result<EmployeeView>)
    requires db.Valid()
    modifies face, db
    ensures db.Valid()
    ensures face.employeeId == old(face.employeeId) && face.name == old(face.name) && face.role == old(face.role)
    ensures IsZero(old(face.embedding)) ==>
      r == Err(InvalidVector) && face.embedding == old(face.embedding) && db.rows == old(db.rows)
    ensures !IsZero(old(face.embedding)) ==> face.embedding == k.unitOf(old(face.embedding))
    ensures !IsZero(old(face.embedding)) && HasId(old(db.rows), face.employeeId)
            ==> r == Err(EmployeeAlreadyExists) && db.rows == old(db.rows)
    ensures !IsZero(old(face.embedding)) && !HasId(old(db.rows), face.employeeId) && !commitOk
            ==> r == Err(DatabaseError) && db.rows == old(db.rows)
    ensures !IsZero(old(face.embedding)) && !HasId(old(db.rows), face.employeeId) && commitOk ==>
      var created := Employee(face.employeeId, face.name, k.unitOf(old(face.embedding)), face.role);
      && db.rows == old(db.rows) + [created]
      && r == Ok(View(created))
  {
    var normalized := face.NormalizeEmbedding(k);
    if normalized.Err? {
      return Err(normalized.failure);
    }
    var emp := Crud.AddEmployee(db, face, commitOk);
    if emp.Err? {
      return Err(emp.failure);
    }
    r := Ok(View(emp.value));
  }
}
