/**
  The legacy face registration (services/face_registration_service.py):
  normalise the caller's embedding in place and return the very record the
  legacy directory created.
 */
module FaceRegistrationService {
  import opened Failures
  import opened Vectors
  import opened Directory
  import Crud

  /** register_face. */
  method RegisterFace(k: Kernel, face: EmployeeInput, db: EmployeeTable, commitOk: bool)
    returns (r: Result<Employee>)
    requires db.Valid()
    modifies face, db
    ensures db.Valid()
    ensures face.employeeId == old(face.employeeId) && face.name == old(face.name) && face.role == old(face.role)
    ensures IsZero(old(face.embedding)) ==>
      r == Err(InvalidVector) && face.embedding == old(face.embedding) && db.rows == old(db.rows)
    ensures !IsZero(old(face.embedding)) ==> face.embedding == k.unitOf(old(face.embedding))
    ensures !IsZero(old(face.embedding)) && HasId(old(db.rows), face.employeeId)
            ==> r == Err(EmployeeAlreadyExists) && db.rows == old(db.rows)
    ensures !IsZero(old(face.embedding)) && !HasId(old(db.rows), face.employeeId) && !commitOk
            ==> r == Err(DatabaseError) && db.rows == old(db.rows)
    ensures !IsZero(old(face.embedding)) && !HasId(old(db.rows), face.employeeId) && commitOk ==>
      && r == Ok(Employee(face.employeeId, face.name, k.unitOf(old(face.embedding)), face.role))
      && db.rows == old(db.rows) + [r.value]
  {
    var normalized := face.NormalizeEmbedding(k);
    if normalized.Err? {
      return Err(normalized.failure);
    }
    r := Crud.AddEmployee(db, face, commitOk);
  }
}
