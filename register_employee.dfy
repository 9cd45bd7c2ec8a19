/**
  Registration (services/register_employee.py): normalise the embedding,
  apply the default role, and hand a fresh payload to the repository.  The
  caller's input object is read, never written.
 */
module RegisterEmployee {
  import opened Failures
  import opened Vectors
  import opened Directory
  import EmployeeRepository

  /** The role applied when the input has none (`role or "employee"`). */
  const DefaultRole: string := "employee"

  /** `role or "employee"`: a missing or empty role is replaced. */
  function RoleOrDefault(role: string): (r: string)
    ensures r != ""
    ensures role != "" ==> r == role
    ensures role == "" ==> r == DefaultRole
  {
    if role != "" then role else DefaultRole
  }

  /** The model_copy payload: the same id and name, the normalised embedding
      and the defaulted role; a zero embedding has no payload. */
  function BuildPayload(k: Kernel, employee: EmployeeInput): (r: Result<Employee>)
    reads employee
    ensures r.Err? <==> IsZero(employee.embedding)
    ensures r.Err? ==> r.failure == InvalidVector
    ensures r.Ok? ==> r.value.employeeId == employee.employeeId && r.value.name == employee.name
    ensures r.Ok? ==> r.value.embedding == k.unitOf(employee.embedding)
    ensures r.Ok? ==> r.value.role != "" && (employee.role != "" ==> r.value.role == employee.role)
  {
    var normalized :- Normalize(k, employee.embedding);
    Ok(Employee(employee.employeeId, employee.name, normalized, RoleOrDefault(employee.role)))
  }

  /** register_employee as written: the model_copy result is a Pydantic
      object, which the repository's `Employee(**payload)` cannot unpack, so
      every registration with a non-zero embedding fails with a TypeError and
      stores nothing. */
  method RegisterEmployeeAsWritten(k: Kernel, employee: EmployeeInput, db: EmployeeTable, commitOk: bool)
    returns (r: Result<EmployeeView>)
    requires db.Valid()
    modifies db
    ensures db.Valid()
    ensures unchanged(employee)
    ensures db.rows == old(db.rows)
    ensures IsZero(employee.embedding) ==> r == Err(InvalidVector)
    ensures !IsZero(employee.embedding) ==> r == Err(PayloadNotMapping)
  {
    var payload := BuildPayload(k, employee);
    if payload.Err? {
      return Err(payload.failure);
    }
    var emp := EmployeeRepository.AddEmployee(db, EmployeeRepository.ModelObject(payload.value), commitOk);
    match emp
    case Err(failure) => r := Err(failure);
    case Ok(created) => r := Ok(View(created));
  }

  /** The discrepancy on one input: a new id, a non-zero embedding and a
      commit that would succeed.  As written, the repository refuses the model
      object; with the payload passed as its field mapping (`model_dump()`),
      the same payload is accepted. */
  lemma ModelObjectIsRefusedWhereMappingIsAccepted(k: Kernel, employee: EmployeeInput)
    requires !IsZero(employee.embedding)
    ensures EmployeeRepository.Construct(EmployeeRepository.ModelObject(BuildPayload(k, employee).value))
         == Err(PayloadNotMapping)
    ensures EmployeeRepository.Construct(EmployeeRepository.Mapping(BuildPayload(k, employee).value))
         == Ok(BuildPayload(k, employee).value)
  {
  }

  /** register_employee as intended: the payload is handed over as the
      mapping of its fields.  A zero embedding fails before the repository is
      reached; otherwise the repository's outcome is returned, and on success
      the caller receives the public view of the stored row. */
  method RegisterEmployee(k: Kernel, employee: EmployeeInput, db: EmployeeTable, commitOk: bool)
    returns (r: Result<EmployeeView>)
    requires db.Valid()
    modifies db
    ensures db.Valid()
    ensures unchanged(employee)
    ensures IsZero(employee.embedding) ==> r == Err(InvalidVector) && db.rows == old(db.rows)
    ensures !IsZero(employee.embedding) && HasId(old(db.rows), employee.employeeId)
            ==> r == Err(EmployeeAlreadyExists) && db.rows == old(db.rows)
    ensures !IsZero(employee.embedding) && !HasId(old(db.rows), employee.employeeId) && !commitOk
            ==> r == Err(DatabaseError) && db.rows == old(db.rows)
    ensures !IsZero(employee.embedding) && !HasId(old(db.rows), employee.employeeId) && commitOk ==>
      var payload := BuildPayload(k, employee).value;
      && db.rows == old(db.rows) + [payload]
      && GetEmployeeById(db.rows, employee.employeeId) == Ok(payload)
      && r == Ok(View(payload))
  {
    var payload := BuildPayload(k, employee);
    if payload.Err? {
      return Err(payload.failure);
    }
    var emp := EmployeeRepository.AddEmployee(db, EmployeeRepository.Mapping(payload.value), commitOk);
    if emp.Err? {
      return Err(emp.failure);
    }
    r := Ok(View(emp.value));
  }

  /** The payload role is the default for an empty input role and the input
      role otherwise. */
  lemma RegisteredRoleIsDefaultedOnlyWhenEmpty(k: Kernel, employee: EmployeeInput)
    requires !IsZero(employee.embedding)
    ensures BuildPayload(k, employee).value.role == (if employee.role == "" then DefaultRole else employee.role)
  {
  }
}
