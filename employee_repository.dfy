/**
  The writing half of data/employee_repository.py.  Each function takes the
  table (the `db` session) and changes it; whether the commit succeeds is the
  `commitOk` parameter, and a failed commit is rolled back and raises
  DatabaseError with the table unchanged.  A duplicate primary key surfaces
  at commit as an IntegrityError, which add_employee reports as
  EmployeeAlreadyExists after the rollback.
 */
module EmployeeRepository {
  import opened Failures
  import opened Vectors
  import opened Directory

  /** Adding a row whose id is new keeps the ids unique. */
  lemma AppendKeepsUniqueIds(rows: seq<Employee>, e: Employee)
    requires UniqueIds(rows) && !HasId(rows, e.employeeId)
    ensures UniqueIds(rows + [e])
  {
    var s := rows + [e];
    forall i, j | 0 <= i < j < |s| ensures s[i].employeeId != s[j].employeeId {
      if j < |rows| {
        assert s[i] == rows[i] && s[j] == rows[j];
      } else {
        assert s[i] == rows[i];
      }
    }
  }

  /** A row just added is what get_employee_by_id returns for its id. */
  lemma AddedRowIsFound(rows: seq<Employee>, e: Employee)
    requires UniqueIds(rows) && !HasId(rows, e.employeeId)
    ensures GetEmployeeById(rows + [e], e.employeeId) == Ok(e)
  {
    AppendKeepsUniqueIds(rows, e);
    IndexOfUnique(rows + [e], |rows|);
  }

  /** What a caller hands to add_employee: a mapping of the four fields (the
      documented dict), or a Pydantic model object carrying the same fields. */
  datatype Payload = Mapping(fields: Employee) | ModelObject(fields: Employee)

  /** `Employee(**payload)`: keyword unpacking accepts only a mapping; a
      Pydantic model is not one and raises TypeError. */
  function Construct(payload: Payload): (r: Result<Employee>)
    ensures r.Ok? <==> payload.Mapping?
    ensures r.Ok? ==> r.value == payload.fields
    ensures r.Err? ==> r.failure == PayloadNotMapping
  {
    match payload
    case Mapping(fields) => Ok(fields)
    case ModelObject(_) => Err(PayloadNotMapping)
  }

  /** add_employee: builds the row (before the transaction), then stores it
      unless its id is taken. */
  method AddEmployee(db: EmployeeTable, payload: Payload, commitOk: bool) returns (r: Result<Employee>)
    requires db.Valid()
    modifies db
    ensures db.Valid()
    ensures payload.ModelObject? ==> r == Err(PayloadNotMapping) && db.rows == old(db.rows)
    ensures payload.Mapping? && HasId(old(db.rows), payload.fields.employeeId)
            ==> r == Err(EmployeeAlreadyExists) && db.rows == old(db.rows)
    ensures payload.Mapping? && !HasId(old(db.rows), payload.fields.employeeId) && !commitOk
            ==> r == Err(DatabaseError) && db.rows == old(db.rows)
    ensures payload.Mapping? && !HasId(old(db.rows), payload.fields.employeeId) && commitOk ==>
      && r == Ok(payload.fields)
      && db.rows == old(db.rows) + [payload.fields]
      && GetEmployeeById(db.rows, payload.fields.employeeId) == Ok(payload.fields)
  {
    var emp :- Construct(payload);
    if IndexOf(db.rows, emp.employeeId).Some? {
      return Err(EmployeeAlreadyExists);
    }
    if !commitOk {
      return Err(DatabaseError);
    }
    AppendKeepsUniqueIds(db.rows, emp);
    AddedRowIsFound(db.rows, emp);
    db.rows := db.rows + [emp];
    r := Ok(emp);
  }

  /** update_employee: a partial update; a field passed as None keeps its value. */
  method UpdateEmployee(db: EmployeeTable, employeeId: string, name: Option<string>, role: Option<string>,
                        embedding: Option<Vector>, commitOk: bool)
    returns (r: Result<Employee>)
    requires db.Valid()
    modifies db
    ensures db.Valid()
    ensures !HasId(old(db.rows), employeeId) ==> r == Err(EmployeeNotFound) && db.rows == old(db.rows)
    ensures HasId(old(db.rows), employeeId) && !commitOk ==> r == Err(DatabaseError) && db.rows == old(db.rows)
    ensures HasId(old(db.rows), employeeId) && commitOk ==>
      var i := IndexOf(old(db.rows), employeeId).value;
      var was := old(db.rows)[i];
      && r.Ok?
      && r.value.employeeId == employeeId
      && r.value.name == (if name.Some? then name.value else was.name)
      && r.value.embedding == (if embedding.Some? then embedding.value else was.embedding)
      && r.value.role == (if role.Some? then role.value else was.role)
      && db.rows == old(db.rows)[i := r.value]
  {
    var found := GetEmployeeById(db.rows, employeeId);
    if found.Err? {
      return Err(found.failure);
    }
    if !commitOk {
      return Err(DatabaseError);
    }
    var i := IndexOf(db.rows, employeeId).value;
    var emp := db.rows[i];
    if name.Some? {
      emp := emp.(name := name.value);
    }
    if embedding.Some? {
      emp := emp.(embedding := embedding.value);
    }
    if role.Some? {
      emp := emp.(role := role.value);
    }
    db.rows := db.rows[i := emp];
    r := Ok(emp);
  }

  /** Removing the row at position i removes its id and keeps every other row. */
  lemma RemoveAtDropsOnlyThatId(rows: seq<Employee>, i: nat)
    requires UniqueIds(rows) && i < |rows|
    ensures UniqueIds(rows[..i] + rows[i + 1..])
    ensures !HasId(rows[..i] + rows[i + 1..], rows[i].employeeId)
    ensures forall e :: e in rows[..i] + rows[i + 1..] <==> e in rows && e.employeeId != rows[i].employeeId
  {
    var s := rows[..i] + rows[i + 1..];
    assert forall j :: 0 <= j < |s| ==> s[j] == rows[if j < i then j else j + 1];
    forall e | e in rows && e.employeeId != rows[i].employeeId ensures e in s {
      var k :| 0 <= k < |rows| && rows[k] == e;
      assert s[if k < i then k else k - 1] == e;
    }
  }

  /** remove_employee_by_id: deletes the row; the other rows stay, in order. */
  method RemoveEmployeeById(db: EmployeeTable, employeeId: string, commitOk: bool) returns (r: Result<()>)
    requires db.Valid()
    modifies db
    ensures db.Valid()
    ensures !HasId(old(db.rows), employeeId) ==> r == Err(EmployeeNotFound) && db.rows == old(db.rows)
    ensures HasId(old(db.rows), employeeId) && !commitOk ==> r == Err(DatabaseError) && db.rows == old(db.rows)
    ensures HasId(old(db.rows), employeeId) && commitOk ==>
      var i := IndexOf(old(db.rows), employeeId).value;
      && r == Ok(())
      && db.rows == old(db.rows)[..i] + old(db.rows)[i + 1..]
      && !HasId(db.rows, employeeId)
      && forall e :: e in db.rows <==> e in old(db.rows) && e.employeeId != employeeId
  {
    var found := GetEmployeeById(db.rows, employeeId);
    if found.Err? {
      return Err(found.failure);
    }
    if !commitOk {
      return Err(DatabaseError);
    }
    var i := IndexOf(db.rows, employeeId).value;
    RemoveAtDropsOnlyThatId(db.rows, i);
    db.rows := db.rows[..i] + db.rows[i + 1..];
    r := Ok(());
  }
}
