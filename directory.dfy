/**
  The employees table shared by the repository (data/employee_repository.py)
  and the legacy CRUD module (crud.py), with the read queries both of them run.

  The table is a class over the rows in table order; employee_id is the
  primary key, so ids are unique.  The two read queries are identical in the
  two modules (get_employee_by_id at data/employee_repository.py:67-90 and
  crud.py:58-67, get_employees_by_prefix at data/employee_repository.py:93-107
  and crud.py:70-77), so each is modelled once here, as a function of the rows.
 */
module Directory {
  import opened Failures
  import opened Vectors

  datatype Employee = Employee(employeeId: string, name: string, embedding: Vector, role: string)

  /** The public view (EmployeeResult, EmployeeSearchResult and EmployeeView
      all have exactly these three fields): no embedding. */
  datatype EmployeeView = EmployeeView(employeeId: string, name: string, role: string)

  function View(e: Employee): EmployeeView {
    EmployeeView(e.employeeId, e.name, e.role)
  }

  /** The incoming request object (EmployeeInput, and FaceEmbedding of the
      legacy services; FaceRecord, which employee_registration_service.py
      imports, is defined nowhere, and is assumed to have the same four
      fields).  It is an object:
      the legacy services assign its embedding in place.  A missing role and
      the empty role are both falsy and are both written "". */
  class EmployeeInput {
    var employeeId: string
    var name: string
    var embedding: Vector
    var role: string

    constructor (employeeId: string, name: string, embedding: Vector, role: string)
      ensures this.employeeId == employeeId && this.name == name
      ensures this.embedding == embedding && this.role == role
    {
      this.employeeId := employeeId;
      this.name := name;
      this.embedding := embedding;
      this.role := role;
    }

    /** The legacy services' `x.embedding = normalize_vector(x.embedding).tolist()`:
        on a zero vector normalisation raises and the object is left as it
        was; otherwise the embedding is overwritten in place. */
    method NormalizeEmbedding(k: Kernel) returns (r: Result<()>)
      modifies this
      ensures employeeId == old(employeeId) && name == old(name) && role == old(role)
      ensures IsZero(old(embedding)) ==> r == Err(InvalidVector) && embedding == old(embedding)
      ensures !IsZero(old(embedding)) ==> r == Ok(()) && embedding == k.unitOf(old(embedding))
    {
      var normalized := Normalize(k, embedding);
      if normalized.Err? {
        return Err(normalized.failure);
      }
      embedding := normalized.value;
      r := Ok(());
    }
  }

  /** The element-wise projection to public views, in order. */
  function Views(es: seq<Employee>): (vs: seq<EmployeeView>)
    ensures |vs| == |es|
    ensures forall j :: 0 <= j < |es| ==> vs[j] == View(es[j])
  {
    seq(|es|, j requires 0 <= j < |es| => View(es[j]))
  }

  predicate UniqueIds(rows: seq<Employee>) {
    forall i, j :: 0 <= i < j < |rows| ==> rows[i].employeeId != rows[j].employeeId
  }

  predicate HasId(rows: seq<Employee>, employeeId: string) {
    exists i :: 0 <= i < |rows| && rows[i].employeeId == employeeId
  }

  class EmployeeTable {
    var rows: seq<Employee>

    ghost predicate Valid()
      reads this
    {
      UniqueIds(rows)
    }

    constructor ()
      ensures Valid() && rows == []
    {
      rows := [];
    }
  }

  /** Position of the row with the given primary key. */
  function IndexOf(rows: seq<Employee>, employeeId: string): (r: Option<nat>)
    ensures r.None? <==> !HasId(rows, employeeId)
    ensures r.Some? ==> r.value < |rows| && rows[r.value].employeeId == employeeId
  {
    if |rows| == 0 then None
    else if rows[0].employeeId == employeeId then Some(0)
    else
      match IndexOf(rows[1..], employeeId)
      case None =>
        assert forall j :: 1 <= j < |rows| ==> rows[j] == rows[1..][j - 1];
        None
      case Some(i) => Some(i + 1)
  }

  /** With unique ids, a row is found at its own position. */
  lemma IndexOfUnique(rows: seq<Employee>, i: nat)
    requires UniqueIds(rows) && i < |rows|
    ensures IndexOf(rows, rows[i].employeeId) == Some(i)
  {
  }

  /** get_employee_by_id: the row with that id, or EmployeeNotFound. */
  function GetEmployeeById(rows: seq<Employee>, employeeId: string): (r: Result<Employee>)
    ensures r.Err? <==> !HasId(rows, employeeId)
    ensures r.Err? ==> r.failure == EmployeeNotFound
    ensures r.Ok? ==> r.value in rows && r.value.employeeId == employeeId
  {
    match IndexOf(rows, employeeId)
    case None => Err(EmployeeNotFound)
    case Some(i) => Ok(rows[i])
  }

  // ---------------------------------------------------------------------
  // Case-insensitive prefix search (`ILIKE 'prefix%'`)
  // ---------------------------------------------------------------------

  /** ASCII case folding. */
  function Lower(c: char): char {
    if 'A' <= c <= 'Z' then (c - 'A' + 'a') as char else c
  }

  predicate StartsWithIgnoringCase(prefix: string, s: string) {
    |prefix| <= |s| && forall i :: 0 <= i < |prefix| ==> Lower(prefix[i]) == Lower(s[i])
  }

  predicate MatchesPrefix(e: Employee, prefix: string) {
    StartsWithIgnoringCase(prefix, e.name) || StartsWithIgnoringCase(prefix, e.employeeId)
  }

  /** get_employees_by_prefix: the rows whose name or id starts with the
      prefix, ignoring case, in table order. */
  function GetEmployeesByPrefix(rows: seq<Employee>, prefix: string): (r: seq<Employee>)
    ensures |r| <= |rows|
    ensures forall j :: 0 <= j < |r| ==> MatchesPrefix(r[j], prefix)
  {
    if |rows| == 0 then []
    else
      var rest := GetEmployeesByPrefix(rows[..|rows| - 1], prefix);
      var last := rows[|rows| - 1];
      if MatchesPrefix(last, prefix) then rest + [last] else rest
  }

  /** The search returns exactly the matching rows. */
  lemma {:induction false} GetEmployeesByPrefixExact(rows: seq<Employee>, prefix: string, e: Employee)
    ensures e in GetEmployeesByPrefix(rows, prefix) <==> e in rows && MatchesPrefix(e, prefix)
  {
    if |rows| > 0 {
      var init := rows[..|rows| - 1];
      GetEmployeesByPrefixExact(init, prefix, e);
      assert rows == init + [rows[|rows| - 1]];
    }
  }

  /** The empty prefix matches every row. */
  lemma {:induction false} EmptyPrefixMatchesAll(rows: seq<Employee>)
    ensures GetEmployeesByPrefix(rows, "") == rows
  {
    if |rows| > 0 {
      EmptyPrefixMatchesAll(rows[..|rows| - 1]);
      assert rows == rows[..|rows| - 1] + [rows[|rows| - 1]];
    }
  }
}
