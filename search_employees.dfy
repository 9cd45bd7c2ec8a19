/**
  Employee search (services/search_employees.py): the repository's prefix
  query projected to public views, one per row, in the same order.
 */
module SearchEmployees {
  import opened Directory

  /** search_employees_by_prefix. */
  function SearchEmployeesByPrefix(rows: seq<Employee>, prefix: string): (r: seq<EmployeeView>)
    ensures |r| == |GetEmployeesByPrefix(rows, prefix)|
    ensures forall j :: 0 <= j < |r| ==> r[j] == View(GetEmployeesByPrefix(rows, prefix)[j])
  {
    Views(GetEmployeesByPrefix(rows, prefix))
  }

  /** A view is in the result exactly when some matching row projects to it. */
  lemma SearchFindsExactlyTheMatches(rows: seq<Employee>, prefix: string, v: EmployeeView)
    ensures v in SearchEmployeesByPrefix(rows, prefix)
        <==> exists e :: e in rows && MatchesPrefix(e, prefix) && View(e) == v
  {
    var found := GetEmployeesByPrefix(rows, prefix);
    var r := SearchEmployeesByPrefix(rows, prefix);
    if v in r {
      var j :| 0 <= j < |r| && r[j] == v;
      GetEmployeesByPrefixExact(rows, prefix, found[j]);
    }
    if exists e :: e in rows && MatchesPrefix(e, prefix) && View(e) == v {
      var e :| e in rows && MatchesPrefix(e, prefix) && View(e) == v;
      GetEmployeesByPrefixExact(rows, prefix, e);
      var j :| 0 <= j < |found| && found[j] == e;
      assert r[j] == v;
    }
  }

  /** No matching row, no result. */
  lemma NoMatchesGiveEmptyResult(rows: seq<Employee>, prefix: string)
    requires forall j :: 0 <= j < |rows| ==> !MatchesPrefix(rows[j], prefix)
    ensures SearchEmployeesByPrefix(rows, prefix) == []
  {
    if |GetEmployeesByPrefix(rows, prefix)| > 0 {
      var e := GetEmployeesByPrefix(rows, prefix)[0];
      GetEmployeesByPrefixExact(rows, prefix, e);
    }
  }

  /** With the empty prefix every row is listed, in table order. */
  lemma EmptyPrefixListsEveryone(rows: seq<Employee>)
    ensures SearchEmployeesByPrefix(rows, "") == Views(rows)
  {
    EmptyPrefixMatchesAll(rows);
  }
}
