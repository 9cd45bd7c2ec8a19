/**
  The time_entries table and its repository (data/time_entry_repository.py).

  The table is a class holding the rows in insertion order and the next value
  of the autoincrement id.  An entry is handed around by its position in the
  table, the model's stand-in for the ORM object.  The database clock
  (`func.now()`) is the `now` parameter, and whether the commit succeeds is the
  `commitOk` parameter: a failed commit is rolled back and raises
  DatabaseError, leaving the table as it was.
 */
module TimeEntryRepository {
  import opened Failures

  type Timestamp = int

  datatype TimeEntry = TimeEntry(id: nat, employeeId: string, clockIn: Timestamp, clockOut: Option<Timestamp>)

  /** An open entry of the employee: `clock_out IS NULL`. */
  predicate IsOpenFor(e: TimeEntry, employeeId: string) {
    e.employeeId == employeeId && e.clockOut.None?
  }

  predicate HasOpenEntry(entries: seq<TimeEntry>, employeeId: string) {
    exists i :: 0 <= i < |entries| && IsOpenFor(entries[i], employeeId)
  }

  /** The invariant the service layer keeps and the table does not enforce. */
  predicate AtMostOneOpenPerEmployee(entries: seq<TimeEntry>) {
    forall i, j :: 0 <= i < j < |entries| && entries[i].clockOut.None? && entries[j].clockOut.None?
      ==> entries[i].employeeId != entries[j].employeeId
  }

  /** The entries of one employee, in table order. */
  function EntriesOf(entries: seq<TimeEntry>, employeeId: string): (r: seq<TimeEntry>)
    ensures |r| <= |entries|
  {
    if |entries| == 0 then []
    else
      var rest := EntriesOf(entries[..|entries| - 1], employeeId);
      var last := entries[|entries| - 1];
      assert entries == entries[..|entries| - 1] + [last];
      if last.employeeId == employeeId then rest + [last] else rest
  }

  lemma {:induction false} EntriesOfAppend(entries: seq<TimeEntry>, e: TimeEntry, employeeId: string)
    ensures EntriesOf(entries + [e], employeeId)
         == EntriesOf(entries, employeeId) + (if e.employeeId == employeeId then [e] else [])
  {
    assert (entries + [e])[..|entries + [e]| - 1] == entries;
  }

  /** Replacing an entry by one of the same employee changes nobody else's entries. */
  lemma {:induction false} EntriesOfUpdate(entries: seq<TimeEntry>, i: nat, e: TimeEntry, other: string)
    requires i < |entries| && entries[i].employeeId == e.employeeId != other
    ensures EntriesOf(entries[i := e], other) == EntriesOf(entries, other)
  {
    var n := |entries|;
    var updated := entries[i := e];
    assert updated[n - 1].employeeId == other <==> entries[n - 1].employeeId == other;
    if i < n - 1 {
      assert updated[..n - 1] == entries[..n - 1][i := e];
      EntriesOfUpdate(entries[..n - 1], i, e, other);
      assert updated[n - 1] == entries[n - 1];
    } else {
      assert updated[..n - 1] == entries[..n - 1];
    }
  }

  /** get_open_entry: the position of an open entry of the employee, or None.
      The query's `.first()` has no ORDER BY; the model takes the first in
      table order. */
  function GetOpenEntry(entries: seq<TimeEntry>, employeeId: string): (r: Option<nat>)
    ensures r.None? <==> !HasOpenEntry(entries, employeeId)
    ensures r.Some? ==> r.value < |entries| && IsOpenFor(entries[r.value], employeeId)
    ensures r.Some? ==> forall j :: 0 <= j < r.value ==> !IsOpenFor(entries[j], employeeId)
  {
    if |entries| == 0 then None
    else if IsOpenFor(entries[0], employeeId) then Some(0)
    else
      match GetOpenEntry(entries[1..], employeeId)
      case None =>
        assert forall j :: 1 <= j < |entries| ==> entries[j] == entries[1..][j - 1];
        None
      case Some(i) => Some(i + 1)
  }

  /** A closed entry is never the open entry. */
  lemma ClosedEntryNeverOpen(entries: seq<TimeEntry>, employeeId: string, i: nat)
    requires i < |entries| && entries[i].clockOut.Some?
    ensures GetOpenEntry(entries, employeeId) != Some(i)
  {
  }

  /** Under the invariant the open entry is unique, so the first one is the one. */
  lemma OpenEntryUnique(entries: seq<TimeEntry>, employeeId: string, i: nat)
    requires AtMostOneOpenPerEmployee(entries)
    requires i < |entries| && IsOpenFor(entries[i], employeeId)
    ensures GetOpenEntry(entries, employeeId) == Some(i)
  {
  }

  class TimeEntryTable {
    var entries: seq<TimeEntry>
    var nextId: nat

    /** Ids are handed out in increasing order and are below the next one. */
    ghost predicate Valid()
      reads this
    {
      && (forall i, j :: 0 <= i < j < |entries| ==> entries[i].id < entries[j].id)
      && (forall i :: 0 <= i < |entries| ==> entries[i].id < nextId)
    }

    constructor ()
      ensures Valid() && entries == [] && nextId == 1
    {
      entries := [];
      nextId := 1;
    }
  }

  /** create_entry: appends an open entry with a fresh id; it does not look
      for an existing open entry (that rule belongs to the service). */
  method CreateEntry(db: TimeEntryTable, employeeId: string, now: Timestamp, commitOk: bool)
    returns (r: Result<TimeEntry>)
    requires db.Valid()
    modifies db
    ensures db.Valid()
    ensures !commitOk ==> r == Err(DatabaseError) && db.entries == old(db.entries) && db.nextId == old(db.nextId)
    ensures commitOk ==> r.Ok? && db.entries == old(db.entries) + [r.value]
    ensures r.Ok? ==> r.value == TimeEntry(old(db.nextId), employeeId, now, None)
    ensures r.Ok? ==> forall e :: e in old(db.entries) ==> e.id != r.value.id
  {
    if !commitOk {
      return Err(DatabaseError);
    }
    var entry := TimeEntry(db.nextId, employeeId, now, None);
    db.entries := db.entries + [entry];
    db.nextId := db.nextId + 1;
    r := Ok(entry);
  }

  /** close_entry: sets clock_out on the given entry and on no other; its id,
      employee and clock_in stay. */
  method CloseEntry(db: TimeEntryTable, i: nat, now: Timestamp, commitOk: bool)
    returns (r: Result<TimeEntry>)
    requires db.Valid() && i < |db.entries|
    modifies db
    ensures db.Valid() && db.nextId == old(db.nextId)
    ensures !commitOk ==> r == Err(DatabaseError) && db.entries == old(db.entries)
    ensures commitOk ==> r == Ok(old(db.entries)[i].(clockOut := Some(now)))
    ensures commitOk ==> db.entries == old(db.entries)[i := r.value]
  {
    if !commitOk {
      return Err(DatabaseError);
    }
    var closed := db.entries[i].(clockOut := Some(now));
    db.entries := db.entries[i := closed];
    r := Ok(closed);
  }
}
