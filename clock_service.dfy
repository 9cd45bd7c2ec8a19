/**
  The clock-in/clock-out state machine (services/clock_service.py) on top of
  the time-entry repository.  Per employee there are two states: off shift (no
  open entry) and on shift (an open entry).  The service reads the open entry
  and then either refuses or calls create_entry / close_entry; the invariant
  "at most one open entry per employee" holds only because of that check.
 */
module ClockService {
  import opened Failures
  import opened TimeEntryRepository

  datatype ClockStatus = ClockStatus(isClockedIn: bool, clockInTime: Option<Timestamp>)

  /** Appending an open entry for an employee who has none keeps the invariant. */
  lemma ClockInKeepsAtMostOneOpen(entries: seq<TimeEntry>, e: TimeEntry)
    requires AtMostOneOpenPerEmployee(entries)
    requires !HasOpenEntry(entries, e.employeeId)
    ensures AtMostOneOpenPerEmployee(entries + [e])
  {
    var s := entries + [e];
    forall i, j | 0 <= i < j < |s| && s[i].clockOut.None? && s[j].clockOut.None?
      ensures s[i].employeeId != s[j].employeeId
    {
      if j == |entries| {
        assert !IsOpenFor(entries[i], e.employeeId);
      } else {
        assert s[i] == entries[i] && s[j] == entries[j];
      }
    }
  }

  /** Closing any entry keeps the invariant. */
  lemma ClockOutKeepsAtMostOneOpen(entries: seq<TimeEntry>, i: nat, t: Timestamp)
    requires AtMostOneOpenPerEmployee(entries)
    requires i < |entries|
    ensures AtMostOneOpenPerEmployee(entries[i := entries[i].(clockOut := Some(t))])
  {
  }

  /** Under the invariant, closing the employee's open entry leaves them off shift. */
  lemma {:induction false} ClockOutLeavesNoOpenEntry(entries: seq<TimeEntry>, employeeId: string, t: Timestamp)
    requires AtMostOneOpenPerEmployee(entries)
    requires HasOpenEntry(entries, employeeId)
    ensures var i := GetOpenEntry(entries, employeeId).value;
            !HasOpenEntry(entries[i := entries[i].(clockOut := Some(t))], employeeId)
  {
    var i := GetOpenEntry(entries, employeeId).value;
    var s := entries[i := entries[i].(clockOut := Some(t))];
    forall j | 0 <= j < |s| ensures !IsOpenFor(s[j], employeeId) {
      if j != i {
        assert s[j] == entries[j];
      }
    }
  }

  /** clock_in: refuses when an open entry exists, otherwise creates one. */
  method ClockIn(db: TimeEntryTable, employeeId: string, now: Timestamp, commitOk: bool)
    returns (r: Result<TimeEntry>)
    requires db.Valid()
    modifies db
    ensures db.Valid()
    ensures HasOpenEntry(old(db.entries), employeeId) ==> r == Err(AlreadyClockedIn) && db.entries == old(db.entries)
    ensures !HasOpenEntry(old(db.entries), employeeId) && !commitOk ==> r == Err(DatabaseError) && db.entries == old(db.entries)
    ensures !HasOpenEntry(old(db.entries), employeeId) && commitOk ==>
      && r.Ok?
      && r.value.employeeId == employeeId && r.value.clockIn == now && r.value.clockOut.None?
      && db.entries == old(db.entries) + [r.value]
    ensures EntriesOf(db.entries, employeeId)
         == EntriesOf(old(db.entries), employeeId) + (if r.Ok? then [r.value] else [])
    ensures forall other :: other != employeeId ==> EntriesOf(db.entries, other) == EntriesOf(old(db.entries), other)
    ensures AtMostOneOpenPerEmployee(old(db.entries)) ==> AtMostOneOpenPerEmployee(db.entries)
  {
    var existing := GetOpenEntry(db.entries, employeeId);
    if existing.Some? {
      return Err(AlreadyClockedIn);
    }
    ghost var before := db.entries;
    r := CreateEntry(db, employeeId, now, commitOk);
    if r.Ok? {
      EntriesOfAppend(before, r.value, employeeId);
      forall other | other != employeeId
        ensures EntriesOf(db.entries, other) == EntriesOf(before, other)
      {
        EntriesOfAppend(before, r.value, other);
      }
      if AtMostOneOpenPerEmployee(before) {
        ClockInKeepsAtMostOneOpen(before, r.value);
      }
    }
  }

  /** clock_out: refuses when no open entry exists, otherwise closes it and
      creates nothing. */
  method ClockOut(db: TimeEntryTable, employeeId: string, now: Timestamp, commitOk: bool)
    returns (r: Result<TimeEntry>)
    requires db.Valid()
    modifies db
    ensures db.Valid()
    ensures |db.entries| == |old(db.entries)|
    ensures !HasOpenEntry(old(db.entries), employeeId) ==> r == Err(NotClockedIn) && db.entries == old(db.entries)
    ensures HasOpenEntry(old(db.entries), employeeId) && !commitOk ==> r == Err(DatabaseError) && db.entries == old(db.entries)
    ensures HasOpenEntry(old(db.entries), employeeId) && commitOk ==>
      var i := GetOpenEntry(old(db.entries), employeeId).value;
      && r == Ok(old(db.entries)[i].(clockOut := Some(now)))
      && db.entries == old(db.entries)[i := r.value]
    ensures forall other :: other != employeeId ==> EntriesOf(db.entries, other) == EntriesOf(old(db.entries), other)
    ensures AtMostOneOpenPerEmployee(old(db.entries)) ==> AtMostOneOpenPerEmployee(db.entries)
    ensures AtMostOneOpenPerEmployee(old(db.entries)) && r.Ok? ==> !HasOpenEntry(db.entries, employeeId)
  {
    var entry := GetOpenEntry(db.entries, employeeId);
    if entry.None? {
      return Err(NotClockedIn);
    }
    ghost var before := db.entries;
    r := CloseEntry(db, entry.value, now, commitOk);
    if r.Ok? {
      forall other | other != employeeId
        ensures EntriesOf(db.entries, other) == EntriesOf(before, other)
      {
        EntriesOfUpdate(before, entry.value, r.value, other);
      }
      if AtMostOneOpenPerEmployee(before) {
        ClockOutKeepsAtMostOneOpen(before, entry.value, now);
        ClockOutLeavesNoOpenEntry(before, employeeId, now);
      }
    }
  }

  /** get_clock_status: clocked in exactly when an open entry exists, with that
      entry's clock_in time; it only reads. */
  function GetClockStatus(entries: seq<TimeEntry>, employeeId: string): (s: ClockStatus)
    ensures s.isClockedIn <==> HasOpenEntry(entries, employeeId)
    ensures s.isClockedIn ==> exists i :: 0 <= i < |entries| && IsOpenFor(entries[i], employeeId)
                                          && s.clockInTime == Some(entries[i].clockIn)
    ensures !s.isClockedIn ==> s.clockInTime.None?
  {
    match GetOpenEntry(entries, employeeId)
    case None => ClockStatus(false, None)
    case Some(i) => ClockStatus(true, Some(entries[i].clockIn))
  }

  /** Under the invariant, the reported clock_in time is that of the one open entry. */
  lemma StatusReportsTheOpenEntry(entries: seq<TimeEntry>, employeeId: string, i: nat)
    requires AtMostOneOpenPerEmployee(entries)
    requires i < |entries| && IsOpenFor(entries[i], employeeId)
    ensures GetClockStatus(entries, employeeId) == ClockStatus(true, Some(entries[i].clockIn))
  {
    OpenEntryUnique(entries, employeeId, i);
  }

  /** A full shift: off shift, clock in, on shift since `tIn`, clock out, off
      shift again (with both commits succeeding). */
  method ShiftCycle(db: TimeEntryTable, employeeId: string, tIn: Timestamp, tOut: Timestamp)
    returns (before: ClockStatus, during: ClockStatus, after: ClockStatus)
    requires db.Valid() && AtMostOneOpenPerEmployee(db.entries)
    requires !HasOpenEntry(db.entries, employeeId)
    modifies db
    ensures db.Valid() && AtMostOneOpenPerEmployee(db.entries)
    ensures before == ClockStatus(false, None)
    ensures during == ClockStatus(true, Some(tIn))
    ensures after == ClockStatus(false, None)
  {
    before := GetClockStatus(db.entries, employeeId);
    var entered := ClockIn(db, employeeId, tIn, true);
    StatusReportsTheOpenEntry(db.entries, employeeId, |db.entries| - 1);
    during := GetClockStatus(db.entries, employeeId);
    var left := ClockOut(db, employeeId, tOut, true);
    after := GetClockStatus(db.entries, employeeId);
  }
}
