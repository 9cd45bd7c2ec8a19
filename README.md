# TradeTrack backend: clock, face decision and directory core in Dafny

This project models the sequential core of the TradeTrack backend, a
time-clock service that identifies employees by face embedding. It covers
three pieces:

- **The clock state machine.** `clock_in`, `clock_out` and `get_clock_status`
  run over the time-entry repository. Each employee is either off shift, with
  no open entry, or on shift, with one entry whose `clock_out` is null.
- **The face decisions.** `verify_face_embedding` (current and legacy)
  classifies errors in a fixed order and applies the threshold.
  `get_best_match` is a linear scan that picks the first candidate with the
  highest score.
- **The employee directory.** It includes the repository, the legacy
  `crud` module, and the registration and search services built on them.

Modules:

| file | module | source |
|---|---|---|
| failures.dfy | `Failures` | the exceptions the services raise, plus Option and Result |
| vectors.dfy | `Vectors` | core/vector_utils.py |
| time_entry_repository.dfy | `TimeEntryRepository` | data/time_entry_repository.py |
| clock_service.dfy | `ClockService` | services/clock_service.py |
| directory.dfy | `Directory` | the employees table and the read queries of data/employee_repository.py and crud.py |
| employee_repository.dfy | `EmployeeRepository` | the writes of data/employee_repository.py |
| crud.dfy | `Crud` | the writes of crud.py |
| face_match_service.dfy | `FaceMatchService` | services/face_match_service.py |
| verify_face.dfy | `VerifyFace` | services/verify_face.py and services/verify_face_service.py |
| register_employee.dfy | `RegisterEmployee` | services/register_employee.py |
| search_employees.dfy | `SearchEmployees` | services/search_employees.py |
| employee_service.dfy | `EmployeeService` | services/employee_service.py |
| employee_registration_service.dfy | `EmployeeRegistrationService` | services/employee_registration_service.py |
| face_registration_service.dfy | `FaceRegistrationService` | services/face_registration_service.py |

Modelling choices:

- **Tables.** Each table is a class with a sequence field in table order:
  `TimeEntryTable.entries` (plus the id counter) and `EmployeeTable.rows`.
  The repository functions are methods that take the table (the `db`
  session) and modify it.
- **Commit outcome.** Whether the commit succeeds is a `commitOk` parameter.
  A failed commit reports `DatabaseError` and leaves the table as it was.
- **Read-only queries.** These are functions of the table contents.
  `.first()` is the first match in table order.
- **Floating point.** numpy's division by the norm and its dot product are
  the two fields of an uninterpreted `Kernel` value. The only thing assumed
  about them is that normalising keeps the length, as `arr / norm` does.
  - Normalisation fails exactly when every component is zero. Over the
    reals, that is exactly when the norm is zero.
  - Scores are reals produced by that kernel.
- **Time.** The current time is a parameter.
- **Settings.** The threshold and the dimension are parameters.
- **Missing role.** A missing role and the empty role are both falsy and are
  both written `""`.

## Model

| member | source | states |
|---|---|---|
| Vectors.Normalize | core/vector_utils.py:4-28 | fails with InvalidVector exactly when the vector is zero (the empty vector included), otherwise returns the kernel's unit vector |
| Vectors.CosineSimilarity | core/vector_utils.py:31-56 | normalises both arguments itself: succeeds exactly when neither is zero and both have the same length (np.dot refuses unequal lengths), and is then the dot product of the two unit vectors |
| TimeEntryRepository.EntriesOfAppend | data/time_entry_repository.py:60-74 | appending an entry adds it to its own employee's history and to no other |
| TimeEntryRepository.EntriesOfUpdate | data/time_entry_repository.py:97-108 | replacing one entry by one with the same employee leaves every other employee's history unchanged |
| TimeEntryRepository.GetOpenEntry | data/time_entry_repository.py:24-47 | None exactly when the employee has no open entry; otherwise the position of the first entry of that employee whose clock_out is null |
| TimeEntryRepository.ClosedEntryNeverOpen | data/time_entry_repository.py:31-39 | an entry with a clock_out is never the one returned |
| TimeEntryRepository.OpenEntryUnique | data/time_entry_repository.py:31-39 | with at most one open entry per employee, the open entry returned is that one entry |
| TimeEntryRepository.CreateEntry | data/time_entry_repository.py:54-83 | appends exactly one entry with a fresh id, the given employee, the given clock_in and a null clock_out, with no open-entry check; a failed commit changes nothing and reports DatabaseError |
| TimeEntryRepository.CloseEntry | data/time_entry_repository.py:90-117 | sets clock_out on the given entry only, keeping its id, employee and clock_in and every other entry; a failed commit changes nothing and reports DatabaseError |
| ClockService.ClockInKeepsAtMostOneOpen | services/clock_service.py:34-44 | appending an open entry for an employee who has none keeps at most one open entry per employee |
| ClockService.ClockOutKeepsAtMostOneOpen | services/clock_service.py:70-79 | closing an entry keeps at most one open entry per employee |
| ClockService.ClockOutLeavesNoOpenEntry | services/clock_service.py:79-88 | under that invariant, closing the employee's open entry leaves the employee off shift |
| ClockService.ClockIn | services/clock_service.py:24-53 | with an open entry: AlreadyClockedIn and nothing added; otherwise exactly one open entry for the employee is appended and returned; other employees' histories are unchanged and the one-open-entry invariant is kept |
| ClockService.ClockOut | services/clock_service.py:60-88 | without an open entry: NotClockedIn and nothing changed; otherwise that entry is closed at `now` and returned, no entry is created, other employees' histories are unchanged, the invariant is kept and the employee is left off shift |
| ClockService.GetClockStatus | services/clock_service.py:95-107 | is_clocked_in exactly when an open entry exists, with the clock_in time of an open entry; otherwise no time; reads only |
| ClockService.StatusReportsTheOpenEntry | services/clock_service.py:99-107 | under the invariant, the reported clock_in time is that of the employee's one open entry |
| ClockService.ShiftCycle | services/clock_service.py:24-107 | status off shift, clock in, status on shift since the clock-in time, clock out, status off shift again |
| Directory.EmployeeInput.NormalizeEmbedding | services/employee_service.py:10-11 | a zero embedding fails with the object untouched; otherwise the embedding is overwritten in place by its normalisation and the other fields stay |
| Directory.IndexOf | data/employee_repository.py:67-90 | None exactly when no row has the id; otherwise a position holding that id |
| Directory.IndexOfUnique | data/employee_repository.py:78-82 | with unique ids, each row is found at its own position |
| Directory.GetEmployeeById | data/employee_repository.py:67-90 | EmployeeNotFound exactly when no row has the id; otherwise a row of the table with that id |
| Directory.GetEmployeesByPrefix | data/employee_repository.py:93-107 | returns no more rows than the table holds, each matching the prefix on name or id ignoring case |
| Directory.GetEmployeesByPrefixExact | data/employee_repository.py:100-103 | a row is in the result exactly when it is in the table and its name or id starts with the prefix ignoring case |
| Directory.EmptyPrefixMatchesAll | crud.py:70-77 | the empty prefix returns the whole table in order |
| Directory.Views | services/search_employees.py:40-47 | one view per record, in order, each holding exactly the record's id, name and role |
| EmployeeRepository.AppendKeepsUniqueIds | data/employee_repository.py:48-54 | inserting a row whose id is new keeps the primary key unique |
| EmployeeRepository.AddedRowIsFound | data/employee_repository.py:48-54 | a row just inserted is what get_employee_by_id returns for its id |
| EmployeeRepository.Construct | data/employee_repository.py:48 | `Employee(**payload)` succeeds exactly for a mapping, giving a row of its fields; a model object raises the TypeError |
| EmployeeRepository.AddEmployee | data/employee_repository.py:24-60 | a payload that is not a mapping fails with the TypeError before any write; a taken id gives EmployeeAlreadyExists with the table unchanged; a failed commit gives DatabaseError; otherwise the row is appended and is then found by its id |
| EmployeeRepository.UpdateEmployee | data/employee_repository.py:114-163 | an absent id gives EmployeeNotFound with nothing changed; otherwise only the fields passed are replaced, in that row only |
| EmployeeRepository.RemoveAtDropsOnlyThatId | data/employee_repository.py:174-178 | deleting a row removes its id and keeps every other row and unique ids |
| EmployeeRepository.RemoveEmployeeById | data/employee_repository.py:170-181 | an absent id gives EmployeeNotFound with nothing changed; otherwise the id is gone and every other row stays, in order |
| Crud.AddEmployee | crud.py:12-23 | a taken id is refused with EmployeeAlreadyExists before any insert; otherwise a row with every input field is stored and returned |
| Crud.UpdateEmployee | crud.py:26-37 | an absent id gives EmployeeNotFound; otherwise name, embedding and role are all replaced at once |
| Crud.RemoveEmployeeById | crud.py:40-55 | an absent id gives EmployeeNotFound; otherwise the row is deleted and a snapshot equal to it before the delete is returned |
| FaceMatchService.Peak | services/face_match_service.py:19-31 | the running maximum: at least -1.0, at least every score, and either -1.0 or one of the scores |
| FaceMatchService.FirstBestUnique | services/face_match_service.py:22-31 | at most one position is the first with the highest score |
| FaceMatchService.FirstBestExists | services/face_match_service.py:22-31 | when some score exceeds -1.0, a first best position exists and holds the maximum |
| FaceMatchService.GetBestMatch | services/face_match_service.py:12-36 | no candidates: NoEmployees; zero query, zero stored embedding or a stored embedding whose length differs from the query's: InvalidVector; a maximum below the threshold: FaceConfidenceTooLow, and at or above it success; a match is the first candidate with the highest score, with its id, name, role and score; no match only when every score is at most -1.0, so never when the threshold is above -1.0 |
| FaceMatchService.TieGoesToFirst | services/face_match_service.py:22-36 | the scan over two candidates with the same top score returns the earlier one |
| FaceMatchService.HigherLaterScoreWins | services/face_match_service.py:22-36 | the scan over a tie followed by a strictly higher score returns the later, higher candidate |
| VerifyFace.VerifyFaceEmbedding | services/verify_face.py:12-79 | invalid settings: ServerMisconfigured before anything else; wrong length: FaceConfidenceTooLow before the lookup; unknown id: EmployeeNotFound; zero query: FaceConfidenceTooLow even if the stored one is zero too; zero stored embedding: ServerMisconfigured; a stored embedding of another length: np.dot's error, unmapped; a score below the threshold: FaceConfidenceTooLow; success exactly when the score reaches the threshold, returning that positive score |
| VerifyFace.ThresholdIsInclusive | services/verify_face.py:73-79 | an accepted score stays accepted under any lower valid threshold, so a score equal to the threshold is accepted |
| VerifyFace.LegacyVerifyFaceEmbedding | services/verify_face_service.py:10-21 | unknown id: EmployeeNotFound before any normalisation; a zero query, a zero stored embedding or a stored embedding of another length: the ValueError, unmapped; a score below the threshold: FaceConfidenceTooLow; success, with no value, exactly when the score reaches the threshold |
| VerifyFace.LegacyAgreesOnAcceptance | services/verify_face_service.py:10-21 | under valid settings and the expected length, the legacy and the current service accept exactly the same requests |
| RegisterEmployee.RoleOrDefault | services/register_employee.py:60 | never empty; the input role when it is non-empty, otherwise "employee" |
| RegisterEmployee.BuildPayload | services/register_employee.py:40-61 | fails with InvalidVector exactly for a zero embedding; otherwise the same id and name, the normalised embedding and a non-empty role that is the input role when one is given |
| RegisterEmployee.RegisterEmployeeAsWritten | services/register_employee.py:7-71 | the input object is not mutated and the table never changes; a zero embedding fails before the repository is reached; every other input fails with the TypeError of unpacking the model object |
| RegisterEmployee.ModelObjectIsRefusedWhereMappingIsAccepted | services/register_employee.py:58-64 | the same payload is refused by the repository as a model object and accepted as a mapping |
| RegisterEmployee.RegisterEmployee | services/register_employee.py:7-71 | with the payload passed as a mapping: the input object is not mutated; a zero embedding fails before the repository is reached; a duplicate id gives EmployeeAlreadyExists; on success the payload is stored, is found by its id, and its public view is returned |
| RegisterEmployee.RegisteredRoleIsDefaultedOnlyWhenEmpty | services/register_employee.py:58-61 | the payload role is "employee" for an empty input role and the input role otherwise |
| SearchEmployees.SearchEmployeesByPrefix | services/search_employees.py:7-47 | same length and order as the prefix query, each element the id, name and role of the corresponding row |
| SearchEmployees.SearchFindsExactlyTheMatches | services/search_employees.py:38-47 | a view is in the result exactly when some row matching the prefix projects to it |
| SearchEmployees.NoMatchesGiveEmptyResult | services/search_employees.py:38-47 | no matching row gives an empty list |
| SearchEmployees.EmptyPrefixListsEveryone | services/search_employees.py:38-47 | the empty prefix lists every employee's view in table order |
| EmployeeService.RegisterEmployee | services/employee_service.py:9-13 | a zero embedding fails before the directory is called and nothing changes; otherwise the caller's embedding is overwritten with the normalised one even if the insert then fails; a duplicate id gives EmployeeAlreadyExists; success returns nothing and stores the input fields |
| EmployeeRegistrationService.RegisterEmployee | services/employee_registration_service.py:7-16 | a zero embedding fails before anything is stored; otherwise the embedding is overwritten in place, a duplicate id gives EmployeeAlreadyExists, and success returns the id, name and role of the created row |
| FaceRegistrationService.RegisterFace | services/face_registration_service.py:8-12 | a zero embedding fails before anything is stored; otherwise the embedding is overwritten in place, a duplicate id gives EmployeeAlreadyExists, and success returns exactly the row the directory created |

## Findings

| source | as written | input that shows it | evidently intended | confidence | as-written member | corrected member |
|---|---|---|---|---|---|---|
| services/register_employee.py:58-64 | the payload is the Pydantic object `model_copy` returns, and data/employee_repository.py:48 unpacks it with `Employee(**payload)`, which needs a mapping and raises TypeError before `db.add` | any EmployeeInput with a non-zero embedding and a new id: nothing is stored, and the caller gets a TypeError instead of the new employee | hand the repository the mapping of the payload's fields (`model_dump()`), the dict its docstring and tests/test_register_employee.py:58 expect | high; not executed | RegisterEmployee.RegisterEmployeeAsWritten | RegisterEmployee.RegisterEmployee |

## Left out

- Floating point: the norm, the division and the dot product are uninterpreted, except that normalising keeps the length. Nothing is proved about unit length or the range of the cosine. NaN and infinite components are not modelled; a NaN norm does not hit the zero check in the source.
- VerifyFace.VerifyFaceEmbedding: the number of normalisations on the success path (two, query then stored) is not stated. The model fixes only their order, through the order of the error cases.
- Database errors on reads are not modelled. The SQLAlchemy errors that get_open_entry, get_employee_by_id and get_employees_by_prefix turn into DatabaseError are absent; reads always succeed in the model.
- Commit, refresh and rollback mechanics are reduced to the `commitOk` outcome. On a failed commit the table is unchanged.
- EmployeeRepository.AddEmployee: a CHECK-constraint violation, such as a role outside the allowed set, also raises IntegrityError and would be reported as EmployeeAlreadyExists. The model does not know the constraints, so only a duplicate id gives that error.
- ClockService.ClockIn: the foreign key from time_entries.employee_id to employees (data/models.py:108) is not modelled. In the source, clocking in an unknown employee fails at commit, and create_entry reports DatabaseError. The model creates the entry whenever the commit outcome is a success. TimeEntryRepository.CreateEntry has the same gap.
- EmployeeRegistrationService.RegisterEmployee: its input type FaceRecord is imported but defined in no source file. The model assumes it has the four EmployeeInput fields.
- Database CHECK constraints and the Pydantic `min_items` validation are not modelled.
- The default role follows the code: `"employee"`, lowercase (services/register_employee.py:60). tests/test_register_employee.py:65 expects `"Employee"`. migrations/versions/e4166470b24a_capitalize_role_values.py:27-31 allows only `'Admin'` and `'Employee'`, so the default as written would be refused by the migrated schema.
- crud.get_all_employees, which get_best_match calls, is not defined in crud.py. The candidate list is a parameter, in table order.
- crud.get_employee_by_id and crud.get_employees_by_prefix are the same queries as the repository's. Each is modelled once, as Directory.GetEmployeeById and Directory.GetEmployeesByPrefix.
- EmployeeService.search_employees_by_prefix (services/employee_service.py:15-23) is the same projection over the same query as services/search_employees.py. It is SearchEmployees.SearchEmployeesByPrefix.
- Directory.GetEmployeesByPrefix: `ILIKE` treats `%` and `_` in the prefix as wildcards and `\` as the escape character, and folds case by the database's locale. The model matches the prefix literally with ASCII case folding.
- Concurrency is not modelled: two simultaneous clock-ins can both pass the open-entry check, and no database constraint stops them. The model is sequential.
- Timestamps (`func.now()` and server defaults) are input values, not a clock.
- HTTP routing, rate limiting, the admin-key check, settings loading, logging and the raw-SQL modules are outside this model.
