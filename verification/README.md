# Gorica clinic scheduler, modelled in Dafny

Gorica is a scheduling system for a small clinic with two services: the doctor and the
esthetician. Its Express backend keeps patients, appointments, physician reports and users in
PostgreSQL and serves a REST API behind JWT authentication. Its React calendar shows the day's
15-minute slots, books appointments through that API, and prints reports.

This project models the decision logic of that system and proves properties of the model.

- **Appointments.** The booking engine of `routes/appointments.js`. It normalises dates and times,
  applies the exact-slot rule (a cancelled holder is deleted to reclaim the slot, an active one
  refuses the booking), and runs the three-clause overlap test among the active appointments of
  the same day and service. It also covers the partial update built by pushing `SET` items with a
  running placeholder counter, and soft and hard delete.
- **Reports and patients.** The table operations of `routes/reports.js` (at most one report per
  appointment, COALESCE on the patient name, upsert, the filtered list newest first) and of
  `routes/patients.js` (required names, a full-row update, deletion refused while appointments
  refer to the patient, and the search ordered by name).
- **Authentication.** Registration and login in `routes/auth.js`, token extraction and the role
  gate in `middleware/auth.js`, the password validator and strength score, and the CORS origin
  rule and fallback routing of `server.js`.
- **Migration splitters.** The SQL statement splitters of the migration scripts: the
  character-level scanner of `migrate.js`, the line-based splitter shared word for word by
  `add_users.js`, `fix_unique_constraint.js` and `add_service_type.js`, and the variant in
  `add_physician_reports.js`.
- **Calendar helpers.** Time slots and date formats, the API data transformers, the store's
  actions, translation lookup, appointment types and the word wrap of the PDF text.

## How it is modelled

- Each table is a `map<nat, Row>` field of a class, with a serial counter `nextId`.
  - The class's methods (`Create`, `Update`, `Delete`, ...) change the table step by step as the
    handlers do, and each method's `ensures` ties its outcome and new table to a specification
    function (`CreateSpec`, `UpdateSpec`, ...).
  - Lemmas about those functions state the HTTP statuses, the error cases and the invariants,
    such as disjoint active appointments or one report per appointment.
  - Where a handler reads a row "first", the model takes the row with the smallest id.
- Loops that update variables are methods with loop invariants, each proved equal to a pure
  function. This covers the splitters, the slot generator, getTranslation and the wrap loop.
- The password checks and the update builder have no loop: they push messages, increment a score
  or push `SET` items one statement after another. They are straight-line methods, each proved
  equal to a pure function.
- Outside code is passed in as parameters: bcrypt's comparison, JWT verification, the API's
  replies, `new Date()`, the canvas measurement and the translation table.
- A JavaScript string is a `seq<char>`. A missing value is `None`, so `Some("")` is the falsy
  empty string. JavaScript truthiness is `Present`.
- A JavaScript Date is a record of local year, month (from 0), day, hour, minute and second, and
  `None` is an Invalid Date.

Where the behaviour this system is documented to have and its code disagree, the model follows the code:

- An update passes a supplied `date` to the storage as it is. The handler neither normalises nor
  validates it (`Appointments.UpdateStoresUnvalidatedDate`). In PostgreSQL the DATE column then
  casts it, and a text it cannot read is refused with code 22007, which the handler's catch turns
  into 400. The model stores the text, as listed under "Left out".
- The overlap check on update runs when a date or time is supplied, not only when one changes. It
  does not run for an update that only changes the status, so a cancelled appointment can be
  reopened over another one (`Appointments.StatusUpdateReopensOverlap`).

## Model

| member | source | states |
|---|---|---|
| Appointments.NormalizeDatePrefix | gorica-backend/routes/appointments.js:177-197 | the normalised date is the text before the first `T`: it has no `T`, it is a prefix of the input, normalising again changes nothing, and a `YYYY-MM-DD` date is kept as it is |
| Appointments.NormalizeTimeCanonical | gorica-backend/routes/appointments.js:200-222 | a time the regex accepts normalises to `HH:MM:SS` with the same hour and minute; `HH:MM` gains `:00`, a time with seconds is kept, and normalising twice changes nothing |
| Appointments.CanonicalTimeOrder | gorica-backend/routes/appointments.js:272-278 | on `HH:MM:SS` times, comparing the text compares seconds since midnight, and equal texts are equal times |
| Appointments.ThreeClauseIsIntersection | gorica-backend/routes/appointments.js:274-278 | every pair of intersecting intervals satisfies the three-clause test, and for non-empty intervals the test is exactly `s < end && start < e` |
| Appointments.FirstMatch | gorica-backend/routes/appointments.js:233-238 | the row a query returns first matches it, no row with a smaller id matches, and no answer means no row below the bound matches |
| Appointments.FindNoneMeansNoMatch | gorica-backend/routes/appointments.js:282 | with ids below the serial counter, an empty lookup means that no row of the table matches |
| Appointments.StorageErrorStatus | gorica-backend/routes/appointments.js:371-406 | storage code `23505` gives 409; `23503`, `23502`, `22007` and `22008` give 400; every other code gives 500 |
| Appointments.PatientLabelCases | gorica-backend/routes/appointments.js:258 | a missing patient, or one with both names empty, is shown as `Unknown`; names without surrounding blanks are shown as `first last` |
| Appointments.ServiceTypePrecedence | gorica-backend/routes/appointments.js:152 | a supplied service type wins on create and on update; without one, update keeps the stored type where create takes the caller's role; with neither, create uses `doctor` (update side: line 454) |
| Appointments.CreateRequiresFields | gorica-backend/routes/appointments.js:170-174 | create answers 400 with the table unchanged exactly when one of patient_id, date, start_time, end_time and appointment_type is missing or empty |
| Appointments.CreateErrorsKeepTable | gorica-backend/routes/appointments.js:170-295 | every rejection except the overlap one leaves the table unchanged; an overlap rejection removes at most one row and changes no other row; the status is 201 exactly for a creation, 404 exactly for a missing patient, 409 exactly for the two slot conflicts, and 400 exactly for a missing field, a malformed date or time, or a date that is no day of the calendar (storage code 22008) |
| Appointments.CreatedRowIsCanonical | gorica-backend/routes/appointments.js:305-318 | a created row is stored under the old serial, with a `YYYY-MM-DD` date that is a day of the Gregorian calendar, `HH:MM:SS` times, an existing patient and a non-empty status and service type; every other row is unchanged |
| Appointments.CreatedRowDoesNotOverlap | gorica-backend/routes/appointments.js:267-295 | after a successful create, no other active row of the same date and service type overlaps the new row under the three clauses |
| Appointments.InsertKeepsActiveDisjoint | gorica-backend/routes/appointments.js:267-318 | inserting a row that the three clauses do not catch against any active row of its date and service type keeps active rows pairwise disjoint |
| Appointments.CreateKeepsActiveDisjoint | gorica-backend/routes/appointments.js:233-318 | create keeps active appointments of the same date and service type pairwise disjoint, provided the requested interval is not empty |
| Appointments.ReclaimedRowStaysDeleted | gorica-backend/routes/appointments.js:252-256 | when the first row holding the slot is cancelled, it is deleted, and it stays deleted whether the request is then created or rejected for an overlap (lines 282-295) |
| Appointments.ActiveHolderRejects | gorica-backend/routes/appointments.js:257-262 | an active holder of the exact slot rejects the request with 409 naming its patient, and the table is unchanged |
| Appointments.CreateConflictNamesHolder | gorica-backend/routes/appointments.js:257-295 | a create answered with a slot conflict carries the error text of `ConflictMessage`, naming the patient (or `Unknown`) of a stored active row that causes it: for the exact slot a row of the same date, start and service; for an overlap a row of the same date and service caught by the three clauses, whose start and end the text repeats |
| Appointments.CreateOnFreeDay | gorica-backend/routes/appointments.js:224-318 | on a day with no rows, a valid request for a day of the calendar and an existing patient is created under the next serial with the normalised row |
| Appointments.ZeroLengthAppointmentAccepted | gorica-backend/routes/appointments.js:200-210 | start is never compared with end: a request from 10:00 to 10:00 is created, leaving an active row whose interval is empty |
| Appointments.SuppliedTime | gorica-backend/routes/appointments.js:435-445 | an update time is supplied exactly when it is non-empty, and then it is not empty after normalising |
| Appointments.WriteSuppliedIsPatch | gorica-backend/routes/appointments.js:477-522 | writing the supplied items changes exactly the supplied fields of the row and nothing else |
| Appointments.SuppliedEmpty | gorica-backend/routes/appointments.js:482-525 | an update supplies no item exactly when every field is absent, and then it answers 400 |
| Appointments.NumberedInOrder | gorica-backend/routes/appointments.js:478-521 | item k of the `SET` list names the k-th supplied column with placeholder `$k+1`, which reads the k-th parameter |
| Appointments.BuildUpdate | gorica-backend/routes/appointments.js:478-521 | the pushes with a running counter build exactly the numbered `SET` list and the parameter list of the supplied fields, in the handler's order |
| Appointments.PushIfSupplied | gorica-backend/routes/appointments.js:482-486 | one guarded push adds the column's item, numbered with the running counter, only when the field is supplied |
| Appointments.SuppliedInOrder | gorica-backend/routes/appointments.js:482-521 | the supplied items are patient_id, date, start_time, end_time, appointment_type, notes, status, service_type, each present only when supplied |
| Appointments.ApplyNumbered | gorica-backend/routes/appointments.js:527-533 | the numbered `SET` list, with the id appended as the last parameter, writes exactly the items it was built from |
| Appointments.UpdateEffects | gorica-backend/routes/appointments.js:429-533 | update: an absent id is 404; every rejection leaves the table as it was; success changes only the supplied fields of that row; an overlap rejection needs a supplied date or time; "No fields" needs every field absent; a `patient_id` naming no patient is refused by the foreign key (23503, answered 400), so a success names an existing patient and a table without dangling patients keeps none |
| Appointments.UpdateRejectsOverlap | gorica-backend/routes/appointments.js:447-473 | with serial ids, an update of an existing row is 409 exactly when a date or time is supplied and another active row of the resulting date and service type meets the resulting interval under the three clauses |
| Appointments.UpdateKeepsActiveDisjoint | gorica-backend/routes/appointments.js:447-533 | an update that supplies a date or time keeps active rows disjoint, when the written interval is non-empty and the date and service type written are the ones checked |
| Appointments.UpdateOverlapExcludesSelf | gorica-backend/routes/appointments.js:456-468 | the overlap re-check of an update never reports the row being updated |
| Appointments.StatusUpdateReopensOverlap | gorica-backend/routes/appointments.js:448 | a status-only update skips the overlap check: re-opening a cancelled row can leave two active rows on the same slot |
| Appointments.UpdateStoresUnvalidatedDate | gorica-backend/routes/appointments.js:486-490 | an update stores the date it is given: it is not cut at `T` and not checked against `YYYY-MM-DD` |
| Appointments.DeleteEffects | gorica-backend/routes/appointments.js:617-634 | a hard delete removes exactly that row; a soft delete sets only that row's status to `cancelled`; a missing row is 404 either way; both keep active rows disjoint |
| Appointments.FormatStoredDateShape | gorica-backend/routes/appointments.js:66-76 | a stored date object with a four-digit year comes back as `YYYY-MM-DD`, a timestamp string is cut at `T`, and formatting twice is formatting once |
| Appointments.DashedDigits | gorica-backend/routes/appointments.js:69-72 | year, month and day digits joined by dashes hold no `T`, and in widths 4, 2 and 2 they form a `YYYY-MM-DD` date |
| Appointments.AppointmentStore.Create | gorica-backend/routes/appointments.js:147-358 | POST changes the table exactly as the create specification says (checks, reclaim, overlap, insert) and keeps ids below the serial counter |
| Appointments.AppointmentStore.Update | gorica-backend/routes/appointments.js:411-533 | PUT changes the table exactly as the update specification says (404, overlap re-check, foreign-key refusal, dynamic `UPDATE`) |
| Appointments.AppointmentStore.Delete | gorica-backend/routes/appointments.js:612-634 | DELETE removes the row or sets it to `cancelled` exactly as the delete specification says |
| Appointments.Seconds | gorica-backend/routes/appointments.js:200-222 | an `HH:MM:SS` time is a moment of the day, below 24 hours |
| Appointments.LexBelowIsEarlier | gorica-backend/routes/appointments.js:274-276 | an `HH:MM:SS` time below another as text is earlier in the day |
| Appointments.Find | gorica-backend/routes/appointments.js:233-238 | a row a query finds matches it |
| Appointments.PatientLabel | gorica-backend/routes/appointments.js:258 | the name shown in a conflict is never empty |
| Appointments.CreateServiceType | gorica-backend/routes/appointments.js:152 | the service type of a new appointment is never empty |
| Appointments.UpdateServiceType | gorica-backend/routes/appointments.js:454 | the service type checked on update is never empty |
| Appointments.Numbered | gorica-backend/routes/appointments.js:478-521 | one numbered assignment per supplied column |
| Appointments.AssignmentsArePairs | gorica-backend/routes/appointments.js:478-533 | assignments that read each column's value through its placeholder write exactly the supplied pairs |
| Appointments.SubmapKeepsActiveDisjoint | gorica-backend/routes/appointments.js:612-634 | removing rows keeps the active appointments disjoint |
| Appointments.AddOneKeepsActiveDisjoint | gorica-backend/routes/appointments.js:267-318 | adding one row that overlaps no active row of its day and service keeps the active appointments disjoint |
| Appointments.AppointmentStore.constructor | gorica-backend/routes/appointments.js:147-358 | the table starts empty, with the serial counter at 1 |
| Reports.StatusCode | gorica-backend/routes/reports.js:152-215 | the status of an outcome: 201 exactly for a created report, 404 exactly for a missing appointment or report |
| Reports.Nulled | gorica-backend/routes/reports.js:200-210 | each of the ten sections is stored as the value or null: null when falsy, the value otherwise |
| Reports.NulledIdempotent | gorica-backend/routes/reports.js:272-283 | storing already stored sections again changes nothing |
| Reports.CreatedBy | gorica-backend/routes/reports.js:211 | `created_by` is the caller's id, or null when there is none or it is 0 |
| Reports.RewriteEffects | gorica-backend/routes/reports.js:256-285 | a rewrite keeps `patient_name` unless a non-empty one is sent (COALESCE), replaces every section (absent ones become null), keeps appointment, author and creation time, and rewriting twice is rewriting once |
| Reports.FirstReportFor | gorica-backend/routes/reports.js:169-172 | the report found for an appointment belongs to it, and none is found exactly when no report belongs to it |
| Reports.CreateEffects | gorica-backend/routes/reports.js:152-215 | create answers 400 when appointment_id or patient_name is missing, then 404 for an absent appointment, then 409 when it already has a report; only success changes the table, inserting one row under a fresh id with falsy fields stored as null |
| Reports.OperationsKeepOnePerAppointment | gorica-backend/routes/reports.js:168-178 | create, PUT by id, upsert and delete each keep at most one report per appointment |
| Reports.InsertKeepsOne | gorica-backend/routes/reports.js:181-213 | inserting a report for an appointment without one keeps at most one report per appointment |
| Reports.UpsertLeavesExactlyOne | gorica-backend/routes/reports.js:314-398 | after an upsert for an existing appointment, that appointment has exactly one report, holding the sections sent |
| Reports.UpsertUpdatesLikePut | gorica-backend/routes/reports.js:325-360 | where the appointment already has a report, the upsert is the PUT of that report |
| Reports.UpsertAcceptsMissingName | gorica-backend/routes/reports.js:364-398 | unlike create, the upsert inserts a report without a patient name and stores the name as null |
| Reports.UpdateDeleteEffects | gorica-backend/routes/reports.js:245-285 | PUT by id is 404 exactly for an absent id and otherwise changes only that row; delete is 404 exactly for an absent id and otherwise removes exactly that row (lines 411-419) |
| Reports.FilterMeaning | gorica-backend/routes/reports.js:25-49 | the `AND` of the built conditions, each reading its parameter by placeholder, holds exactly when the report passes every supplied filter |
| Reports.BuildFilter | gorica-backend/routes/reports.js:25-45 | the pushes with a running counter build the conditions and parameters whose conjunction is the filter |
| Reports.ListedIds | gorica-backend/routes/reports.js:17-49 | the listed ids are exactly the reports that pass the filters and join an appointment and a patient, each once, in increasing order |
| Reports.InsertNewestSorted | gorica-backend/routes/reports.js:51 | inserting a report into a newest-first list keeps it newest first |
| Reports.SortNewest | gorica-backend/routes/reports.js:51 | `ORDER BY created_at DESC`: the result is a permutation of its input, newest first |
| Reports.ListIsSortedSelection | gorica-backend/routes/reports.js:7-54 | the list holds every report that passes the filters exactly once and no other, newest first |
| Reports.ReportStore.Create | gorica-backend/routes/reports.js:134-215 | POST changes the table exactly as the create specification says, keeping ids below the serial counter |
| Reports.ReportStore.Update | gorica-backend/routes/reports.js:228-287 | PUT by id changes the table exactly as the update specification says |
| Reports.ReportStore.Upsert | gorica-backend/routes/reports.js:296-398 | PUT by appointment updates its report or inserts one, exactly as the upsert specification says |
| Reports.ReportStore.Delete | gorica-backend/routes/reports.js:408-423 | DELETE removes exactly that report, or answers 404 |
| Reports.InsertNewest | gorica-backend/routes/reports.js:51 | inserting one id adds exactly that id to the list |
| Reports.ReportStore.constructor | gorica-backend/routes/reports.js:134-215 | the table starts empty, with the serial counter at 1 |
| Patients.WriteErrorStatus | gorica-backend/routes/patients.js:96-115 | on create a unique violation (23505) is 409, a not-null violation (23502) is 400, anything else 500 |
| Patients.DeleteErrorStatus | gorica-backend/routes/patients.js:207-217 | on delete a foreign-key violation (23503) is 400, anything else 500 |
| Patients.NewPatient | gorica-backend/routes/patients.js:78-83 | the stored row carries both names, and phone, date of birth and notes are null exactly when the value sent is falsy |
| Patients.CreateEffects | gorica-backend/routes/patients.js:70-86 | create is 400 exactly when a name is falsy, leaving the table unchanged; otherwise it inserts one row under a fresh id |
| Patients.UpdateEffects | gorica-backend/routes/patients.js:119-140 | update is 400 on a falsy name even for an absent id, then 404 for an absent id; a success replaces only that row, by the body alone |
| Patients.UpdateIsNotPartial | gorica-backend/routes/patients.js:128-133 | an update without phone, date of birth or notes clears them, whatever was stored |
| Patients.DeleteEffects | gorica-backend/routes/patients.js:174-196 | delete is refused exactly while some appointment names the patient, then 404 for an absent row; a success removes exactly that row and leaves no appointment naming a missing patient |
| Patients.NameOrderTotal | gorica-backend/routes/patients.js:20 | `ORDER BY last_name, first_name` orders any two patients one way or the other |
| Patients.NameOrderTransitive | gorica-backend/routes/patients.js:20 | that order is transitive |
| Patients.SelectedIds | gorica-backend/routes/patients.js:12-27 | the ids of exactly the patients the search selects, each once, in increasing order |
| Patients.InsertByName | gorica-backend/routes/patients.js:20 | inserting one id adds exactly that id to the list |
| Patients.InsertByNameSorted | gorica-backend/routes/patients.js:20 | inserting into a list sorted by name keeps it sorted |
| Patients.ConsByName | gorica-backend/routes/patients.js:20 | a patient ordered before every patient of a sorted list can head it |
| Patients.SortByName | gorica-backend/routes/patients.js:20-26 | the result is a permutation of its input, sorted by last and then first name |
| Patients.ListIsSortedSelection | gorica-backend/routes/patients.js:7-30 | the list holds each patient whose first name, last name or phone contains the search term, ignoring case, exactly once and no other, sorted by name; without a truthy term it holds every patient |
| Patients.SameElementsSameSize | gorica-backend/routes/patients.js:24-26 | a strictly increasing list of exactly the ids of a table has the table's size |
| Patients.DistinctCount | gorica-backend/routes/patients.js:24-26 | no id is listed twice |
| Patients.PatientStore.constructor | gorica-backend/routes/patients.js:70-86 | the table starts empty, with the serial counter at 1 |
| Patients.PatientStore.Create | gorica-backend/routes/patients.js:70-116 | POST changes the table exactly as the create specification says |
| Patients.PatientStore.Update | gorica-backend/routes/patients.js:119-170 | PUT changes the table exactly as the update specification says |
| Patients.PatientStore.Delete | gorica-backend/routes/patients.js:174-218 | DELETE changes the table exactly as the delete specification says |
| AuthRoutes.AssignedRole | gorica-backend/routes/auth.js:39-40 | the stored role is always a known one: the requested role when it is `doctor` or `esthetician`, `doctor` otherwise |
| AuthRoutes.FirstByUsername | gorica-backend/routes/auth.js:112-116 | the lookup finds the lowest id holding the username, and finds none exactly when no user has it |
| AuthRoutes.StatusCode | gorica-backend/routes/auth.js:13-140 | 201 exactly for a registration, 200 for a login, 409 for a taken username, 401 for bad credentials or an inactive account |
| AuthRoutes.RegisterEffects | gorica-backend/routes/auth.js:13-85 | a refused registration leaves the users unchanged; an accepted one has a username of at least three characters and a password the validator accepts, and adds exactly one active user with the hash and the assigned role under a fresh id |
| AuthRoutes.RegisterRefusesTakenUsername | gorica-backend/routes/auth.js:43-52 | 409 exactly when the earlier checks pass and some user already has the username |
| AuthRoutes.RegisterKeepsUsernamesUnique | gorica-backend/routes/auth.js:43-66 | registration keeps usernames unique |
| AuthRoutes.LoginSucceedsOnlyForMatchingActiveUser | gorica-backend/routes/auth.js:100-160 | a login succeeds only for an active user with that username whose stored hash matches the password, and answers with that user's public fields |
| AuthRoutes.UnknownUserLooksLikeWrongPassword | gorica-backend/routes/auth.js:118-140 | an unknown username and a wrong password get the same 401 answer |
| AuthRoutes.InactiveRefusedBeforePassword | gorica-backend/routes/auth.js:127-134 | an inactive account is refused before the password is compared |
| AuthRoutes.RegisterThenLogin | gorica-backend/routes/auth.js:13-160 | a user just registered logs in with the same password and gets the same public fields |
| AuthRoutes.UserStore.constructor | gorica-backend/routes/auth.js:13-85 | the users table starts empty, with the serial counter at 1 |
| AuthRoutes.UserStore.Register | gorica-backend/routes/auth.js:13-85 | POST /register changes the users exactly as the registration specification says |
| Session.Payload | gorica-backend/middleware/auth.js:11-24 | the token payload carries the user's id, username, role and name |
| Session.HeaderToken | gorica-backend/middleware/auth.js:43-47 | a header supplies a token exactly when it starts with `Bearer `, and the token is the rest of it |
| Session.ExtractionOrder | gorica-backend/middleware/auth.js:42-52 | a non-empty header token wins; otherwise the cookie, when present, is the token |
| Session.OnlyBearerHeaders | gorica-backend/middleware/auth.js:45 | a header not starting with `Bearer ` supplies nothing |
| Session.AuthStatus | gorica-backend/middleware/auth.js:54-85 | every refusal of authentication is 401 |
| Session.AuthenticateToken | gorica-backend/middleware/auth.js:39-87 | the middleware's steps give the answer its specification defines |
| Session.AuthenticatedIsActiveStoredUser | gorica-backend/middleware/auth.js:64-81 | a request is authenticated only for an active stored user, and carries the stored role and name rather than the token's |
| Session.IssuedTokenLifecycle | gorica-backend/middleware/auth.js:58-81 | a valid token authenticates its user while the account is active, and is refused once it is deactivated or removed |
| Session.EmptyBearerIsNoToken | gorica-backend/middleware/auth.js:45-56 | a bare `Bearer ` header without a cookie is a request without a token |
| Session.GateStatus | gorica-backend/middleware/auth.js:92-103 | the role gate answers 401 for no user and 403 for a role outside the list |
| Session.RequireRole | gorica-backend/middleware/auth.js:92-103 | the gate passes exactly a user whose role is listed, and is 401 exactly when there is no user |
| Session.GateAfterAuthentication | gorica-backend/middleware/auth.js:39-103 | after authentication the gate never answers 401, and passes exactly when the stored role is listed |
| Schema.OrNull | gorica-backend/routes/patients.js:82 | the value or null: the value when it is truthy, null exactly otherwise |
| Password.Check | gorica-backend/utils/passwordValidator.js:21-45 | one rule adds its message exactly when it fails, and nothing else |
| Password.Validate | gorica-backend/utils/passwordValidator.js:53-56 | the password is valid exactly when no error was collected |
| Password.ValidatePassword | gorica-backend/utils/passwordValidator.js:12-57 | validatePassword's steps give the result its specification defines |
| Password.StrictChecks | gorica-backend/utils/passwordValidator.js:19-45 | the six strict rules, checked in order, collect exactly the specified messages |
| Password.MissingPasswordIsRequired | gorica-backend/utils/passwordValidator.js:15-17 | a missing or empty password fails with the single "required" message in either mode |
| Password.BasicModeIsLength | gorica-backend/utils/passwordValidator.js:46-51 | in basic mode the password is valid exactly when it has at least six characters |
| Password.StrictModeRules | gorica-backend/utils/passwordValidator.js:19-45 | in strict mode the password is valid exactly when it has eight characters, an upper-case and a lower-case letter, a digit and a special character and contains no common password; at most six errors |
| Password.StrictModeMessages | gorica-backend/utils/passwordValidator.js:21-45 | each strict message appears exactly when its rule fails |
| Password.StrictErrorsMembers | gorica-backend/utils/passwordValidator.js:21-45 | the strict errors are exactly the messages of the failed rules |
| Password.CheckedErrors | gorica-backend/utils/passwordValidator.js:21-45 | six rule checks list exactly the failed rules' messages, whatever their outcomes |
| Password.Points | gorica-backend/utils/passwordValidator.js:67-77 | at most six criteria earn a point |
| Password.Strength | gorica-backend/utils/passwordValidator.js:64-81 | the score is 0 for a missing password, the points themselves below 4, and 4 at four points or more (`Math.min(score, 4)`) |
| Password.PasswordStrength | gorica-backend/utils/passwordValidator.js:64-81 | getPasswordStrength's increments give the specified score |
| Password.StrictAcceptedIsStrong | gorica-backend/utils/passwordValidator.js:19-81 | every password strict mode accepts scores 4 |
| Password.StrengthLabel | gorica-backend/utils/passwordValidator.js:88-92 | the label is one of the five and "Strong" exactly at score 4; a missing password is "Very Weak" |
| Password.CommonWordRefused | gorica-backend/utils/passwordValidator.js:41-45 | `Qwerty1!` meets every class rule and is refused only as too common |
| Password.ExampleClasses | gorica-backend/utils/passwordValidator.js:21-39 | `Qwerty1!` passes the length and the four class rules |
| Password.ExampleIsCommon | gorica-backend/utils/passwordValidator.js:42-43 | `Qwerty1!` lowercased contains `qwerty` |
| Server.AllowedOrigins | gorica-backend/server.js:49-51 | the FRONTEND_URL list is the comma-separated pieces, each trimmed, and empty when the variable is unset or empty |
| Server.AllowedOriginsAreTrimmedPieces | gorica-backend/server.js:49-53 | an origin is in the list exactly when it is one of the trimmed pieces |
| Server.OriginRule | gorica-backend/server.js:30-59 | an origin is admitted exactly when it is missing or empty, is the deployed site, is a localhost or 127.0.0.1 origin outside production, or is listed |
| Server.ProductionRefusesUnlistedLocalhost | gorica-backend/server.js:36-59 | a development origin is refused in production unless listed, and admitted in development |
| Server.PaddedOriginNeverListed | gorica-backend/server.js:49-53 | an origin with whitespace at either end never matches a trimmed entry |
| Server.UnmatchedIsApiNotFound | gorica-backend/server.js:93-105 | an unhandled request gets the JSON 404 exactly when its path starts with `/api`, whatever its method |
| Server.ApiPrefixWithoutSlash | gorica-backend/server.js:100 | `/apiary` counts as an API path |
| StatementScanner.KeptIsKeep | gorica-backend/scripts/migrate.js:71-72 | testing the untrimmed buffer character by character is the test `trimmed && !trimmed.startsWith('--')` |
| StatementScanner.NextDollar | gorica-backend/scripts/migrate.js:41 | the end of the match of `^\$([^$]*)\$` is the first `$` after the opening one, and there is none exactly when no `$` follows |
| StatementScanner.Step | gorica-backend/scripts/migrate.js:18-77 | one iteration moves forward and stays in the input; a span is cut only at a `;`, covers the whole pending buffer, restarts the buffer after it, and is kept |
| StatementScanner.Spans | gorica-backend/scripts/migrate.js:18-83 | the stretches the scan flushes and keeps, including the final flush, all lie within the input |
| StatementScanner.SpansStep | gorica-backend/scripts/migrate.js:18-77 | the scan is one step followed by the scan of the rest |
| StatementScanner.SpansChain | gorica-backend/scripts/migrate.js:18-83 | each flushed stretch starts where the previous buffer restarted, so the stretches chain through the input |
| StatementScanner.SpansOrdered | gorica-backend/scripts/migrate.js:18-83 | the stretches come in input order and do not overlap |
| StatementScanner.SpansEmitted | gorica-backend/scripts/migrate.js:70-83 | every stretch was flushed by a `;` or by the end of the input, and its buffer was kept |
| StatementScanner.FlushEmits | gorica-backend/scripts/migrate.js:79-83 | the final flush keeps the rest of the input only when it is kept |
| StatementScanner.Texts | gorica-backend/scripts/migrate.js:71-73 | one trimmed text per stretch |
| StatementScanner.ScanStep | gorica-backend/scripts/migrate.js:18-77 | what was pushed so far, the statement of the current step, and what the rest of the scan pushes make up the whole result |
| StatementScanner.ScanEnd | gorica-backend/scripts/migrate.js:79-85 | at the end of the input only the final flush is left |
| StatementScanner.FlushTexts | gorica-backend/scripts/migrate.js:79-83 | the final flush pushes the trimmed buffer when it is kept, and nothing otherwise |
| StatementScanner.ScanChar | gorica-backend/scripts/migrate.js:19-76 | the loop body updates the flags and the buffer as one step of the scan and hands back the statement a `;` flushes |
| StatementScanner.ParseStatements | gorica-backend/scripts/migrate.js:9-86 | parseSQLStatements returns exactly the specified statements |
| StatementScanner.SemicolonRule | gorica-backend/scripts/migrate.js:70-76 | a `;` cuts the buffer exactly when it is outside every quote and outside a comment, and pushes a statement exactly when the trimmed buffer is kept |
| StatementScanner.SemicolonCuts | gorica-backend/scripts/migrate.js:70-76 | the cut restarts the buffer, and pushes a span exactly when the buffer is kept |
| StatementScanner.CommentRule | gorica-backend/scripts/migrate.js:23-36 | `--` opens a comment only outside quotes; a comment ends at a newline, and nothing inside it changes any other flag |
| StatementScanner.DollarRule | gorica-backend/scripts/migrate.js:38-55 | any tag opens a dollar quote and is recorded; inside one the tag is kept until the identical tag closes it |
| StatementScanner.DollarCloses | gorica-backend/scripts/migrate.js:44-52 | in a dollar quote, the recorded tag met outside a comment and outside other quotes ends the quote and is skipped whole |
| StatementScanner.ParseShape | gorica-backend/scripts/migrate.js:9-86 | the statements are the trimmed texts of ordered, non-overlapping stretches of the input, none empty, none starting with `--`, each already trimmed |
| StatementScanner.TextsShape | gorica-backend/scripts/migrate.js:71-82 | the texts of flushed stretches are kept, trimmed texts |
| StatementScanner.CutAtSemicolon | gorica-backend/scripts/migrate.js:67-73 | trimming keeps the `;` that ends a stretch |
| StatementScanner.ParseCutsAtSemicolons | gorica-backend/scripts/migrate.js:67-76 | every statement but the last ends with the `;` that cut it |
| StatementScanner.TextsCutAtSemicolons | gorica-backend/scripts/migrate.js:67-76 | every flushed stretch followed by another ends with `;`, which its text keeps |
| StatementScanner.TextCutAt | gorica-backend/scripts/migrate.js:67-73 | the text of a stretch ending with `;` ends with it |
| StatementScanner.CommentSwallowsStatement | gorica-backend/scripts/migrate.js:23-36 | a comment line stays in the buffer, so `--\nx;` yields no statement: the statement after a comment line is dropped with it |
| StatementScanner.ExampleCommentSteps | gorica-backend/scripts/migrate.js:23-36 | on `--\nx;` the comment opens at the first `-` and closes at the newline |
| StatementScanner.ExampleStatementSteps | gorica-backend/scripts/migrate.js:67-76 | on `--\nx;` the `;` cuts a buffer starting with `--`, which is dropped |
| SqlLines.WordRun | gorica-backend/scripts/add_physician_reports.js:36 | the run of `\w` characters at the start of a text, and no longer |
| SqlLines.AfterDo | gorica-backend/scripts/add_users.js:27 | where `^\s*DO\s+` stops on a trimmed line, ignoring case: after `DO` and all the whitespace that follows, of which there is some |
| SqlLines.DoTag | gorica-backend/scripts/add_physician_reports.js:36-39 | the tag `$word$` of a `DO $word$` line: a word of at least one `\w` character between two `$` |
| SqlLines.DoPatternsDisjoint | gorica-backend/scripts/add_physician_reports.js:28-42 | no line matches both the `DO $$` and the `DO $word$` pattern |
| SqlLines.PairAt | gorica-backend/scripts/add_users.js:36 | a `$$word$$` match at a position: two `$$` markers around a word |
| SqlLines.FirstPairAt | gorica-backend/scripts/add_users.js:36-38 | `matches[0]`: the leftmost such match at or after a position, and none exactly when there is no match |
| SqlLines.PairNeedsTwoMarkers | gorica-backend/scripts/add_users.js:35-38 | a line opens a block only with two non-overlapping `$$` markers |
| SqlLines.KeepStatements | gorica-backend/scripts/add_users.js:74 | the final filter keeps exactly the statements whose trimmed text is non-empty and does not start with `--` |
| SqlLines.KeepStatementsAppend | gorica-backend/scripts/add_users.js:74 | the filter keeps the input order |
| LineSplitter.FeedLine | gorica-backend/scripts/add_users.js:18-67 | the loop body for one line gives the state and pushed statement its specification defines |
| LineSplitter.ParseStatements | gorica-backend/scripts/add_users.js:10-75 | parseSQLStatements returns exactly the specified statements (the same function in fix_unique_constraint.js and add_service_type.js) |
| LineSplitter.FeedKeepsWellFormed | gorica-backend/scripts/add_users.js:26-55 | a block is open exactly while a tag is recorded |
| LineSplitter.CommentLineIgnored | gorica-backend/scripts/add_users.js:21-24 | a line whose trimmed text starts with `--` changes nothing, even inside a block |
| LineSplitter.DoLineDiscardsPending | gorica-backend/scripts/add_users.js:26-32 | a `DO $$` line opens a block holding just that line and discards what was pending, in or out of a block |
| LineSplitter.PairOpensBlock | gorica-backend/scripts/add_users.js:34-43 | outside a block a line opens one exactly when it holds a `$$word$$` pair, recording the first pair as the tag |
| LineSplitter.BlockKeepsEveryLine | gorica-backend/scripts/add_users.js:45-55 | inside a block every line is appended, and the block ends, pushing the buffer, exactly at a line whose trimmed text contains the tag |
| LineSplitter.RegularLine | gorica-backend/scripts/add_users.js:57-66 | outside blocks a blank line changes nothing, and a non-blank one is appended and completes the statement exactly when its trimmed text ends with `;` |
| LineSplitter.BlockHoldsUntilTag | gorica-backend/scripts/add_users.js:45-55 | lines without the tag push nothing and keep the block open with the same tag |
| LineSplitter.BlockLineHolds | gorica-backend/scripts/add_users.js:45-55 | one line without the tag keeps the block open and only adds to its buffer |
| LineSplitter.SplitByLinesKept | gorica-backend/scripts/add_users.js:69-74 | every statement returned is non-blank, does not start with `--`, and was pushed or left over |
| ReportSplitter.FeedLine | gorica-backend/scripts/add_physician_reports.js:24-69 | the loop body for one line gives the state and pushed statement its specification defines |
| ReportSplitter.ParseStatements | gorica-backend/scripts/add_physician_reports.js:15-77 | parseSQLStatements returns exactly the specified statements |
| ReportSplitter.EndsWithContains | gorica-backend/scripts/add_physician_reports.js:45-47 | a line whose trimmed text ends with the tag contains the tag |
| ReportSplitter.EveryLineAppended | gorica-backend/scripts/add_physician_reports.js:27-69 | every line that pushes nothing is appended to the buffer, comment and `DO` lines included |
| ReportSplitter.CompletedStatementEndsWithLine | gorica-backend/scripts/add_physician_reports.js:45-68 | a completed statement is the trimmed buffer with its last line, and the buffer restarts empty |
| ReportSplitter.DoLineOpensBlock | gorica-backend/scripts/add_physician_reports.js:27-42 | `DO $$` and `DO $word$` lines open a block with that tag from any state, keeping what was pending |
| ReportSplitter.BlockClosesOnlyAtTagEnd | gorica-backend/scripts/add_physician_reports.js:44-59 | inside a block a line ends it exactly when its trimmed text ends with the tag |
| ReportSplitter.TrimOccurs | gorica-backend/scripts/add_physician_reports.js:45-47 | what occurs in the trimmed line occurs in the line |
| ReportSplitter.EndDollarSemicolonKeepsBlockOpen | gorica-backend/scripts/add_physician_reports.js:44-59 | `END $$;` does not end a `$$` block, because it ends with `;` |
| ReportSplitter.SemicolonLineCompletes | gorica-backend/scripts/add_physician_reports.js:61-68 | outside blocks a line completes the statement exactly when its trimmed text ends with `;` |
| ReportSplitter.RunTrimmed | gorica-backend/scripts/add_physician_reports.js:49-73 | every pushed statement is trimmed |
| ReportSplitter.SplitReportSqlTrimmed | gorica-backend/scripts/add_physician_reports.js:71-76 | every statement returned is trimmed, non-blank and does not start with `--` |
| TimeSlots.DaysInMonth | gorica-calendar/src/utils/timeSlots.js:144-149 | every month has 28 to 31 days, and 29 exactly for February of a leap year |
| TimeSlots.ToDate | gorica-calendar/src/utils/timeSlots.js:26-32 | a Date value is kept exactly when it is valid |
| TimeSlots.GenerateTimeSlots | gorica-calendar/src/utils/timeSlots.js:3-23 | the loop pushes exactly the specified slots |
| TimeSlots.TimeSlotsShape | gorica-calendar/src/utils/timeSlots.js:3-23 | a morning has 32 slots from 09:00, any other shift 28 from 14:00; each is on the given day, 15 minutes after the one before, on a quarter hour before the end hour |
| TimeSlots.TimeSlotsIncreasing | gorica-calendar/src/utils/timeSlots.js:17-20 | the slots strictly increase, and are valid moments on a valid day |
| TimeSlots.ZerosValue | gorica-calendar/src/utils/timeSlots.js:127-128 | a run of padding zeros reads as 0 |
| TimeSlots.LeadingZerosValue | gorica-calendar/src/utils/timeSlots.js:127-128 | padding zeros do not change a number |
| TimeSlots.YearValue | gorica-calendar/src/utils/timeSlots.js:72 | the `yyyy` field reads back as the year |
| TimeSlots.ClockSlices | gorica-calendar/src/utils/timeSlots.js:63 | the hour and minute fields sit at fixed places of `HH:mm` |
| TimeSlots.DaySlices | gorica-calendar/src/utils/timeSlots.js:72 | the year, month and day fields sit at fixed places of `yyyy-MM-dd` |
| TimeSlots.FormatTimeReadBack | gorica-calendar/src/utils/timeSlots.js:57-64 | the `HH:mm` text of a valid moment reads back as its hour and minute |
| TimeSlots.FormatDateReadBack | gorica-calendar/src/utils/timeSlots.js:66-73 | the `yyyy-MM-dd` text of a valid moment reads back as its year, 1-based month and day |
| TimeSlots.SameTimeSlotMeaning | gorica-calendar/src/utils/timeSlots.js:156-167 | two values are the same slot exactly when both are valid and agree on year, month, day, hour and minute; seconds do not matter |
| TimeSlots.SameTextSameFields | gorica-calendar/src/utils/timeSlots.js:165-166 | valid moments with the same texts agree on every field but seconds |
| TimeSlots.SameTimeTextSameClock | gorica-calendar/src/utils/timeSlots.js:165 | the same `HH:mm` text means the same hour and minute |
| TimeSlots.SameDateTextSameDay | gorica-calendar/src/utils/timeSlots.js:166 | the same `yyyy-MM-dd` text means the same day |
| TimeSlots.SameTimeSlotSymmetric | gorica-calendar/src/utils/timeSlots.js:156-167 | the same-slot test is symmetric and false whenever a value is invalid |
| TimeSlots.NewDate | gorica-calendar/src/utils/timeSlots.js:145 | `new Date(year, month, day, 12)` always gives a valid moment, rolling an overflowing day into the next month and mapping years below 100 to the 1900s |
| TimeSlots.ParseDateInputMeaning | gorica-calendar/src/utils/timeSlots.js:134-154 | a `D/M/YYYY` text is accepted exactly when its day exists in its month of a year from 100 on, and gives noon of that day; years 0000 to 0099 are refused |
| TimeSlots.ParseDateInputRejectsShape | gorica-calendar/src/utils/timeSlots.js:135-138 | a missing, empty or otherwise shaped text gives null |
| TimeSlots.NatToStringFourDigits | gorica-calendar/src/utils/timeSlots.js:129-130 | a year from 1000 to 9999 is written with four digits |
| TimeSlots.DateInputParts | gorica-calendar/src/utils/timeSlots.js:122-131 | the input format of a valid moment is the padded day, the padded 1-based month and the year, separated by `/` |
| TimeSlots.DateInputValues | gorica-calendar/src/utils/timeSlots.js:122-131 | for a four-digit year that text has the accepted shape and its fields read back as the day, month and year |
| TimeSlots.DateInputRoundTrip | gorica-calendar/src/utils/timeSlots.js:122-154 | for a four-digit year, parsing the input format gives back the same day, at noon |
| DataTransformers.AppointmentToFrontend | gorica-calendar/src/services/api.js:286-316 | the calendar appointment carries the id as text, the patient id, the full name built from first and last name, and the status or `scheduled` |
| DataTransformers.AppointmentToBackend | gorica-calendar/src/services/api.js:318-340 | the body carries the patient id, the appointment type, the notes or null, the status or `scheduled`, and the service type or `doctor` |
| DataTransformers.ClockTextParts | gorica-calendar/src/services/api.js:328-329 | a clock text is the padded hour, the padded minute and `00`, separated by `:` |
| DataTransformers.ClockTextFields | gorica-calendar/src/services/api.js:328-329 | its fields read back as the hour and the minute |
| DataTransformers.ClockTextMinutes | gorica-calendar/src/services/api.js:328-329 | a clock text reads back as its minutes after midnight |
| DataTransformers.EndClockLater | gorica-calendar/src/services/api.js:325-327 | the end is fifteen minutes after the start, with the minutes carried into the hour and no wrap at midnight |
| DataTransformers.BackendFields | gorica-calendar/src/services/api.js:319-337 | for a valid moment the body carries its date and its start and end clock texts |
| DataTransformers.EndTextReadsBack | gorica-calendar/src/services/api.js:325-329 | the end clock text of a start hour and minute reads back as fifteen minutes after the start |
| DataTransformers.EndFifteenMinutesLater | gorica-calendar/src/services/api.js:323-329 | the end time reads back as fifteen minutes after the start time |
| DataTransformers.LastQuarterEndsAtTwentyFour | gorica-calendar/src/services/api.js:325-329 | a slot starting at 23:45 ends at `24:00:00` |
| DataTransformers.BodyDateFields | gorica-calendar/src/services/api.js:333 | the body's date reads back as the year, the 1-based month and the day |
| DataTransformers.ApiDateTimeReadsBack | gorica-calendar/src/services/api.js:301-303 | a valid moment from the year 100 on, written as date and clock, is read back by appointmentToFrontend as that moment to the minute |
| DataTransformers.BackendRoundTrip | gorica-calendar/src/services/api.js:286-340 | the date and start time sent for a valid moment from the year 100 on read back as that moment to the minute |
| DataTransformers.MissingDateFallsBackToNine | gorica-calendar/src/services/api.js:290-299 | a row without a date or start time is placed today at 09:00, without patient details |
| DataTransformers.FrontendIdReadsBack | gorica-calendar/src/services/api.js:293 | the id text reads back as the id |
| DataTransformers.ParsePatientName | gorica-calendar/src/services/api.js:342-343 | a missing or empty name is refused, and only that |
| DataTransformers.ParsePatientNameShape | gorica-calendar/src/services/api.js:342-348 | a whitespace-only name gives two empty names; otherwise the first name is a non-empty word and the last name non-empty, and a one-word name is both |
| DataTransformers.JoinLast | gorica-calendar/src/services/api.js:347 | joined words end with the last word's last character |
| DataTransformers.ParsePatientNameRoundTrip | gorica-calendar/src/services/api.js:342-348 | words joined by single spaces parse into the first word and the rest joined again |
| DataTransformers.JoinFirstLast | gorica-calendar/src/services/api.js:347 | a first name, a space and the joined last name are the joined words |
| DataTransformers.FullNameIsJoin | gorica-calendar/src/services/api.js:295 | the calendar's full name of a one-word first name and a last name of words is all the words joined |
| DataTransformers.FullNameParsesBack | gorica-calendar/src/services/api.js:295-348 | such a full name parses back into the same first and last name |
| DataTransformers.FrontendNameParsesBack | gorica-calendar/src/services/api.js:286-348 | the calendar's patient name of such a row parses back into the row's two names |
| AppStore.Filter | gorica-calendar/src/store/useAppStore.js:105-107 | `filter` keeps exactly the elements that pass, never more than it was given |
| AppStore.FilterAppend | gorica-calendar/src/store/useAppStore.js:105-107 | filtering keeps the order |
| AppStore.FilterKeepsAll | gorica-calendar/src/store/useAppStore.js:102-107 | a filter every element passes changes nothing |
| AppStore.FilterIdempotent | gorica-calendar/src/store/useAppStore.js:304 | filtering twice with the same test is filtering once |
| AppStore.ShownAppointments | gorica-calendar/src/store/useAppStore.js:136-138 | the rows that are not cancelled, each transformed, in order |
| AppStore.FirstExactMatch | gorica-calendar/src/store/useAppStore.js:175-177 | `find`: the first patient whose `first last`, lowercased, equals the lowercased name, and none exactly when no patient does |
| AppStore.FindById | gorica-calendar/src/store/useAppStore.js:252 | `find`: the first appointment with the id, and none exactly when no appointment has it |
| AppStore.Store.constructor | gorica-calendar/src/store/useAppStore.js:4-96 | the store starts signed out and checking authentication, in the day view of today at noon, the morning shift and the doctor's mode, with nothing loaded |
| AppStore.Store.Login | gorica-calendar/src/store/useAppStore.js:11-19 | login signs the user in, sets the mode to the role, and changes nothing else |
| AppStore.Store.Logout | gorica-calendar/src/store/useAppStore.js:22-36 | logout, whatever the server answers, resets the user, the mode, the appointments and the search, and nothing else |
| AppStore.Store.VerifyAuth | gorica-calendar/src/store/useAppStore.js:39-65 | the check ends signed in with the role's mode exactly when the server names an authenticated user, signed out otherwise, and is over either way |
| AppStore.Store.SetSelectedMode | gorica-calendar/src/store/useAppStore.js:84-88 | the mode becomes the one chosen |
| AppStore.Store.SetGlobalSearchQuery | gorica-calendar/src/store/useAppStore.js:97 | the search query becomes the one typed |
| AppStore.Store.SetCurrentView | gorica-calendar/src/store/useAppStore.js:114 | the view becomes the one chosen |
| AppStore.Store.SetCurrentDate | gorica-calendar/src/store/useAppStore.js:115 | the date becomes the one chosen |
| AppStore.Store.SetSelectedShift | gorica-calendar/src/store/useAppStore.js:116 | the shift becomes the one chosen |
| AppStore.Store.GoToToday | gorica-calendar/src/store/useAppStore.js:314-319 | the current date becomes today at noon |
| AppStore.Store.FetchFilters | gorica-calendar/src/store/useAppStore.js:123-132 | the caller's filters, with `service_type` set to the mode when there is one |
| AppStore.Store.FetchAppointments | gorica-calendar/src/store/useAppStore.js:119-150 | on success the store holds and returns the rows that are not cancelled, transformed; on failure it records the message and keeps its appointments; loading stops either way |
| AppStore.Store.AddAppointment | gorica-calendar/src/store/useAppStore.js:214-229 | the body sent is the appointment transformed for the found patient in the store's mode |
| AppStore.Store.UpdateAppointment | gorica-calendar/src/store/useAppStore.js:249-277 | an id not in the store fails with `Appointment not found`; otherwise the changes are merged over the first appointment with that id and sent in the store's mode, for the newly found patient only when the name changed |
| AppStore.Store.DeleteAppointment | gorica-calendar/src/store/useAppStore.js:296-312 | on success every appointment with the id leaves the list and the others stay in order; on failure the list is kept and the message recorded |
| AppStore.Store.RecordFailure | gorica-calendar/src/store/useAppStore.js:145-148 | a failure records its message and stops loading |
| AppStore.FilteredAppointmentsMeaning | gorica-calendar/src/store/useAppStore.js:100-108 | a blank query shows every appointment; otherwise exactly the matching ones, in their order |
| AppStore.ShownNeverCancelled | gorica-calendar/src/store/useAppStore.js:136-138 | no appointment on screen after a fetch is cancelled, and there are no more of them than rows |
| AppStore.DeleteMeaning | gorica-calendar/src/store/useAppStore.js:303-306 | deleting an id removes every appointment with it and keeps the others, and deleting it again changes nothing |
| AppStore.CreateOrFindPatientErrors | gorica-calendar/src/store/useAppStore.js:164-199 | `Patient name is required` exactly for a missing, empty or blank name, and `Both first name and last name are required` never happens |
| AppStore.CreateOrFindPrefersExactMatch | gorica-calendar/src/store/useAppStore.js:172-183 | when the search finds patients, the first exact match is returned, or the first patient found when there is none |
| AppStore.CreateOrFindCreatesParsed | gorica-calendar/src/store/useAppStore.js:185-206 | when the search finds nobody, a patient is created from the parsed name with the phone or null |
| AppStore.MergeNothing | gorica-calendar/src/store/useAppStore.js:257-268 | merging no changes keeps the appointment's time, notes and status and keeps its patient |
| Translations.GetTranslation | gorica-calendar/src/i18n/translations.js:229-243 | the loop over the key's segments gives the specified translation |
| Translations.UseTranslation | gorica-calendar/src/i18n/translations.js:246-249 | `t` translates every key in the fixed language |
| Translations.FollowAppend | gorica-calendar/src/i18n/translations.js:233-240 | following a path in two legs is following it at once |
| Translations.FollowNone | gorica-calendar/src/i18n/translations.js:234-239 | nothing is found below a missing entry |
| Translations.TranslateFound | gorica-calendar/src/i18n/translations.js:229-243 | a phrase stored at a path of dot-free names is found under the key joining them with dots |
| Translations.TranslateMeaning | gorica-calendar/src/i18n/translations.js:229-243 | the answer is the phrase the key's path ends at, and the key itself when the path does not end at a phrase |
| Translations.UnknownLanguageGivesKey | gorica-calendar/src/i18n/translations.js:231-239 | an unknown language gives back the key |
| Translations.MissingSegmentGivesKey | gorica-calendar/src/i18n/translations.js:234-239 | a segment that cannot be followed, below a phrase or missing from a section, gives back the key |
| Translations.SectionGivesKey | gorica-calendar/src/i18n/translations.js:242 | a key whose path ends at a section gives back the key |
| AppointmentTypes.TypesFor | src/utils/appointmentTypes.js:21 | the esthetician's types for `esthetician`, the doctor's for every other service |
| AppointmentTypes.GetAppointmentTypes | src/utils/appointmentTypes.js:20-26 | the service's types in order, each with its label key and its translation in the language |
| AppointmentTypes.GetAppointmentTypeValues | src/utils/appointmentTypes.js:29-32 | the service's values in order |
| AppointmentTypes.FindType | src/utils/appointmentTypes.js:37 | `find`: the first type with the value, and none exactly when no type has it |
| AppointmentTypes.LabelKeysFollowValues | src/utils/appointmentTypes.js:4-17 | every label key is `appointmentTypes.` followed by its value |
| AppointmentTypes.ValuesPerService | src/utils/appointmentTypes.js:4-17 | the doctor has the five types consultation, follow-up, checkup, procedure and emergency, the esthetician facial, laser and wax; a service's values are distinct |
| AppointmentTypes.UnknownServiceIsDoctor | src/utils/appointmentTypes.js:21-36 | an unknown service gets the doctor's types, values and labels |
| AppointmentTypes.TypesMatchValues | src/utils/appointmentTypes.js:20-32 | the labelled types and the values agree entry by entry |
| AppointmentTypes.LabelIsTranslationOfValue | src/utils/appointmentTypes.js:35-43 | a label asked for by value is the translation of `appointmentTypes.<value>`, except that an unlisted value with an empty translation is its own label |
| AppointmentTypes.ListedLabelsAgree | src/utils/appointmentTypes.js:20-43 | the label in the type list is the one asked for by value |
| AppointmentTypes.UntranslatedValueShowsKey | src/utils/appointmentTypes.js:42 | an unlisted value without a translation is labelled with its key, since the key is not empty |
| TextWrap.RenderCyrillicTextWrapped | src/utils/cyrillicFont.js:60-92 | one rendered item per wrapped line, in order |
| TextWrap.RunLinesWellFormed | src/utils/cyrillicFont.js:75-85 | the loop pushes only non-empty lines, and every line of more than one word is within the width |
| TextWrap.WrapLinesWellFormed | src/utils/cyrillicFont.js:71-88 | every line is non-empty, and only a single word wider than the limit can exceed it |
| TextWrap.RunKeepsWords | src/utils/cyrillicFont.js:75-85 | without empty words, the lines joined by spaces are the words joined by spaces |
| TextWrap.StepKeepsWords | src/utils/cyrillicFont.js:76-84 | a word added to a line, or starting the next one, follows the text so far after one space |
| TextWrap.WrapLinesRoundTrip | src/utils/cyrillicFont.js:71-88 | a text without leading, trailing or doubled spaces is its lines joined by single spaces |
| Text.TrimShape | gorica-backend/scripts/migrate.js:71 | `trim()` leaves no whitespace at either end, and gives the empty string exactly for all-whitespace text |
| Text.TrimIdempotent | gorica-backend/scripts/migrate.js:71 | trimming twice is trimming once |
| Text.Split | gorica-backend/scripts/add_users.js:16 | `split` on one character always gives at least one part |
| Text.SplitPartsFree | gorica-backend/scripts/add_users.js:16 | no part holds the separator |
| Text.JoinSplit | gorica-backend/scripts/add_users.js:16 | joining the parts with the separator gives the text back |
| Text.SplitJoin | gorica-calendar/src/i18n/translations.js:230 | separator-free parts joined by the separator split back into those parts |
| Text.ContainsAt | gorica-backend/scripts/add_users.js:48 | `includes` finds exactly the occurrences at some position |
| Text.ToLower | gorica-calendar/src/store/useAppStore.js:176 | `toLowerCase` lowers each character and keeps the length |
| Text.SplitWsTokens | gorica-calendar/src/services/api.js:344 | `split(/\s+/)` of a trimmed text gives non-empty tokens without whitespace, or the single empty token for the empty text |
| Text.SplitWsJoin | gorica-calendar/src/services/api.js:344-347 | words joined by single spaces split back into the same words |
| Text.NatToString | gorica-calendar/src/services/api.js:293 | `toString` of a number is a non-empty string of digits, one digit exactly below 10 |
| Text.DigitsValueOfNatToString | gorica-calendar/src/services/api.js:293 | the decimal text of a number reads back as the number |
| Text.PadZero | gorica-calendar/src/utils/timeSlots.js:127-128 | `padStart(width, '0')` is at least the width long, its last characters are the text, and it is zeros before them |
| Text.Pad2IsPadStart | gorica-calendar/src/utils/timeSlots.js:127-128 | the two-digit form used for hours, minutes, months and days is exactly the decimal text padded with zeros to two characters |
| Text.Pad2Value | gorica-calendar/src/utils/timeSlots.js:127-128 | two-digit padding of a number below 100 reads back as the number |
| Text.Pad2Injective | gorica-calendar/src/utils/timeSlots.js:127-128 | two-digit padding is injective below 100 |
| Text.LexLessTotal | gorica-backend/routes/appointments.js:274-276 | text comparison orders any two different texts one way or the other |
| Text.LexLessTransitive | gorica-backend/routes/appointments.js:274-276 | text comparison is transitive |

## Left out

- SQL execution: each statement is modelled as the change it makes to the in-memory tables. The order in which PostgreSQL returns unordered rows is taken to be increasing id.
- ILIKE patterns: the patient search treats the term as a literal substring. `%` and `_` typed by the user act as wildcards in the database but not in the model.
- Case folding: `toLowerCase` and ILIKE are modelled for the ASCII letters only. Lengths count characters, not UTF-16 code units.
- Concurrency: the race between a check and the following insert, and the unique constraints that guard it, are not modelled. Two storage refusals that need no race are modelled as `StorageError` outcomes: a create date that matches `YYYY-MM-DD` but is no day of the calendar (22008) and an update `patient_id` naming no patient (23503), both answered 400. The other storage failures appear only as error codes mapped to statuses (`Appointments.StorageErrorStatus`, `Patients.WriteErrorStatus`, `Patients.DeleteErrorStatus`). The other 500 answers of the handlers are not modelled.
- bcrypt and jsonwebtoken: hashing, comparison, signing, verification and token expiry are parameters. The cookie set by login and cleared by logout, and the cookie parser, are outside the model.
- Read-only routes: the appointment list and lookup by id (`routes/appointments.js` lines 7-145, except the stored-date formatting) are not modelled. The same holds for the report lookups by appointment and by id (`routes/reports.js` lines 62-132), the patient lookup by id, `/logout`, `/verify`, `/me` and `/health`. They read rows without deciding anything beyond the checks modelled elsewhere.
- Migration drivers: reading the SQL files, the loops that execute the statements, and the "already exists" error codes they skip are I/O and not modelled. So are `verify_service_type.js`, `change_password.js` and `generate_jwt_secret.js`.
- Frontend I/O: the network calls, `tokenManager`, `handleResponse`, and the refetches that login, mode changes, adding and updating trigger are outside the model. The store's actions take the API's replies as parameters.
- AppStore.Store.UpdateAppointment: builds the body sent for the merged appointment, but does not model `updates.patientId`, `updates.phone` or the other spread fields that appointmentToBackend ignores.
- AppStore.Store.AddAppointment: the body sent is modelled; the patient lookup before it is `AppStore.CreateOrFindPatient`, and the created row returned by the API is not modelled.
- Dates: timezones, daylight saving time and `new Date(string)` parsing are not modelled, nor is the time-only branch of `toDate`, which reads the current date. `formatDateDisplay`, which only renders a date with translated day and month names, is also left out.
- DataTransformers.AppointmentToFrontend: a date or time field out of range gives an Invalid Date (`None`), where JavaScript's Date constructor would roll it over into the next unit. Fields that `Number()` reads as NaN also give `None`. `ReadNumber` reads only the empty text and plain digit strings; texts that `Number()` also accepts, such as `" 5"`, `"+5"`, `"1e1"` or `"0x10"`, give `None`. The API sends none of these.
- FilterMeaning: the report list's `appointment_id` and `patient_id` filters are compared as text (`NatToString(id) == param`), and the date range with text order (`LexLe`). PostgreSQL casts the parameters to integer and DATE, so `appointment_id=05` matches report 5 there, and `'2025-3-1'` is a date. The model keeps neither.
- ListedIds: inherits FilterMeaning's text comparison of the id and date filters.
- Reports.Keeps, Appointments.UpdateSpec, Appointments.UpdateOverlapQuery and Patients.NameOrder: the model compares and stores raw text where PostgreSQL casts to integer, DATE and TIME, and sorts by its collation.
  - An update time such as `9:00` is stored and compared as text, so it sorts after `10:00:00`; PostgreSQL reads it as 09:00:00 in the overlap query and in the `UPDATE`.
  - An update date that is empty, unreadable or no day of the calendar is stored by the model; PostgreSQL refuses it with code 22007 or 22008, which the handler maps to 400.
  - `ORDER BY last_name, first_name` follows the database collation; the model uses code-point order.
- Appointments.UpdateRequest: only `notes` can carry an explicit JSON `null`. For the other fields the handler also pushes a `null` (`!== undefined`), which writes NULL or fails a NOT NULL constraint with code 23502, answered with 400; the model cannot express such a request.
- Translations: the Macedonian table is a parameter rather than the literal data. JavaScript's `in` also finds inherited property names such as `constructor`, which the model's map lookup does not.
- AppointmentTypes.TypesFor: inherited property names such as `constructor` used as a service type are not modelled; every unknown service gets the doctor's list.
- TextWrap.RenderCyrillicTextWrapped: widths are integers given by a measurement parameter, not the canvas's floating-point widths. The rendering of a line is a parameter.
- UI and PDF: the React components, `pdfGenerator.js`, `logoBase64.js`, `renderCyrillicText` and `useTranslation.js` are not part of this model.
