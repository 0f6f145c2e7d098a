/** The appointment booking engine of the backend: request normalisation, the exact-slot rule with
    reclaim of cancelled rows, the three-clause overlap test, the dynamic partial update, and soft and
    hard delete, over the appointments table held as a map from id to row. */
module Appointments {
  import opened Wrappers
  import opened Text
  import opened Schema
  import TimeSlots

  const CANCELLED := "cancelled"
  const SCHEDULED := "scheduled"
  const DOCTOR := "doctor"

  // ---------------------------------------------------------------- dates

  /** `/^\d{4}-\d{2}-\d{2}$/` */
  predicate IsDateText(s: string) {
    |s| == 10 && s[4] == '-' && s[7] == '-'
    && IsDigit(s[0]) && IsDigit(s[1]) && IsDigit(s[2]) && IsDigit(s[3])
    && IsDigit(s[5]) && IsDigit(s[6]) && IsDigit(s[8]) && IsDigit(s[9])
  }

  /** A `YYYY-MM-DD` text the storage's DATE type accepts: a day of the Gregorian calendar from the
      year 1 on. Any other such text is refused with code 22008 (a field value out of range). */
  predicate IsCalendarDate(s: string) {
    && IsDateText(s)
    && var year, month, day := TwoDigits(s[0], s[1]) * 100 + TwoDigits(s[2], s[3]), TwoDigits(s[5], s[6]), TwoDigits(s[8], s[9]);
      1 <= year && 1 <= month <= 12 && 1 <= day <= TimeSlots.DaysInMonth(year, month - 1)
  }

  /** A request date holding a `T` is cut at its first `T`; any other text is kept. */
  function NormalizeDate(s: string): string {
    if 'T' in s then Split(s, 'T')[0] else s
  }

  /** The normalised date is the text of `s` before its first `T`; normalising again changes nothing,
      and a date already in `YYYY-MM-DD` form is kept. */
  lemma NormalizeDatePrefix(s: string)
    ensures var r := NormalizeDate(s);
      && 'T' !in r && StartsWith(s, r)
      && ('T' in s ==> |r| < |s| && s[|r|] == 'T')
      && ('T' !in s ==> r == s)
      && NormalizeDate(r) == r
      && (IsDateText(s) ==> r == s)
  {
    if 'T' in s {
      SplitHead(s, 'T');
    }
  }

  // ---------------------------------------------------------------- times

  /** `/^([0-1][0-9]|2[0-3]):[0-5][0-9](:[0-5][0-9])?$/` */
  predicate IsTimeText(t: string) {
    && (|t| == 5 || |t| == 8)
    && (('0' <= t[0] <= '1' && IsDigit(t[1])) || (t[0] == '2' && '0' <= t[1] <= '3'))
    && t[2] == ':' && '0' <= t[3] <= '5' && IsDigit(t[4])
    && (|t| == 8 ==> t[5] == ':' && '0' <= t[6] <= '5' && IsDigit(t[7]))
  }

  /** `HH:MM:SS`, the form every accepted time is stored in. */
  predicate IsCanonicalTime(t: string) { IsTimeText(t) && |t| == 8 }

  /** A five-character time gains `:00`. */
  function NormalizeTime(t: string): string {
    if |t| == 5 then t + ":00" else t
  }

  /** An accepted time normalises to `HH:MM:SS` with the same hour and minute; normalising twice
      changes nothing, and a time that already has seconds is kept. */
  lemma NormalizeTimeCanonical(t: string)
    requires IsTimeText(t)
    ensures var r := NormalizeTime(t);
      && IsCanonicalTime(r) && r[..5] == t[..5]
      && NormalizeTime(r) == r
      && (|t| == 8 ==> r == t)
      && (|t| == 5 ==> Seconds(r) == Seconds(t + ":00") && r[5..] == ":00")
  {
  }

  function DigitAt(t: string, i: nat): int
    requires i < |t|
  {
    t[i] as int - '0' as int
  }

  /** Seconds since midnight of a canonical time. */
  function Seconds(t: string): (r: nat)
    requires IsCanonicalTime(t)
    ensures r < 24 * 3600
  {
    (DigitAt(t, 0) * 10 + DigitAt(t, 1)) * 3600 + (DigitAt(t, 3) * 10 + DigitAt(t, 4)) * 60
    + DigitAt(t, 6) * 10 + DigitAt(t, 7)
  }

  /** On canonical times, comparing the text compares the times of day, so the storage's comparisons
      of stored times are comparisons of seconds since midnight. */
  lemma CanonicalTimeOrder(a: string, b: string)
    requires IsCanonicalTime(a) && IsCanonicalTime(b)
    ensures LexLess(a, b) <==> Seconds(a) < Seconds(b)
    ensures a == b <==> Seconds(a) == Seconds(b)
  {
    if LexLess(a, b) {
      LexBelowIsEarlier(a, b);
    } else if a != b {
      LexLessTotal(a, b);
      LexBelowIsEarlier(b, a);
    }
  }

  lemma LexBelowIsEarlier(a: string, b: string)
    requires IsCanonicalTime(a) && IsCanonicalTime(b) && LexLess(a, b)
    ensures Seconds(a) < Seconds(b)
  {
    var k := LexLessWitness(a, b);
    assert forall i | 0 <= i < k :: a[i] == b[i] by {
      forall i | 0 <= i < k ensures a[i] == b[i] {
        assert a[..k][i] == b[..k][i];
      }
    }
  }

  // ---------------------------------------------------------------- overlap

  /** The storage's overlap test of a stored row `[s, e]` against the requested `[start, end]`. */
  predicate ThreeClauseOverlap(s: string, e: string, start: string, end: string) {
    || (LexLe(s, start) && LexLess(start, e))
    || (LexLess(s, end) && LexLe(end, e))
    || (LexLe(start, s) && LexLe(e, end))
  }

  /** Two half-open intervals share a point. */
  predicate Intersect(s: string, e: string, start: string, end: string) {
    LexLess(s, end) && LexLess(start, e)
  }

  /** The three clauses catch every intersecting pair, and for non-empty intervals they catch nothing else. */
  lemma ThreeClauseIsIntersection(s: string, e: string, start: string, end: string)
    ensures Intersect(s, e, start, end) ==> ThreeClauseOverlap(s, e, start, end)
    ensures LexLess(start, end) && LexLess(s, e) ==>
      (ThreeClauseOverlap(s, e, start, end) <==> Intersect(s, e, start, end))
  {
    if Intersect(s, e, start, end) {
      LexLessTotal(s, start);
      LexLessTotal(e, end);
    }
    if LexLess(start, end) && LexLess(s, e) && ThreeClauseOverlap(s, e, start, end) {
      if LexLe(s, start) && LexLess(start, e) {
        LexLeLessTransitive(s, start, end);
      } else if LexLess(s, end) && LexLe(end, e) {
        LexLessLeTransitive(start, end, e);
      } else {
        LexLeLessTransitive(start, s, e);
        LexLessLeTransitive(s, e, end);
      }
    }
  }

  // ---------------------------------------------------------------- the table

  datatype Table = Table(rows: map<nat, Appointment>, nextId: nat)

  /** Ids come from a serial counter: every stored id is below the next one. */
  predicate IdsBelow(t: Table) { forall id | id in t.rows :: id < t.nextId }

  /** The two lookups the handlers run before writing. */
  datatype Query =
    | SameSlot(date: string, start: string, service: string)
    | Overlapping(date: string, start: string, end: string, service: string, exclude: Option<nat>)

  predicate Matches(q: Query, id: nat, a: Appointment) {
    match q
    case SameSlot(d, st, svc) => a.date == d && a.startTime == st && a.serviceType == svc
    case Overlapping(d, st, en, svc, ex) =>
      && (ex.None? || id != ex.value)
      && a.date == d && a.status != CANCELLED && a.serviceType == svc
      && ThreeClauseOverlap(a.startTime, a.endTime, st, en)
  }

  /** The first row (smallest id below `bound`) a query returns. */
  function FirstMatch(rows: map<nat, Appointment>, q: Query, bound: nat): (r: Option<nat>)
    ensures r.Some? ==> r.value < bound && r.value in rows && Matches(q, r.value, rows[r.value])
    ensures r.Some? ==> forall j | j < r.value && j in rows :: !Matches(q, j, rows[j])
    ensures r.None? ==> forall j | j < bound && j in rows :: !Matches(q, j, rows[j])
    decreases bound
  {
    if bound == 0 then None
    else match FirstMatch(rows, q, bound - 1)
      case Some(i) => Some(i)
      case None =>
        if bound - 1 in rows && Matches(q, bound - 1, rows[bound - 1]) then Some(bound - 1) else None
  }

  function Find(t: Table, q: Query): (r: Option<nat>)
    ensures r.Some? ==> r.value in t.rows && Matches(q, r.value, t.rows[r.value])
  {
    FirstMatch(t.rows, q, t.nextId)
  }

  /** With serial ids, a lookup that returns nothing means no row at all matches. */
  lemma FindNoneMeansNoMatch(t: Table, q: Query)
    requires IdsBelow(t) && Find(t, q).None?
    ensures forall j | j in t.rows :: !Matches(q, j, t.rows[j])
  {
  }

  // ---------------------------------------------------------------- outcomes

  datatype Outcome =
    | Created(id: nat)
    | Updated(id: nat)
    | Cancelled(id: nat)
    | Deleted(id: nat)
    | MissingFields
    | InvalidDate(date: string)
    | InvalidStartTime(time: string)
    | InvalidEndTime(time: string)
    | PatientNotFound
    | SlotBooked(patientName: string)
    | SlotOverlaps(patientName: string, start: string, end: string)
    | UpdateOverlaps
    | AppointmentNotFound
    | NoFieldsToUpdate
    | StorageError(code: string)

  function StatusCode(o: Outcome): nat {
    match o
    case Created(_) => 201
    case Updated(_) | Cancelled(_) | Deleted(_) => 200
    case MissingFields | InvalidDate(_) | InvalidStartTime(_) | InvalidEndTime(_) | NoFieldsToUpdate => 400
    case PatientNotFound | AppointmentNotFound => 404
    case SlotBooked(_) | SlotOverlaps(_, _, _) | UpdateOverlaps => 409
    case StorageError(code) => StorageErrorStatus(code)
  }

  /** The error text sent back with the two create conflicts. */
  function ConflictMessage(o: Outcome): string
    requires o.SlotBooked? || o.SlotOverlaps?
  {
    if o.SlotBooked? then
      "This time slot is already booked by " + o.patientName + ". Please choose another time."
    else
      "Time slot overlaps with an appointment for " + o.patientName + " (" + o.start + " - " + o.end
      + "). Please choose another time."
  }

  /** Status for a storage error code raised by create or update; `updating` only changes the message. */
  function StorageErrorStatus(code: string): (r: nat)
    ensures r == 409 <==> code == "23505"
    ensures r == 400 <==> code in {"23503", "23502", "22007", "22008"}
    ensures r == 500 <==> code !in {"23505", "23503", "23502", "22007", "22008"}
  {
    if code == "23505" then 409
    else if code == "23503" || code == "23502" || code == "22007" || code == "22008" then 400
    else 500
  }

  /** The patient named in a conflict: the trimmed `first last` of the joined patient, or `Unknown`. */
  function PatientLabel(patients: map<nat, Patient>, pid: nat): (r: string)
    ensures r != ""
  {
    var full := if pid in patients then Trim(patients[pid].firstName + " " + patients[pid].lastName) else Trim(" ");
    if full == "" then "Unknown" else full
  }

  /** A patient with both names empty, or no patient, shows as `Unknown`; names without surrounding
      whitespace show as `first last`. */
  lemma PatientLabelCases(patients: map<nat, Patient>, pid: nat)
    ensures pid !in patients ==> PatientLabel(patients, pid) == "Unknown"
    ensures pid in patients && patients[pid].firstName == "" && patients[pid].lastName == "" ==>
      PatientLabel(patients, pid) == "Unknown"
    ensures (pid in patients && patients[pid].firstName != "" && patients[pid].lastName != ""
             && !IsSpace(patients[pid].firstName[0]) && !IsSpace(Last(patients[pid].lastName))) ==>
      PatientLabel(patients, pid) == patients[pid].firstName + " " + patients[pid].lastName
  {
    assert TrimStart(" ") == "";
    if pid in patients {
      var p := patients[pid];
      var s := p.firstName + " " + p.lastName;
      if p.firstName == "" && p.lastName == "" {
        assert s == " ";
      }
      if p.firstName != "" && p.lastName != "" && !IsSpace(p.firstName[0]) && !IsSpace(Last(p.lastName)) {
        assert s[0] == p.firstName[0] && s[|s| - 1] == Last(p.lastName);
        TrimNoop(s);
      }
    }
  }

  function Last(s: string): char
    requires s != ""
  {
    s[|s| - 1]
  }

  // ---------------------------------------------------------------- create

  /** The body of a create request; `None` is an absent field. */
  datatype CreateRequest = CreateRequest(
    patientId: Option<nat>,
    date: Option<string>,
    startTime: Option<string>,
    endTime: Option<string>,
    appointmentType: Option<string>,
    notes: Option<string>,
    status: Option<string>,
    serviceType: Option<string>)

  predicate HasRequiredFields(req: CreateRequest) {
    PresentId(req.patientId) && Present(req.date) && Present(req.startTime) && Present(req.endTime)
    && Present(req.appointmentType)
  }

  /** On create: the requested service type, else the caller's role, else `doctor`. */
  function CreateServiceType(requested: Option<string>, role: Option<string>): (r: string)
    ensures r != ""
  {
    if Present(requested) then requested.value else if Present(role) then role.value else DOCTOR
  }

  /** On update: the requested service type, else the stored one, else the caller's role, else `doctor`. */
  function UpdateServiceType(requested: Option<string>, stored: string, role: Option<string>): (r: string)
    ensures r != ""
  {
    if Present(requested) then requested.value else if stored != "" then stored
    else if Present(role) then role.value else DOCTOR
  }

  /** Both resolutions prefer the request; without one, update keeps the stored service type where
      create would take the caller's role, and both agree when nothing non-empty is stored. */
  lemma ServiceTypePrecedence(requested: Option<string>, stored: string, role: Option<string>)
    ensures Present(requested) ==>
      CreateServiceType(requested, role) == UpdateServiceType(requested, stored, role) == requested.value
    ensures !Present(requested) && stored != "" ==> UpdateServiceType(requested, stored, role) == stored
    ensures stored == "" ==> UpdateServiceType(requested, stored, role) == CreateServiceType(requested, role)
    ensures !Present(requested) && !Present(role) ==> CreateServiceType(requested, role) == DOCTOR
  {
  }

  /** The row a validated create request inserts. */
  function NewRow(req: CreateRequest, date: string, role: Option<string>): Appointment
    requires HasRequiredFields(req)
  {
    Appointment(
      req.patientId.value, date,
      NormalizeTime(req.startTime.value), NormalizeTime(req.endTime.value),
      req.appointmentType.value, OrNull(req.notes),
      if Present(req.status) then req.status.value else SCHEDULED,
      CreateServiceType(req.serviceType, role))
  }

  /** Create: validation, patient check, then the slot rules of `Book`. A well-formed date that is no
      day of the calendar is refused by the storage at the first query that reads it. */
  function CreateSpec(t: Table, req: CreateRequest, role: Option<string>, patients: map<nat, Patient>): (Outcome, Table)
  {
    if !HasRequiredFields(req) then (MissingFields, t)
    else
      var date := NormalizeDate(req.date.value);
      if !IsDateText(date) then (InvalidDate(date), t)
      else if !IsTimeText(req.startTime.value) then (InvalidStartTime(req.startTime.value), t)
      else if !IsTimeText(req.endTime.value) then (InvalidEndTime(req.endTime.value), t)
      else if req.patientId.value !in patients then (PatientNotFound, t)
      else if !IsCalendarDate(date) then (StorageError("22008"), t)
      else Book(t, NewRow(req, date, role), patients)
  }

  /** The exact-slot rule: an active holder of the same date, start and service rejects the request;
      a cancelled holder is deleted and booking goes on. */
  function Book(t: Table, row: Appointment, patients: map<nat, Patient>): (Outcome, Table)
  {
    match Find(t, SameSlot(row.date, row.startTime, row.serviceType))
    case Some(h) =>
      if t.rows[h].status != CANCELLED then (SlotBooked(PatientLabel(patients, t.rows[h].patientId)), t)
      else InsertUnlessOverlap(Table(t.rows - {h}, t.nextId), row, patients)
    case None => InsertUnlessOverlap(t, row, patients)
  }

  /** The overlap rule: the first active row of the same date and service that the three clauses
      catch rejects the request; otherwise the row is inserted under the next id. */
  function InsertUnlessOverlap(t: Table, row: Appointment, patients: map<nat, Patient>): (Outcome, Table)
  {
    match Find(t, Overlapping(row.date, row.startTime, row.endTime, row.serviceType, None))
    case Some(c) =>
      (SlotOverlaps(PatientLabel(patients, t.rows[c].patientId), t.rows[c].startTime, t.rows[c].endTime), t)
    case None => (Created(t.nextId), Table(t.rows[t.nextId := row], t.nextId + 1))
  }

  /** Every create ending in an error other than an overlap leaves the table as it was; an overlap
      rejection leaves it with at most the reclaimed row removed. Each outcome has its own status:
      201 for a creation, 404 for a missing patient, 409 for the two slot conflicts, and 400 for a
      missing field, a malformed date or time, or a date the storage refuses. */
  lemma CreateErrorsKeepTable(t: Table, req: CreateRequest, role: Option<string>, patients: map<nat, Patient>)
    ensures var (out, t') := CreateSpec(t, req, role, patients);
      && (!out.Created? && !out.SlotOverlaps? ==> t' == t)
      && (out.SlotOverlaps? ==> (t'.nextId == t.nextId && t'.rows.Keys <= t.rows.Keys && |t.rows.Keys - t'.rows.Keys| <= 1
            && forall j | j in t'.rows :: t'.rows[j] == t.rows[j]))
      && (StatusCode(out) == 201 <==> out.Created?)
      && (StatusCode(out) == 404 <==> out == PatientNotFound)
      && (StatusCode(out) == 409 <==> out.SlotBooked? || out.SlotOverlaps?)
      && (StatusCode(out) == 400 <==> out == MissingFields || out.InvalidDate? || out.InvalidStartTime?
                                      || out.InvalidEndTime? || out == StorageError("22008"))
  {
    var (out, t') := CreateSpec(t, req, role, patients);
    if out.SlotOverlaps? {
      var row := NewRow(req, NormalizeDate(req.date.value), role);
      match Find(t, SameSlot(row.date, row.startTime, row.serviceType))
      case Some(h) =>
        assert t.rows.Keys - t'.rows.Keys <= {h};
      case None =>
    }
  }

  /** A missing or empty required field is exactly what makes create answer 400 before anything else. */
  lemma CreateRequiresFields(t: Table, req: CreateRequest, role: Option<string>, patients: map<nat, Patient>)
    ensures CreateSpec(t, req, role, patients) == (MissingFields, t) <==> !HasRequiredFields(req)
  {
  }

  /** A created row is stored under the old serial, with a `YYYY-MM-DD` date of the calendar, `HH:MM:SS` times, a
      patient that exists and a non-empty status and service type; every other row is one the table
      already held, unchanged. */
  lemma CreatedRowIsCanonical(t: Table, req: CreateRequest, role: Option<string>, patients: map<nat, Patient>)
    requires IdsBelow(t)
    ensures var (out, t') := CreateSpec(t, req, role, patients);
      out.Created? ==>
        && out.id == t.nextId && out.id !in t.rows && t'.nextId == t.nextId + 1 && IdsBelow(t')
        && out.id in t'.rows
        && IsCalendarDate(t'.rows[out.id].date)
        && IsCanonicalTime(t'.rows[out.id].startTime) && IsCanonicalTime(t'.rows[out.id].endTime)
        && t'.rows[out.id].patientId in patients
        && t'.rows[out.id].status != "" && t'.rows[out.id].serviceType != ""
        && forall j | j in t'.rows && j != out.id :: j in t.rows && t'.rows[j] == t.rows[j]
  {
    var (out, t') := CreateSpec(t, req, role, patients);
    if out.Created? {
      NormalizeTimeCanonical(req.startTime.value);
      NormalizeTimeCanonical(req.endTime.value);
    }
  }

  /** A created row is caught by the three clauses against no other active row of its date and service. */
  lemma CreatedRowDoesNotOverlap(t: Table, req: CreateRequest, role: Option<string>, patients: map<nat, Patient>)
    requires IdsBelow(t)
    ensures var (out, t') := CreateSpec(t, req, role, patients);
      out.Created? ==> (
        && out.id in t'.rows
        && forall j | j in t'.rows && j != out.id && t'.rows[j].status != CANCELLED
                      && t'.rows[j].date == t'.rows[out.id].date
                      && t'.rows[j].serviceType == t'.rows[out.id].serviceType ::
             !ThreeClauseOverlap(t'.rows[j].startTime, t'.rows[j].endTime,
                                 t'.rows[out.id].startTime, t'.rows[out.id].endTime))
  {
    var (out, t') := CreateSpec(t, req, role, patients);
    if out.Created? {
      var row := NewRow(req, NormalizeDate(req.date.value), role);
      var q := Overlapping(row.date, row.startTime, row.endTime, row.serviceType, None);
      match Find(t, SameSlot(row.date, row.startTime, row.serviceType))
      case Some(h) =>
        var t1 := Table(t.rows - {h}, t.nextId);
        FindNoneMeansNoMatch(t1, q);
      case None =>
        FindNoneMeansNoMatch(t, q);
    }
  }

  /** Active rows of one date and service whose intervals are non-empty do not intersect. */
  predicate ActiveDisjoint(rows: map<nat, Appointment>) {
    forall i, j | i in rows && j in rows && i != j && SameAgenda(rows[i], rows[j]) ::
      !Intersect(rows[i].startTime, rows[i].endTime, rows[j].startTime, rows[j].endTime)
  }

  predicate SameAgenda(a: Appointment, b: Appointment) {
    a.status != CANCELLED && b.status != CANCELLED && a.date == b.date && a.serviceType == b.serviceType
  }

  predicate ProperIntervals(rows: map<nat, Appointment>) {
    forall i | i in rows && rows[i].status != CANCELLED :: LexLess(rows[i].startTime, rows[i].endTime)
  }

  /** Keeping some rows unchanged and dropping the others keeps active rows disjoint. */
  lemma SubmapKeepsActiveDisjoint(rows: map<nat, Appointment>, rows': map<nat, Appointment>)
    requires ActiveDisjoint(rows) && ProperIntervals(rows)
    requires forall j | j in rows' :: j in rows && rows'[j] == rows[j]
    ensures ActiveDisjoint(rows') && ProperIntervals(rows')
  {
  }

  /** Inserting an active row with a non-empty interval that the three clauses catch against no active
      row of its date and service keeps active rows disjoint. */
  lemma InsertKeepsActiveDisjoint(rows: map<nat, Appointment>, n: nat, r: Appointment)
    requires ActiveDisjoint(rows) && ProperIntervals(rows) && n !in rows
    requires r.status != CANCELLED ==> LexLess(r.startTime, r.endTime)
    requires forall j | j in rows && rows[j].status != CANCELLED && rows[j].date == r.date
                        && rows[j].serviceType == r.serviceType ::
               !ThreeClauseOverlap(rows[j].startTime, rows[j].endTime, r.startTime, r.endTime)
    ensures ActiveDisjoint(rows[n := r]) && ProperIntervals(rows[n := r])
  {
    var rows' := rows[n := r];
    forall i, j | i in rows' && j in rows' && i != j && SameAgenda(rows'[i], rows'[j])
      ensures !Intersect(rows'[i].startTime, rows'[i].endTime, rows'[j].startTime, rows'[j].endTime)
    {
      if i == n || j == n {
        var x := if i == n then rows[j] else rows[i];
        ThreeClauseIsIntersection(x.startTime, x.endTime, r.startTime, r.endTime);
      }
    }
  }

  /** Create keeps active appointments disjoint as long as the new interval is non-empty; the request
      itself is never checked for that (see `ZeroLengthAppointmentAccepted`). */
  lemma CreateKeepsActiveDisjoint(t: Table, req: CreateRequest, role: Option<string>, patients: map<nat, Patient>)
    requires IdsBelow(t) && ActiveDisjoint(t.rows) && ProperIntervals(t.rows)
    requires HasRequiredFields(req) ==> LexLess(NormalizeTime(req.startTime.value), NormalizeTime(req.endTime.value))
    ensures var t' := CreateSpec(t, req, role, patients).1;
      ActiveDisjoint(t'.rows) && ProperIntervals(t'.rows)
  {
    var (out, t') := CreateSpec(t, req, role, patients);
    CreateErrorsKeepTable(t, req, role, patients);
    CreatedRowIsCanonical(t, req, role, patients);
    CreatedRowDoesNotOverlap(t, req, role, patients);
    if out.Created? {
      AddOneKeepsActiveDisjoint(t.rows, t'.rows, out.id);
    } else {
      SubmapKeepsActiveDisjoint(t.rows, t'.rows);
    }
  }

  lemma AddOneKeepsActiveDisjoint(rows: map<nat, Appointment>, rows': map<nat, Appointment>, n: nat)
    requires ActiveDisjoint(rows) && ProperIntervals(rows) && n !in rows && n in rows'
    requires forall j | j in rows' && j != n :: j in rows && rows'[j] == rows[j]
    requires rows'[n].status != CANCELLED ==> LexLess(rows'[n].startTime, rows'[n].endTime)
    requires forall j | j in rows' && j != n && rows'[j].status != CANCELLED && rows'[j].date == rows'[n].date
                        && rows'[j].serviceType == rows'[n].serviceType ::
               !ThreeClauseOverlap(rows'[j].startTime, rows'[j].endTime, rows'[n].startTime, rows'[n].endTime)
    ensures ActiveDisjoint(rows') && ProperIntervals(rows')
  {
    var rows1 := rows' - {n};
    SubmapKeepsActiveDisjoint(rows, rows1);
    assert rows' == rows1[n := rows'[n]];
    InsertKeepsActiveDisjoint(rows1, n, rows'[n]);
  }

  /** Reclaim: when the first row holding the slot is cancelled, it is deleted, and it stays deleted
      whether the request is then created or rejected by the overlap check. */
  lemma ReclaimedRowStaysDeleted(t: Table, row: Appointment, patients: map<nat, Patient>)
    requires var h := Find(t, SameSlot(row.date, row.startTime, row.serviceType));
      h.Some? && t.rows[h.value].status == CANCELLED
    ensures var h := Find(t, SameSlot(row.date, row.startTime, row.serviceType)).value;
      var (out, t') := Book(t, row, patients);
      h !in t'.rows && (out.Created? || out.SlotOverlaps?)
  {
  }

  /** An active holder of the slot rejects the request with 409 naming its patient, table unchanged. */
  lemma ActiveHolderRejects(t: Table, row: Appointment, patients: map<nat, Patient>)
    requires var h := Find(t, SameSlot(row.date, row.startTime, row.serviceType));
      h.Some? && t.rows[h.value].status != CANCELLED
    ensures var h := Find(t, SameSlot(row.date, row.startTime, row.serviceType)).value;
      Book(t, row, patients) == (SlotBooked(PatientLabel(patients, t.rows[h].patientId)), t)
      && StatusCode(Book(t, row, patients).0) == 409
  {
  }

  /** The text of a create conflict names the patient of a stored row that causes it: for the exact
      slot, an active row of the same date, start and service; for an overlap, an active row of the same
      date and service caught by the three clauses, whose own start and end the text also carries. */
  lemma CreateConflictNamesHolder(t: Table, req: CreateRequest, role: Option<string>, patients: map<nat, Patient>)
    ensures var out := CreateSpec(t, req, role, patients).0;
      && (out.SlotBooked? ==>
            && HasRequiredFields(req)
            && var row := NewRow(req, NormalizeDate(req.date.value), role);
            exists h | h in t.rows ::
              && Matches(SameSlot(row.date, row.startTime, row.serviceType), h, t.rows[h])
              && t.rows[h].status != CANCELLED
              && ConflictMessage(out)
                 == "This time slot is already booked by " + PatientLabel(patients, t.rows[h].patientId)
                    + ". Please choose another time.")
      && (out.SlotOverlaps? ==>
            && HasRequiredFields(req)
            && var row := NewRow(req, NormalizeDate(req.date.value), role);
            exists c | c in t.rows ::
              && Matches(Overlapping(row.date, row.startTime, row.endTime, row.serviceType, None), c, t.rows[c])
              && ConflictMessage(out)
                 == "Time slot overlaps with an appointment for " + PatientLabel(patients, t.rows[c].patientId)
                    + " (" + t.rows[c].startTime + " - " + t.rows[c].endTime + "). Please choose another time.")
  {
    var out := CreateSpec(t, req, role, patients).0;
    if out.SlotBooked? || out.SlotOverlaps? {
      var row := NewRow(req, NormalizeDate(req.date.value), role);
      var q := Overlapping(row.date, row.startTime, row.endTime, row.serviceType, None);
      match Find(t, SameSlot(row.date, row.startTime, row.serviceType))
      case Some(h) =>
        if t.rows[h].status != CANCELLED {
          assert out == SlotBooked(PatientLabel(patients, t.rows[h].patientId));
        } else {
          var t1 := Table(t.rows - {h}, t.nextId);
          var c := Find(t1, q).value;
          assert t1.rows[c] == t.rows[c];
        }
      case None =>
        var c := Find(t, q).value;
        assert Matches(q, c, t.rows[c]);
    }
  }

  /** On a day with no rows at all, a valid request for a day of the calendar is always created,
      whatever the order of its start and end. */
  lemma CreateOnFreeDay(t: Table, req: CreateRequest, role: Option<string>, patients: map<nat, Patient>)
    requires HasRequiredFields(req) && IsCalendarDate(NormalizeDate(req.date.value))
    requires IsTimeText(req.startTime.value) && IsTimeText(req.endTime.value) && req.patientId.value in patients
    requires forall j | j in t.rows :: t.rows[j].date != NormalizeDate(req.date.value)
    ensures CreateSpec(t, req, role, patients)
         == (Created(t.nextId), Table(t.rows[t.nextId := NewRow(req, NormalizeDate(req.date.value), role)], t.nextId + 1))
  {
  }

  /** Create never compares start with end: a zero-length appointment is accepted, and the table then
      holds an active row whose interval is empty. */
  lemma ZeroLengthAppointmentAccepted()
    ensures var req := CreateRequest(Some(1), Some("2025-03-10"), Some("10:00"), Some("10:00"), Some("checkup"),
                                     None, None, None);
      var patients := map[1 := Patient("Ana", "Petrova", None, None, None)];
      var (out, t') := CreateSpec(Table(map[], 1), req, None, patients);
      out == Created(1) && !ProperIntervals(t'.rows)
  {
    var req := CreateRequest(Some(1), Some("2025-03-10"), Some("10:00"), Some("10:00"), Some("checkup"),
                             None, None, None);
    var patients := map[1 := Patient("Ana", "Petrova", None, None, None)];
    assert NormalizeDate("2025-03-10") == "2025-03-10";
    CreateOnFreeDay(Table(map[], 1), req, None, patients);
    var t' := CreateSpec(Table(map[], 1), req, None, patients).1;
    assert t'.rows[1].startTime == t'.rows[1].endTime;
    LexLessIrreflexive(t'.rows[1].startTime);
  }

  // ---------------------------------------------------------------- update

  /** The body of an update request; `None` is a field left undefined. `notes` may be an explicit null. */
  datatype UpdateRequest = UpdateRequest(
    patientId: Option<nat>,
    date: Option<string>,
    startTime: Option<string>,
    endTime: Option<string>,
    appointmentType: Option<string>,
    notes: Option<Option<string>>,
    status: Option<string>,
    serviceType: Option<string>)

  /** A time in an update request: normalised when non-empty, otherwise not supplied. Not validated. */
  function SuppliedTime(t: Option<string>): (r: Option<string>)
    ensures r.Some? <==> Present(t)
    ensures r.Some? ==> r.value != ""
  {
    if Present(t) then Some(NormalizeTime(t.value)) else None
  }

  datatype Column = PatientIdCol | DateCol | StartTimeCol | EndTimeCol | TypeCol | NotesCol | StatusCol | ServiceTypeCol

  /** A query parameter. */
  datatype Param = NatParam(n: nat) | TextParam(s: string) | NullParam

  /** One `column = $placeholder` item of a `SET` list. */
  datatype Assignment = Assignment(column: Column, placeholder: nat)

  /** The storage's effect of setting one column of a row to a parameter. */
  function Write(a: Appointment, c: Column, p: Param): Appointment {
    match c
    case PatientIdCol => if p.NatParam? then a.(patientId := p.n) else a
    case DateCol => if p.TextParam? then a.(date := p.s) else a
    case StartTimeCol => if p.TextParam? then a.(startTime := p.s) else a
    case EndTimeCol => if p.TextParam? then a.(endTime := p.s) else a
    case TypeCol => if p.TextParam? then a.(appointmentType := p.s) else a
    case NotesCol => if p.TextParam? then a.(notes := Some(p.s)) else if p.NullParam? then a.(notes := None) else a
    case StatusCol => if p.TextParam? then a.(status := p.s) else a
    case ServiceTypeCol => if p.TextParam? then a.(serviceType := p.s) else a
  }

  function NotesParam(n: Option<string>): Param {
    if n.Some? then TextParam(n.value) else NullParam
  }

  /** The number of columns an update may set. */
  const ColumnCount := 8

  /** The columns an update may set, in the order the handler tests them. */
  function ColumnAt(i: nat): Column
    requires i < ColumnCount
  {
    if i == 0 then PatientIdCol else if i == 1 then DateCol else if i == 2 then StartTimeCol
    else if i == 3 then EndTimeCol else if i == 4 then TypeCol else if i == 5 then NotesCol
    else if i == 6 then StatusCol else ServiceTypeCol
  }

  /** The value an update request supplies for a column, if any (`!== undefined`). */
  function FieldValue(req: UpdateRequest, start: Option<string>, end: Option<string>, c: Column): Option<Param> {
    match c
    case PatientIdCol => if req.patientId.Some? then Some(NatParam(req.patientId.value)) else None
    case DateCol => if req.date.Some? then Some(TextParam(req.date.value)) else None
    case StartTimeCol => if start.Some? then Some(TextParam(start.value)) else None
    case EndTimeCol => if end.Some? then Some(TextParam(end.value)) else None
    case TypeCol => if req.appointmentType.Some? then Some(TextParam(req.appointmentType.value)) else None
    case NotesCol => if req.notes.Some? then Some(NotesParam(req.notes.value)) else None
    case StatusCol => if req.status.Some? then Some(TextParam(req.status.value)) else None
    case ServiceTypeCol => if req.serviceType.Some? then Some(TextParam(req.serviceType.value)) else None
  }

  /** The supplied items among the first `n` columns, in order. */
  function SuppliedUpTo(req: UpdateRequest, start: Option<string>, end: Option<string>, n: nat): seq<(Column, Param)>
    requires n <= ColumnCount
  {
    if n == 0 then []
    else
      var c := ColumnAt(n - 1);
      SuppliedUpTo(req, start, end, n - 1) + ItemOf(c, FieldValue(req, start, end, c))
  }

  /** The `SET` items of an update: the supplied fields in the handler's order, with their values. */
  function Supplied(req: UpdateRequest, start: Option<string>, end: Option<string>): seq<(Column, Param)> {
    SuppliedUpTo(req, start, end, ColumnCount)
  }

  /** Applying the `SET` items one after the other. */
  function WriteAll(a: Appointment, pairs: seq<(Column, Param)>): Appointment
    decreases |pairs|
  {
    if pairs == [] then a else WriteAll(Write(a, pairs[0].0, pairs[0].1), pairs[1..])
  }

  /** The partial update field by field: a supplied field takes its value, every other keeps its own. */
  function Patched(a: Appointment, req: UpdateRequest, start: Option<string>, end: Option<string>): Appointment {
    Appointment(
      req.patientId.GetOr(a.patientId),
      req.date.GetOr(a.date),
      start.GetOr(a.startTime),
      end.GetOr(a.endTime),
      req.appointmentType.GetOr(a.appointmentType),
      req.notes.GetOr(a.notes),
      req.status.GetOr(a.status),
      req.serviceType.GetOr(a.serviceType))
  }

  lemma {:induction false} WriteAllAppend(a: Appointment, x: seq<(Column, Param)>, y: seq<(Column, Param)>)
    ensures WriteAll(a, x + y) == WriteAll(WriteAll(a, x), y)
    decreases |x|
  {
    if x != [] {
      assert (x + y)[0] == x[0];
      assert (x + y)[1..] == x[1..] + y;
      WriteAllAppend(Write(a, x[0].0, x[0].1), x[1..], y);
    } else {
      assert x + y == y;
    }
  }

  /** The row after writing the first `n` columns' supplied values, one column at a time. */
  function WriteUpTo(a: Appointment, req: UpdateRequest, start: Option<string>, end: Option<string>, n: nat): Appointment
    requires n <= ColumnCount
  {
    if n == 0 then a
    else
      var b := WriteUpTo(a, req, start, end, n - 1);
      match FieldValue(req, start, end, ColumnAt(n - 1))
      case Some(p) => Write(b, ColumnAt(n - 1), p)
      case None => b
  }

  lemma {:induction false} WriteSuppliedUpTo(a: Appointment, req: UpdateRequest, start: Option<string>, end: Option<string>, n: nat)
    requires n <= ColumnCount
    ensures WriteAll(a, SuppliedUpTo(req, start, end, n)) == WriteUpTo(a, req, start, end, n)
  {
    if n > 0 {
      var c := ColumnAt(n - 1);
      var item := ItemOf(c, FieldValue(req, start, end, c));
      WriteSuppliedUpTo(a, req, start, end, n - 1);
      WriteAllAppend(a, SuppliedUpTo(req, start, end, n - 1), item);
      if item != [] {
        assert item[1..] == [];
      }
    }
  }

  /** Writing the supplied items is the field-by-field partial update: only supplied fields change. */
  lemma WriteSuppliedIsPatch(a: Appointment, req: UpdateRequest, start: Option<string>, end: Option<string>)
    ensures WriteAll(a, Supplied(req, start, end)) == Patched(a, req, start, end)
  {
    WriteSuppliedUpTo(a, req, start, end, ColumnCount);
    var a1 := a.(patientId := req.patientId.GetOr(a.patientId));
    assert WriteUpTo(a, req, start, end, 1) == a1;
    var a2 := a1.(date := req.date.GetOr(a.date));
    assert WriteUpTo(a, req, start, end, 2) == a2;
    var a3 := a2.(startTime := start.GetOr(a.startTime));
    assert WriteUpTo(a, req, start, end, 3) == a3;
    var a4 := a3.(endTime := end.GetOr(a.endTime));
    assert WriteUpTo(a, req, start, end, 4) == a4;
    var a5 := a4.(appointmentType := req.appointmentType.GetOr(a.appointmentType));
    assert WriteUpTo(a, req, start, end, 5) == a5;
    var a6 := a5.(notes := req.notes.GetOr(a.notes));
    assert WriteUpTo(a, req, start, end, 6) == a6;
    var a7 := a6.(status := req.status.GetOr(a.status));
    assert WriteUpTo(a, req, start, end, 7) == a7;
  }

  /** No item is supplied exactly when no column among the first `n` has a value. */
  lemma {:induction false} SuppliedUpToEmpty(req: UpdateRequest, start: Option<string>, end: Option<string>, n: nat)
    requires n <= ColumnCount
    ensures SuppliedUpTo(req, start, end, n) == [] <==>
      forall i | 0 <= i < n :: FieldValue(req, start, end, ColumnAt(i)).None?
  {
    if n > 0 {
      SuppliedUpToEmpty(req, start, end, n - 1);
    }
  }

  /** An update supplies nothing exactly when every field is absent. */
  lemma SuppliedEmpty(req: UpdateRequest, start: Option<string>, end: Option<string>)
    ensures Supplied(req, start, end) == [] <==>
      (req.patientId.None? && req.date.None? && start.None? && end.None? && req.appointmentType.None?
       && req.notes.None? && req.status.None? && req.serviceType.None?)
  {
    SuppliedUpToEmpty(req, start, end, ColumnCount);
    if Supplied(req, start, end) == [] {
      assert FieldValue(req, start, end, ColumnAt(0)).None?;
      assert FieldValue(req, start, end, ColumnAt(1)).None?;
      assert FieldValue(req, start, end, ColumnAt(2)).None?;
      assert FieldValue(req, start, end, ColumnAt(3)).None?;
      assert FieldValue(req, start, end, ColumnAt(4)).None?;
      assert FieldValue(req, start, end, ColumnAt(5)).None?;
      assert FieldValue(req, start, end, ColumnAt(6)).None?;
      assert FieldValue(req, start, end, ColumnAt(7)).None?;
    }
  }

  /** The `SET` items of `pairs` numbered `$1`, `$2`, ... in order. */
  function Numbered(pairs: seq<(Column, Param)>): (r: seq<Assignment>)
    ensures |r| == |pairs|
  {
    if pairs == [] then [] else Numbered(pairs[..|pairs| - 1]) + [Assignment(pairs[|pairs| - 1].0, |pairs|)]
  }

  /** The parameters of `pairs` in order. */
  function ParamsOf(pairs: seq<(Column, Param)>): (r: seq<Param>)
    ensures |r| == |pairs|
  {
    if pairs == [] then [] else ParamsOf(pairs[..|pairs| - 1]) + [pairs[|pairs| - 1].1]
  }

  /** Item `k` of the numbered list names the k-th column with placeholder `$k+1`, which reads the
      k-th parameter. */
  lemma {:induction false} NumberedInOrder(pairs: seq<(Column, Param)>)
    ensures forall k | 0 <= k < |pairs| ::
      Numbered(pairs)[k] == Assignment(pairs[k].0, k + 1) && ParamsOf(pairs)[k] == pairs[k].1
    decreases |pairs|
  {
    if pairs != [] {
      NumberedInOrder(pairs[..|pairs| - 1]);
    }
  }

  /** Builds the `SET` list and its parameters by pushing with a running placeholder counter: the
      supplied fields in order, the k-th naming placeholder `$k` bound to the k-th parameter. */
  method BuildUpdate(req: UpdateRequest, start: Option<string>, end: Option<string>)
    returns (updates: seq<Assignment>, params: seq<Param>)
    ensures updates == Numbered(Supplied(req, start, end))
    ensures params == ParamsOf(Supplied(req, start, end))
  {
    ghost var pairs: seq<(Column, Param)> := [];
    updates, params := [], [];
    var paramCount := 1;
    updates, params, paramCount, pairs := PushIfSupplied(updates, params, paramCount, pairs, PatientIdCol,
      if req.patientId.Some? then Some(NatParam(req.patientId.value)) else None);
    updates, params, paramCount, pairs := PushIfSupplied(updates, params, paramCount, pairs, DateCol,
      if req.date.Some? then Some(TextParam(req.date.value)) else None);
    updates, params, paramCount, pairs := PushIfSupplied(updates, params, paramCount, pairs, StartTimeCol,
      if start.Some? then Some(TextParam(start.value)) else None);
    updates, params, paramCount, pairs := PushIfSupplied(updates, params, paramCount, pairs, EndTimeCol,
      if end.Some? then Some(TextParam(end.value)) else None);
    updates, params, paramCount, pairs := PushIfSupplied(updates, params, paramCount, pairs, TypeCol,
      if req.appointmentType.Some? then Some(TextParam(req.appointmentType.value)) else None);
    updates, params, paramCount, pairs := PushIfSupplied(updates, params, paramCount, pairs, NotesCol,
      if req.notes.Some? then Some(NotesParam(req.notes.value)) else None);
    updates, params, paramCount, pairs := PushIfSupplied(updates, params, paramCount, pairs, StatusCol,
      if req.status.Some? then Some(TextParam(req.status.value)) else None);
    updates, params, paramCount, pairs := PushIfSupplied(updates, params, paramCount, pairs, ServiceTypeCol,
      if req.serviceType.Some? then Some(TextParam(req.serviceType.value)) else None);
    SuppliedInOrder(req, start, end);
  }

  /** The `SET` list, its parameters and the next placeholder number are those of `pairs`. */
  ghost predicate Built(updates: seq<Assignment>, params: seq<Param>, paramCount: nat, pairs: seq<(Column, Param)>) {
    updates == Numbered(pairs) && params == ParamsOf(pairs) && paramCount == |pairs| + 1
  }

  /** The item a column contributes: one when its value is supplied, none otherwise. */
  function ItemOf(c: Column, v: Option<Param>): seq<(Column, Param)> {
    match v
    case Some(p) => [(c, p)]
    case None => []
  }

  /** One `if (field !== undefined) { updates.push(`column = $${paramCount++}`); params.push(value) }`:
      the list stays built from the items pushed so far. */
  method PushIfSupplied(updates: seq<Assignment>, params: seq<Param>, paramCount: nat,
                        ghost pairs: seq<(Column, Param)>, c: Column, v: Option<Param>)
    returns (updates': seq<Assignment>, params': seq<Param>, paramCount': nat, ghost pairs': seq<(Column, Param)>)
    requires Built(updates, params, paramCount, pairs)
    ensures pairs' == pairs + ItemOf(c, v)
    ensures Built(updates', params', paramCount', pairs')
  {
    updates', params', paramCount', pairs' := updates, params, paramCount, pairs;
    if v.Some? {
      updates' := updates + [Assignment(c, paramCount)];
      params' := params + [v.value];
      paramCount' := paramCount + 1;
      pairs' := pairs + [(c, v.value)];
      assert pairs'[..|pairs'| - 1] == pairs;
    } else {
      assert pairs + ItemOf(c, v) == pairs;
    }
  }

  /** The supplied items, column by column in the handler's order. */
  lemma SuppliedInOrder(req: UpdateRequest, start: Option<string>, end: Option<string>)
    ensures Supplied(req, start, end) == []
      + ItemOf(PatientIdCol, if req.patientId.Some? then Some(NatParam(req.patientId.value)) else None)
      + ItemOf(DateCol, if req.date.Some? then Some(TextParam(req.date.value)) else None)
      + ItemOf(StartTimeCol, if start.Some? then Some(TextParam(start.value)) else None)
      + ItemOf(EndTimeCol, if end.Some? then Some(TextParam(end.value)) else None)
      + ItemOf(TypeCol, if req.appointmentType.Some? then Some(TextParam(req.appointmentType.value)) else None)
      + ItemOf(NotesCol, if req.notes.Some? then Some(NotesParam(req.notes.value)) else None)
      + ItemOf(StatusCol, if req.status.Some? then Some(TextParam(req.status.value)) else None)
      + ItemOf(ServiceTypeCol, if req.serviceType.Some? then Some(TextParam(req.serviceType.value)) else None)
  {
    var s0 := SuppliedUpTo(req, start, end, 0);
    var s1 := SuppliedUpTo(req, start, end, 1);
    assert s1 == s0 + ItemOf(PatientIdCol, FieldValue(req, start, end, PatientIdCol));
    var s2 := SuppliedUpTo(req, start, end, 2);
    assert s2 == s1 + ItemOf(DateCol, FieldValue(req, start, end, DateCol));
    var s3 := SuppliedUpTo(req, start, end, 3);
    assert s3 == s2 + ItemOf(StartTimeCol, FieldValue(req, start, end, StartTimeCol));
    var s4 := SuppliedUpTo(req, start, end, 4);
    assert s4 == s3 + ItemOf(EndTimeCol, FieldValue(req, start, end, EndTimeCol));
    var s5 := SuppliedUpTo(req, start, end, 5);
    assert s5 == s4 + ItemOf(TypeCol, FieldValue(req, start, end, TypeCol));
    var s6 := SuppliedUpTo(req, start, end, 6);
    assert s6 == s5 + ItemOf(NotesCol, FieldValue(req, start, end, NotesCol));
    var s7 := SuppliedUpTo(req, start, end, 7);
    assert s7 == s6 + ItemOf(StatusCol, FieldValue(req, start, end, StatusCol));
    var s8 := SuppliedUpTo(req, start, end, 8);
    assert s8 == s7 + ItemOf(ServiceTypeCol, FieldValue(req, start, end, ServiceTypeCol));
  }

  /** The `SET` list applied to a row, each item reading its parameter by placeholder. */
  function ApplyAssignments(a: Appointment, updates: seq<Assignment>, params: seq<Param>): Appointment
    requires forall k | 0 <= k < |updates| :: 1 <= updates[k].placeholder <= |params|
    decreases |updates|
  {
    if updates == [] then a
    else ApplyAssignments(Write(a, updates[0].column, params[updates[0].placeholder - 1]), updates[1..], params)
  }

  lemma {:induction false} AssignmentsArePairs(a: Appointment, updates: seq<Assignment>, params: seq<Param>, pairs: seq<(Column, Param)>)
    requires forall k | 0 <= k < |updates| :: 1 <= updates[k].placeholder <= |params|
    requires |updates| == |pairs|
    requires forall k | 0 <= k < |updates| :: (updates[k].column, params[updates[k].placeholder - 1]) == pairs[k]
    ensures ApplyAssignments(a, updates, params) == WriteAll(a, pairs)
    decreases |updates|
  {
    if updates != [] {
      AssignmentsArePairs(Write(a, pairs[0].0, pairs[0].1), updates[1..], params, pairs[1..]);
    }
  }

  /** The numbered `SET` list with its parameters (and any parameters after them) writes exactly the
      items it was built from, in order. */
  lemma ApplyNumbered(a: Appointment, pairs: seq<(Column, Param)>, extra: seq<Param>)
    ensures forall k | 0 <= k < |Numbered(pairs)| :: 1 <= Numbered(pairs)[k].placeholder <= |ParamsOf(pairs) + extra|
    ensures ApplyAssignments(a, Numbered(pairs), ParamsOf(pairs) + extra) == WriteAll(a, pairs)
  {
    NumberedInOrder(pairs);
    var u, p := Numbered(pairs), ParamsOf(pairs) + extra;
    forall k | 0 <= k < |u| ensures (u[k].column, p[u[k].placeholder - 1]) == pairs[k] {
      assert p[k] == ParamsOf(pairs)[k];
    }
    AssignmentsArePairs(a, u, p, pairs);
  }

  /** Update: 404 for an absent row; an overlap re-check (own row excluded) only when a date or time is
      supplied; 400 when nothing is supplied; otherwise only the supplied fields are written. The
      handler never looks the patient up: a `patient_id` naming no patient is refused by the foreign
      key with code 23503 when the `UPDATE` runs. */
  function UpdateSpec(t: Table, id: nat, req: UpdateRequest, role: Option<string>, patients: map<nat, Patient>): (Outcome, Table) {
    if id !in t.rows then (AppointmentNotFound, t)
    else
      var existing := t.rows[id];
      var start := SuppliedTime(req.startTime);
      var end := SuppliedTime(req.endTime);
      if (Present(req.date) || start.Some? || end.Some?) && Find(t, UpdateOverlapQuery(existing, id, req, start, end, role)).Some?
      then (UpdateOverlaps, t)
      else if Supplied(req, start, end) == [] then (NoFieldsToUpdate, t)
      else if req.patientId.Some? && req.patientId.value !in patients then (StorageError("23503"), t)
      else (Updated(id), Table(t.rows[id := WriteAll(existing, Supplied(req, start, end))], t.nextId))
  }

  /** The overlap query of an update: supplied values over stored ones, own id excluded. */
  function UpdateOverlapQuery(existing: Appointment, id: nat, req: UpdateRequest,
                              start: Option<string>, end: Option<string>, role: Option<string>): Query
  {
    Overlapping(
      if Present(req.date) then req.date.value else existing.date,
      start.GetOr(existing.startTime), end.GetOr(existing.endTime),
      UpdateServiceType(req.serviceType, existing.serviceType, role), Some(id))
  }

  /** What update does to the table: an absent id is 404, a successful update changes exactly the
      supplied fields of that one row, every rejection leaves the table as it was, and an overlap
      rejection needs a supplied date or time. A `patient_id` naming no patient is refused, so no
      appointment is left naming a missing patient. */
  lemma UpdateEffects(t: Table, id: nat, req: UpdateRequest, role: Option<string>, patients: map<nat, Patient>)
    ensures var (out, t') := UpdateSpec(t, id, req, role, patients);
      && (out == AppointmentNotFound <==> id !in t.rows)
      && (!out.Updated? ==> t' == t)
      && (out.Updated? ==> (out.id == id && id in t.rows && t'.nextId == t.nextId
            && t'.rows == t.rows[id := Patched(t.rows[id], req, SuppliedTime(req.startTime), SuppliedTime(req.endTime))]))
      && (out == UpdateOverlaps ==> Present(req.date) || Present(req.startTime) || Present(req.endTime))
      && (out == NoFieldsToUpdate ==> (req.patientId.None? && req.date.None? && !Present(req.startTime)
            && !Present(req.endTime) && req.appointmentType.None? && req.notes.None? && req.status.None?
            && req.serviceType.None?))
      && (out == StorageError("23503") ==> id in t.rows && req.patientId.Some? && req.patientId.value !in patients)
      && (out.Updated? && req.patientId.Some? ==> req.patientId.value in patients)
      && (NoDanglingPatients(patients, t.rows) ==> NoDanglingPatients(patients, t'.rows))
  {
    if id in t.rows {
      WriteSuppliedIsPatch(t.rows[id], req, SuppliedTime(req.startTime), SuppliedTime(req.endTime));
      SuppliedEmpty(req, SuppliedTime(req.startTime), SuppliedTime(req.endTime));
    }
  }

  /** The overlap re-check never reports the row being updated against itself. */
  lemma UpdateOverlapExcludesSelf(t: Table, id: nat, req: UpdateRequest, role: Option<string>)
    requires id in t.rows
    ensures var q := UpdateOverlapQuery(t.rows[id], id, req, SuppliedTime(req.startTime), SuppliedTime(req.endTime), role);
      Find(t, q) != Some(id)
  {
  }

  /** With serial ids, an update of an existing row is rejected with 409 exactly when a date or time
      is supplied and some other active row of the resulting date and service type meets the
      resulting interval under the three clauses. */
  lemma UpdateRejectsOverlap(t: Table, id: nat, req: UpdateRequest, role: Option<string>, patients: map<nat, Patient>)
    requires IdsBelow(t) && id in t.rows
    ensures var q := UpdateOverlapQuery(t.rows[id], id, req, SuppliedTime(req.startTime), SuppliedTime(req.endTime), role);
      UpdateSpec(t, id, req, role, patients).0 == UpdateOverlaps <==>
        && (Present(req.date) || Present(req.startTime) || Present(req.endTime))
        && exists j | j in t.rows :: Matches(q, j, t.rows[j])
  {
    var q := UpdateOverlapQuery(t.rows[id], id, req, SuppliedTime(req.startTime), SuppliedTime(req.endTime), role);
    match Find(t, q)
    case Some(j) =>
      assert Matches(q, j, t.rows[j]);
    case None =>
      FindNoneMeansNoMatch(t, q);
  }

  /** An update that supplies a date or time keeps active rows disjoint, provided the written row's
      interval is non-empty when it is active, and the date and service type written are the ones
      the check used: an empty `date` is written but not checked, and an empty `service_type` is
      checked under the fallback role. */
  lemma UpdateKeepsActiveDisjoint(t: Table, id: nat, req: UpdateRequest, role: Option<string>, patients: map<nat, Patient>)
    requires IdsBelow(t) && ActiveDisjoint(t.rows) && ProperIntervals(t.rows) && id in t.rows
    requires Present(req.date) || Present(req.startTime) || Present(req.endTime)
    requires req.date != Some("")
    requires var w := Patched(t.rows[id], req, SuppliedTime(req.startTime), SuppliedTime(req.endTime));
      && (w.status != CANCELLED ==> LexLess(w.startTime, w.endTime))
      && w.serviceType == UpdateServiceType(req.serviceType, t.rows[id].serviceType, role)
    ensures var t' := UpdateSpec(t, id, req, role, patients).1;
      ActiveDisjoint(t'.rows) && ProperIntervals(t'.rows)
  {
    var (out, t') := UpdateSpec(t, id, req, role, patients);
    UpdateEffects(t, id, req, role, patients);
    if out.Updated? {
      var start, end := SuppliedTime(req.startTime), SuppliedTime(req.endTime);
      var w := Patched(t.rows[id], req, start, end);
      var q := UpdateOverlapQuery(t.rows[id], id, req, start, end, role);
      assert Find(t, q).None?;
      FindNoneMeansNoMatch(t, q);
      var rows1 := t.rows - {id};
      SubmapKeepsActiveDisjoint(t.rows, rows1);
      assert t'.rows == rows1[id := w];
      forall j | j in rows1 && rows1[j].status != CANCELLED && rows1[j].date == w.date
                 && rows1[j].serviceType == w.serviceType
        ensures !ThreeClauseOverlap(rows1[j].startTime, rows1[j].endTime, w.startTime, w.endTime)
      {
        assert !Matches(q, j, t.rows[j]);
      }
      InsertKeepsActiveDisjoint(rows1, id, w);
    }
  }

  /** Reopening a cancelled row by a status-only update skips the overlap check, so it can leave two
      active rows on the same slot. */
  lemma StatusUpdateReopensOverlap()
    ensures var a := Appointment(1, "2025-03-10", "10:00:00", "11:00:00", "checkup", None, SCHEDULED, DOCTOR);
      var t := Table(map[1 := a, 2 := a.(status := CANCELLED)], 3);
      var req := UpdateRequest(None, None, None, None, None, None, Some(SCHEDULED), None);
      var (out, t') := UpdateSpec(t, 2, req, None, map[]);
      ActiveDisjoint(t.rows) && out == Updated(2) && !ActiveDisjoint(t'.rows)
  {
    var a := Appointment(1, "2025-03-10", "10:00:00", "11:00:00", "checkup", None, SCHEDULED, DOCTOR);
    var t := Table(map[1 := a, 2 := a.(status := CANCELLED)], 3);
    var req := UpdateRequest(None, None, None, None, None, None, Some(SCHEDULED), None);
    UpdateEffects(t, 2, req, None, map[]);
    var t' := UpdateSpec(t, 2, req, None, map[]).1;
    assert t'.rows[2] == a;
    assert LexLess("10:00:00", "11:00:00");
    assert SameAgenda(t'.rows[1], t'.rows[2]);
  }

  /** An update stores whatever date it is given: the date is neither cut at `T` nor checked. */
  lemma UpdateStoresUnvalidatedDate()
    ensures var a := Appointment(1, "2025-03-10", "10:00:00", "11:00:00", "checkup", None, SCHEDULED, DOCTOR);
      var t := Table(map[1 := a], 2);
      var req := UpdateRequest(None, Some("2025-03-11T00:00:00Z"), None, None, None, None, None, None);
      var (out, t') := UpdateSpec(t, 1, req, None, map[]);
      out == Updated(1) && t'.rows[1].date == "2025-03-11T00:00:00Z" && !IsDateText(t'.rows[1].date)
  {
    var a := Appointment(1, "2025-03-10", "10:00:00", "11:00:00", "checkup", None, SCHEDULED, DOCTOR);
    var t := Table(map[1 := a], 2);
    var req := UpdateRequest(None, Some("2025-03-11T00:00:00Z"), None, None, None, None, None, None);
    UpdateEffects(t, 1, req, None, map[]);
    var q := UpdateOverlapQuery(a, 1, req, None, None, None);
    assert Find(t, q) == None by {
      assert !Matches(q, 1, a);
    }
  }

  // ---------------------------------------------------------------- delete

  /** Delete: `hard_delete=true` removes the row, anything else only sets its status to cancelled. */
  function DeleteSpec(t: Table, id: nat, hardDelete: Option<string>): (Outcome, Table) {
    if id !in t.rows then (AppointmentNotFound, t)
    else if hardDelete == Some("true") then (Deleted(id), Table(t.rows - {id}, t.nextId))
    else (Cancelled(id), Table(t.rows[id := t.rows[id].(status := CANCELLED)], t.nextId))
  }

  /** A hard delete removes exactly that row; a soft delete changes only that row's status; a missing
      row is 404 either way; both keep active rows disjoint. */
  lemma DeleteEffects(t: Table, id: nat, hardDelete: Option<string>)
    ensures var (out, t') := DeleteSpec(t, id, hardDelete);
      && (out == AppointmentNotFound <==> id !in t.rows)
      && (id !in t.rows ==> t' == t)
      && (id in t.rows && hardDelete == Some("true") ==> (out == Deleted(id) && t'.rows.Keys == t.rows.Keys - {id}
            && forall j | j in t'.rows :: t'.rows[j] == t.rows[j]))
      && (id in t.rows && hardDelete != Some("true") ==> (out == Cancelled(id) && t'.rows.Keys == t.rows.Keys
            && t'.rows[id] == t.rows[id].(status := CANCELLED)
            && forall j | j in t'.rows && j != id :: t'.rows[j] == t.rows[j]))
      && (ActiveDisjoint(t.rows) && ProperIntervals(t.rows) ==> ActiveDisjoint(t'.rows) && ProperIntervals(t'.rows))
      && t'.nextId == t.nextId
  {
  }

  // ---------------------------------------------------------------- what is returned

  /** A stored date as the driver hands it back. */
  datatype StoredDate = DateObject(year: nat, month: nat, day: nat) | DateString(s: string) | NullDate

  /** The date formatting applied to every returned row: a date object becomes `year-MM-DD` (the year
      unpadded), a string holding `T` is cut at its first `T`, anything else is returned as it is. */
  function FormatStoredDate(d: StoredDate): StoredDate {
    match d
    case DateObject(y, m, dd) => DateString(NatToString(y) + "-" + Pad2(m) + "-" + Pad2(dd))
    case DateString(s) => if s != "" && 'T' in s then DateString(Split(s, 'T')[0]) else d
    case NullDate => d
  }

  /** A date object with a four-digit year comes back as `YYYY-MM-DD`; formatting never returns a date
      object and formatting twice is formatting once. */
  lemma FormatStoredDateShape(d: StoredDate)
    ensures !FormatStoredDate(d).DateObject?
    ensures FormatStoredDate(FormatStoredDate(d)) == FormatStoredDate(d)
    ensures d.DateObject? && 1000 <= d.year <= 9999 && 1 <= d.month <= 12 && 1 <= d.day <= 31 ==>
      IsDateText(FormatStoredDate(d).s)
  {
    match d
    case DateObject(y, m, dd) =>
      DashedDigits(NatToString(y), Pad2(m), Pad2(dd));
      if 1000 <= y <= 9999 {
        FourDigitYear(y);
      }
    case DateString(s) =>
      if s != "" && 'T' in s {
        SplitHead(s, 'T');
      }
    case NullDate =>
  }

  lemma FourDigitYear(y: nat)
    requires 1000 <= y <= 9999
    ensures |NatToString(y)| == 4
  {
    assert |NatToString(y / 10)| == 3 by {
      assert |NatToString(y / 100)| == 2;
    }
  }

  /** Digits joined by dashes hold no `T`, and in widths 4, 2, 2 they are a `YYYY-MM-DD` date. */
  lemma DashedDigits(ys: string, ms: string, ds: string)
    requires AllDigits(ys) && AllDigits(ms) && AllDigits(ds)
    ensures 'T' !in ys + "-" + ms + "-" + ds
    ensures |ys| == 4 && |ms| == 2 && |ds| == 2 ==> IsDateText(ys + "-" + ms + "-" + ds)
  {
    var r := ys + "-" + ms + "-" + ds;
    forall i | 0 <= i < |r| ensures r[i] == '-' || IsDigit(r[i]) {
      if i < |ys| { assert r[i] == ys[i]; }
      else if i == |ys| { }
      else if i < |ys| + 1 + |ms| { assert r[i] == ms[i - |ys| - 1]; }
      else if i == |ys| + 1 + |ms| { }
      else { assert r[i] == ds[i - |ys| - 2 - |ms|]; }
    }
  }

  // ---------------------------------------------------------------- the table object

  /** The appointments table. */
  class AppointmentStore {
    var rows: map<nat, Appointment>
    var nextId: nat

    function Snapshot(): Table
      reads this
    {
      Table(rows, nextId)
    }

    ghost predicate Valid()
      reads this
    {
      IdsBelow(Snapshot())
    }

    constructor ()
      ensures Valid() && rows == map[] && nextId == 1
    {
      rows := map[];
      nextId := 1;
    }

    /** POST: validates, checks the patient, applies the exact-slot and overlap rules, then inserts. */
    method Create(req: CreateRequest, role: Option<string>, patients: map<nat, Patient>) returns (out: Outcome)
      requires Valid()
      modifies this
      ensures Valid()
      ensures (out, Snapshot()) == CreateSpec(old(Snapshot()), req, role, patients)
    {
      if !HasRequiredFields(req) {
        return MissingFields;
      }
      var date := NormalizeDate(req.date.value);
      if !IsDateText(date) {
        return InvalidDate(date);
      }
      if !IsTimeText(req.startTime.value) {
        return InvalidStartTime(req.startTime.value);
      }
      if !IsTimeText(req.endTime.value) {
        return InvalidEndTime(req.endTime.value);
      }
      if req.patientId.value !in patients {
        return PatientNotFound;
      }
      if !IsCalendarDate(date) {
        return StorageError("22008");
      }
      var row := NewRow(req, date, role);
      var holder := FirstMatch(rows, SameSlot(row.date, row.startTime, row.serviceType), nextId);
      if holder.Some? {
        var existing := rows[holder.value];
        if existing.status == CANCELLED {
          rows := rows - {holder.value};
        } else {
          return SlotBooked(PatientLabel(patients, existing.patientId));
        }
      }
      var clash := FirstMatch(rows, Overlapping(row.date, row.startTime, row.endTime, row.serviceType, None), nextId);
      if clash.Some? {
        var conflicting := rows[clash.value];
        return SlotOverlaps(PatientLabel(patients, conflicting.patientId), conflicting.startTime, conflicting.endTime);
      }
      out := Created(nextId);
      rows := rows[nextId := row];
      nextId := nextId + 1;
    }

    /** PUT /:id: existence check, optional overlap re-check, then the dynamic `UPDATE`. */
    method Update(id: nat, req: UpdateRequest, role: Option<string>, patients: map<nat, Patient>) returns (out: Outcome)
      requires Valid()
      modifies this
      ensures Valid()
      ensures (out, Snapshot()) == UpdateSpec(old(Snapshot()), id, req, role, patients)
    {
      ghost var t := Snapshot();
      if id !in rows {
        return AppointmentNotFound;
      }
      var existing := rows[id];
      var start := SuppliedTime(req.startTime);
      var end := SuppliedTime(req.endTime);
      ghost var query := UpdateOverlapQuery(existing, id, req, start, end, role);
      if Present(req.date) || start.Some? || end.Some? {
        var clash := FirstMatch(rows, UpdateOverlapQuery(existing, id, req, start, end, role), nextId);
        assert clash == Find(t, query);
        if clash.Some? {
          return UpdateOverlaps;
        }
      }
      var updates, params := BuildUpdate(req, start, end);
      ghost var pairs := Supplied(req, start, end);
      if |updates| == 0 {
        assert pairs == [];
        return NoFieldsToUpdate;
      }
      if req.patientId.Some? && req.patientId.value !in patients {
        return StorageError("23503");
      }
      params := params + [NatParam(id)];
      var whereId := |params|;
      assert whereId == |updates| + 1;
      ApplyNumbered(existing, pairs, [NatParam(id)]);
      rows := rows[id := ApplyAssignments(existing, updates, params)];
      out := Updated(id);
      assert rows == t.rows[id := WriteAll(existing, pairs)];
    }

    /** DELETE /:id: hard delete when `hard_delete` is `true`, otherwise cancel. */
    method Delete(id: nat, hardDelete: Option<string>) returns (out: Outcome)
      requires Valid()
      modifies this
      ensures Valid()
      ensures (out, Snapshot()) == DeleteSpec(old(Snapshot()), id, hardDelete)
    {
      if hardDelete == Some("true") {
        if id !in rows {
          return AppointmentNotFound;
        }
        rows := rows - {id};
        out := Deleted(id);
      } else {
        if id !in rows {
          return AppointmentNotFound;
        }
        rows := rows[id := rows[id].(status := CANCELLED)];
        out := Cancelled(id);
      }
    }
  }
}
