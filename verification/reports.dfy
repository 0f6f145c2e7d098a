/** The physician-report routes: create, update by id, upsert by appointment, delete and the filtered
    list. The reports table is a map from id to row with a serial counter; the appointments and
    patients it is joined with are passed in as maps. */
module Reports {
  import opened Wrappers
  import opened Text
  import opened Schema

  datatype ReportTable = ReportTable(rows: map<nat, Report>, nextId: nat)

  predicate IdsBelow(t: ReportTable) { forall id | id in t.rows :: id < t.nextId }

  /** A report body as sent: the patient name and the ten sections, `None` where absent. */
  datatype ReportBody = ReportBody(patientName: Option<string>, sections: ReportSections)

  datatype ReportOutcome =
    | ReportCreated(id: nat)       // POST: 201
    | ReportInserted(id: nat)      // upsert that inserted: 200
    | ReportUpdated                // PUT by id, or upsert that updated: 200
    | ReportDeleted(id: nat)
    | MissingReportFields          // 400
    | AppointmentNotFound          // 404
    | ReportNotFound               // 404
    | ReportExists                 // 409

  function StatusCode(o: ReportOutcome): (code: nat)
    ensures code == 201 <==> o.ReportCreated?
    ensures code == 404 <==> o.AppointmentNotFound? || o.ReportNotFound?
  {
    match o
    case ReportCreated(_) => 201
    case ReportInserted(_) => 200
    case ReportUpdated => 200
    case ReportDeleted(_) => 200
    case MissingReportFields => 400
    case AppointmentNotFound => 404
    case ReportNotFound => 404
    case ReportExists => 409
  }

  // ---------------------------------------------------------------- stored values

  /** A stored nullable column against what was sent: null exactly when the value sent was falsy,
      and otherwise the value sent. */
  predicate StoredAs(stored: Option<string>, sent: Option<string>) {
    (stored.Some? <==> Present(sent)) && (stored.Some? ==> stored == sent)
  }

  /** Every section written as `value || null`. */
  function Nulled(s: ReportSections): (r: ReportSections)
    ensures StoredAs(r.dateOfBirth, s.dateOfBirth) && StoredAs(r.reasonForVisit, s.reasonForVisit)
    ensures StoredAs(r.chiefComplaint, s.chiefComplaint)
    ensures StoredAs(r.historyOfPresentIllness, s.historyOfPresentIllness)
    ensures StoredAs(r.physicalExamination, s.physicalExamination) && StoredAs(r.diagnosis, s.diagnosis)
    ensures StoredAs(r.treatmentPlan, s.treatmentPlan)
    ensures StoredAs(r.medicationsPrescribed, s.medicationsPrescribed)
    ensures StoredAs(r.followUpInstructions, s.followUpInstructions)
    ensures StoredAs(r.additionalNotes, s.additionalNotes)
  {
    ReportSections(
      OrNull(s.dateOfBirth), OrNull(s.reasonForVisit), OrNull(s.chiefComplaint),
      OrNull(s.historyOfPresentIllness), OrNull(s.physicalExamination), OrNull(s.diagnosis),
      OrNull(s.treatmentPlan), OrNull(s.medicationsPrescribed), OrNull(s.followUpInstructions),
      OrNull(s.additionalNotes))
  }

  /** Storing already stored sections changes nothing. */
  lemma NulledIdempotent(s: ReportSections)
    ensures Nulled(Nulled(s)) == Nulled(s)
  {
  }

  /** `req.user?.id || null`: the caller's id, null when there is none or it is 0. */
  function CreatedBy(userId: Option<nat>): (r: Option<nat>)
    ensures r.Some? <==> PresentId(userId)
    ensures r.Some? ==> r == userId
  {
    if PresentId(userId) then userId else None
  }

  /** The row an insert writes; `now` is the storage's creation timestamp. */
  function NewReport(aid: nat, b: ReportBody, userId: Option<nat>, now: int): Report {
    Report(aid, OrNull(b.patientName), Nulled(b.sections), CreatedBy(userId), now)
  }

  /** The `UPDATE ... SET patient_name = COALESCE($1, patient_name), <section> = $k` rewrite. */
  function Rewrite(r: Report, b: ReportBody): Report {
    r.(patientName := if Present(b.patientName) then b.patientName else r.patientName,
       sections := Nulled(b.sections))
  }

  /** A rewrite keeps the name unless a non-empty one is sent, replaces every section (absent ones
      become null), keeps appointment, author and creation time, and rewriting twice is rewriting once. */
  lemma RewriteEffects(r: Report, b: ReportBody)
    ensures var r' := Rewrite(r, b);
      && (Present(b.patientName) ==> r'.patientName == b.patientName)
      && (!Present(b.patientName) ==> r'.patientName == r.patientName)
      && r'.sections == Nulled(b.sections)
      && r'.appointmentId == r.appointmentId && r'.createdBy == r.createdBy && r'.createdAt == r.createdAt
      && Rewrite(r', b) == r'
  {
    NulledIdempotent(b.sections);
  }

  // ---------------------------------------------------------------- one report per appointment

  /** The ids of the reports of one appointment. */
  function ReportIdsFor(rows: map<nat, Report>, aid: nat): set<nat> {
    set j | j in rows && rows[j].appointmentId == aid
  }

  /** No appointment has two reports. */
  predicate OnePerAppointment(rows: map<nat, Report>) {
    forall i, j | i in rows && j in rows && rows[i].appointmentId == rows[j].appointmentId :: i == j
  }

  /** The report of an appointment with the smallest id below `bound` (`SELECT id ... WHERE
      appointment_id = $1`, first row). */
  function FirstReportFor(rows: map<nat, Report>, aid: nat, bound: nat): (r: Option<nat>)
    ensures r.Some? ==> r.value < bound && r.value in rows && rows[r.value].appointmentId == aid
    ensures r.None? <==> forall j | j < bound && j in rows :: rows[j].appointmentId != aid
  {
    if bound == 0 then None
    else
      match FirstReportFor(rows, aid, bound - 1)
      case Some(j) => Some(j)
      case None => if bound - 1 in rows && rows[bound - 1].appointmentId == aid then Some(bound - 1) else None
  }

  // ---------------------------------------------------------------- operations

  /** POST: both `appointment_id` and `patient_name` must be truthy; the appointment must exist and
      have no report yet; the row is inserted with falsy sections stored as null. */
  function CreateSpec(t: ReportTable, appointments: map<nat, Appointment>, aid: Option<nat>, b: ReportBody,
                      userId: Option<nat>, now: int): (ReportOutcome, ReportTable)
  {
    if !PresentId(aid) || !Present(b.patientName) then (MissingReportFields, t)
    else if aid.value !in appointments then (AppointmentNotFound, t)
    else if ReportIdsFor(t.rows, aid.value) != {} then (ReportExists, t)
    else (ReportCreated(t.nextId), ReportTable(t.rows[t.nextId := NewReport(aid.value, b, userId, now)], t.nextId + 1))
  }

  /** PUT /:id: 404 for an absent report, otherwise the rewrite of that one row. */
  function UpdateSpec(t: ReportTable, id: nat, b: ReportBody): (ReportOutcome, ReportTable) {
    if id !in t.rows then (ReportNotFound, t)
    else (ReportUpdated, ReportTable(t.rows[id := Rewrite(t.rows[id], b)], t.nextId))
  }

  /** The rewrite of every report of one appointment (`UPDATE ... WHERE appointment_id = $12`). */
  function RewriteFor(rows: map<nat, Report>, aid: nat, b: ReportBody): map<nat, Report> {
    map j | j in rows :: if rows[j].appointmentId == aid then Rewrite(rows[j], b) else rows[j]
  }

  /** PUT /appointment/:appointmentId: 404 for an absent appointment; the appointment's report is
      rewritten when there is one, otherwise a report is inserted (the name is not required here). */
  function UpsertSpec(t: ReportTable, appointments: map<nat, Appointment>, aid: nat, b: ReportBody,
                      userId: Option<nat>, now: int): (ReportOutcome, ReportTable)
  {
    if aid !in appointments then (AppointmentNotFound, t)
    else if ReportIdsFor(t.rows, aid) != {} then (ReportUpdated, ReportTable(RewriteFor(t.rows, aid, b), t.nextId))
    else (ReportInserted(t.nextId), ReportTable(t.rows[t.nextId := NewReport(aid, b, userId, now)], t.nextId + 1))
  }

  /** DELETE /:id: removes the row, 404 when there is none. */
  function DeleteSpec(t: ReportTable, id: nat): (ReportOutcome, ReportTable) {
    if id !in t.rows then (ReportNotFound, t)
    else (ReportDeleted(id), ReportTable(t.rows - {id}, t.nextId))
  }

  // ---------------------------------------------------------------- properties

  /** Create answers 400, 404, 409 in that order of checks, changes nothing unless it succeeds, and
      on success inserts one row under a fresh id holding the request with falsy fields as null. */
  lemma CreateEffects(t: ReportTable, appointments: map<nat, Appointment>, aid: Option<nat>, b: ReportBody,
                      userId: Option<nat>, now: int)
    requires IdsBelow(t)
    ensures var (out, t') := CreateSpec(t, appointments, aid, b, userId, now);
      && (out == MissingReportFields <==> !PresentId(aid) || !Present(b.patientName))
      && (out == AppointmentNotFound <==> PresentId(aid) && Present(b.patientName) && aid.value !in appointments)
      && (out == ReportExists <==> (PresentId(aid) && Present(b.patientName) && aid.value in appointments
            && ReportIdsFor(t.rows, aid.value) != {}))
      && (!out.ReportCreated? ==> t' == t)
      && (out.ReportCreated? ==> (
            out.id !in t.rows && t'.rows == t.rows[out.id := t'.rows[out.id]] && IdsBelow(t')
            && t'.rows[out.id].appointmentId == aid.value && t'.rows[out.id].patientName == b.patientName
            && t'.rows[out.id].createdBy == CreatedBy(userId)
            && t'.rows[out.id].sections == Nulled(b.sections)))
  {
  }

  /** Every operation keeps at most one report per appointment. */
  lemma OperationsKeepOnePerAppointment(t: ReportTable, appointments: map<nat, Appointment>, aid: nat,
                                        oaid: Option<nat>, id: nat, b: ReportBody, userId: Option<nat>, now: int)
    requires IdsBelow(t) && OnePerAppointment(t.rows)
    ensures OnePerAppointment(CreateSpec(t, appointments, oaid, b, userId, now).1.rows)
    ensures OnePerAppointment(UpdateSpec(t, id, b).1.rows)
    ensures OnePerAppointment(UpsertSpec(t, appointments, aid, b, userId, now).1.rows)
    ensures OnePerAppointment(DeleteSpec(t, id).1.rows)
  {
    if oaid.Some? && ReportIdsFor(t.rows, oaid.value) == {} {
      forall j | j in t.rows ensures t.rows[j].appointmentId != oaid.value {
        assert j !in ReportIdsFor(t.rows, oaid.value);
      }
      InsertKeepsOne(t, oaid, b, userId, now);
    }
    if ReportIdsFor(t.rows, aid) == {} {
      forall j | j in t.rows ensures t.rows[j].appointmentId != aid {
        assert j !in ReportIdsFor(t.rows, aid);
      }
      InsertKeepsOne(t, Some(aid), b, userId, now);
    }
    var rw := RewriteFor(t.rows, aid, b);
    forall i, j | i in rw && j in rw && rw[i].appointmentId == rw[j].appointmentId ensures i == j {
      assert rw[i].appointmentId == t.rows[i].appointmentId && rw[j].appointmentId == t.rows[j].appointmentId;
    }
  }

  lemma InsertKeepsOne(t: ReportTable, aid: Option<nat>, b: ReportBody, userId: Option<nat>, now: int)
    requires IdsBelow(t) && OnePerAppointment(t.rows) && aid.Some?
    requires forall j | j in t.rows :: t.rows[j].appointmentId != aid.value
    ensures OnePerAppointment(t.rows[t.nextId := NewReport(aid.value, b, userId, now)])
  {
    var rows' := t.rows[t.nextId := NewReport(aid.value, b, userId, now)];
    forall i, j | i in rows' && j in rows' && rows'[i].appointmentId == rows'[j].appointmentId ensures i == j {
    }
  }

  /** After a successful upsert the appointment has exactly one report, holding the body sent. */
  lemma UpsertLeavesExactlyOne(t: ReportTable, appointments: map<nat, Appointment>, aid: nat, b: ReportBody,
                               userId: Option<nat>, now: int)
    requires IdsBelow(t) && OnePerAppointment(t.rows) && aid in appointments
    ensures var t' := UpsertSpec(t, appointments, aid, b, userId, now).1;
      |ReportIdsFor(t'.rows, aid)| == 1
      && forall k | k in ReportIdsFor(t'.rows, aid) :: t'.rows[k].sections == Nulled(b.sections)
  {
    var t' := UpsertSpec(t, appointments, aid, b, userId, now).1;
    var ids := ReportIdsFor(t.rows, aid);
    if ids != {} {
      var k :| k in ids;
      assert ReportIdsFor(t'.rows, aid) == {k};
    } else {
      assert ReportIdsFor(t'.rows, aid) == {t.nextId};
    }
  }

  /** Where the appointment has a report, the upsert is the PUT of that report. */
  lemma UpsertUpdatesLikePut(t: ReportTable, appointments: map<nat, Appointment>, aid: nat, k: nat,
                             b: ReportBody, userId: Option<nat>, now: int)
    requires OnePerAppointment(t.rows) && aid in appointments && k in t.rows && t.rows[k].appointmentId == aid
    ensures UpsertSpec(t, appointments, aid, b, userId, now) == UpdateSpec(t, k, b)
  {
    assert k in ReportIdsFor(t.rows, aid);
    assert RewriteFor(t.rows, aid, b) == t.rows[k := Rewrite(t.rows[k], b)];
  }

  /** Unlike create, the upsert inserts a report without a patient name, storing the name as null. */
  lemma UpsertAcceptsMissingName(t: ReportTable, appointments: map<nat, Appointment>, aid: nat, b: ReportBody,
                                 userId: Option<nat>, now: int)
    requires aid in appointments && ReportIdsFor(t.rows, aid) == {} && !Present(b.patientName)
    ensures var (out, t') := UpsertSpec(t, appointments, aid, b, userId, now);
      out == ReportInserted(t.nextId) && t'.rows[t.nextId].patientName == None
      && CreateSpec(t, appointments, Some(aid), b, userId, now).0 == MissingReportFields
  {
  }

  /** PUT by id: 404 exactly for an absent id; otherwise only that row changes. Delete: 404 exactly for
      an absent id; otherwise exactly that row is removed. */
  lemma UpdateDeleteEffects(t: ReportTable, id: nat, b: ReportBody)
    ensures var (out, t') := UpdateSpec(t, id, b);
      && (out == ReportNotFound <==> id !in t.rows)
      && t'.rows.Keys == t.rows.Keys && t'.nextId == t.nextId
      && forall j | j in t.rows && j != id :: t'.rows[j] == t.rows[j]
    ensures var (out, t') := DeleteSpec(t, id);
      && (out == ReportNotFound <==> id !in t.rows)
      && t'.rows.Keys == t.rows.Keys - {id} && t'.nextId == t.nextId
      && forall j | j in t'.rows :: t'.rows[j] == t.rows[j]
  {
  }

  // ---------------------------------------------------------------- list

  /** The query-string filters of the list; each is used only when truthy, the date range only when
      both ends are. */
  datatype ReportFilter = ReportFilter(
    appointmentId: Option<string>, patientId: Option<string>, startDate: Option<string>, endDate: Option<string>)

  /** One `WHERE` condition naming its placeholders. */
  datatype Condition = AppointmentIs(k: nat) | PatientIs(k: nat) | DateBetween(lo: nat, hi: nat)

  /** A condition on a report joined with its appointment, each placeholder reading its parameter;
      ids are compared in their decimal spelling and dates as text. */
  predicate Holds(c: Condition, params: seq<string>, r: Report, a: Appointment) {
    match c
    case AppointmentIs(k) => 1 <= k <= |params| && NatToString(r.appointmentId) == params[k - 1]
    case PatientIs(k) => 1 <= k <= |params| && NatToString(a.patientId) == params[k - 1]
    case DateBetween(lo, hi) =>
      1 <= lo <= |params| && 1 <= hi <= |params| && LexLe(params[lo - 1], a.date) && LexLe(a.date, params[hi - 1])
  }

  /** The conditions combined with `AND`. */
  predicate AllHold(cs: seq<Condition>, params: seq<string>, r: Report, a: Appointment) {
    forall i | 0 <= i < |cs| :: Holds(cs[i], params, r, a)
  }

  /** What the filters mean, independently of placeholders. */
  predicate Keeps(f: ReportFilter, r: Report, a: Appointment) {
    && (Present(f.appointmentId) ==> NatToString(r.appointmentId) == f.appointmentId.value)
    && (Present(f.patientId) ==> NatToString(a.patientId) == f.patientId.value)
    && (Present(f.startDate) && Present(f.endDate) ==> LexLe(f.startDate.value, a.date) && LexLe(a.date, f.endDate.value))
  }

  /** The conditions of a filter: the supplied ones in a fixed order, placeholders numbered from 1 in
      the order of their parameters. */
  function FilterConditions(f: ReportFilter): seq<Condition> {
    var byAppointment := if Present(f.appointmentId) then [AppointmentIs(1)] else [];
    var byPatient := if Present(f.patientId) then [PatientIs(|byAppointment| + 1)] else [];
    var n := |byAppointment| + |byPatient|;
    var byDate := if Present(f.startDate) && Present(f.endDate) then [DateBetween(n + 1, n + 2)] else [];
    byAppointment + byPatient + byDate
  }

  /** The parameters of a filter in placeholder order. */
  function FilterParams(f: ReportFilter): seq<string> {
    (if Present(f.appointmentId) then [f.appointmentId.value] else [])
    + (if Present(f.patientId) then [f.patientId.value] else [])
    + (if Present(f.startDate) && Present(f.endDate) then [f.startDate.value, f.endDate.value] else [])
  }

  /** The `AND` of the conditions, each reading its parameter by placeholder, is what the filters
      mean. */
  lemma FilterMeaning(f: ReportFilter, r: Report, a: Appointment)
    ensures AllHold(FilterConditions(f), FilterParams(f), r, a) <==> Keeps(f, r, a)
  {
    var cs, ps := FilterConditions(f), FilterParams(f);
    var na := if Present(f.appointmentId) then 1 else 0;
    var np := if Present(f.patientId) then 1 else 0;
    var nd := if Present(f.startDate) && Present(f.endDate) then 1 else 0;
    assert |cs| == na + np + nd;
    if Present(f.appointmentId) {
      assert cs[0] == AppointmentIs(1) && ps[0] == f.appointmentId.value;
    }
    if Present(f.patientId) {
      assert cs[na] == PatientIs(na + 1) && ps[na] == f.patientId.value;
    }
    if nd == 1 {
      assert cs[na + np] == DateBetween(na + np + 1, na + np + 2);
      assert ps[na + np] == f.startDate.value && ps[na + np + 1] == f.endDate.value;
    }
  }

  /** Builds the conditions and their parameters with a running placeholder counter. */
  method BuildFilter(f: ReportFilter) returns (conditions: seq<Condition>, params: seq<string>)
    ensures conditions == FilterConditions(f) && params == FilterParams(f)
    ensures forall r, a :: AllHold(conditions, params, r, a) <==> Keeps(f, r, a)
  {
    conditions, params := [], [];
    var paramCount := 1;
    if Present(f.appointmentId) {
      conditions := conditions + [AppointmentIs(paramCount)];
      params := params + [f.appointmentId.value];
      paramCount := paramCount + 1;
    }
    if Present(f.patientId) {
      conditions := conditions + [PatientIs(paramCount)];
      params := params + [f.patientId.value];
      paramCount := paramCount + 1;
    }
    if Present(f.startDate) && Present(f.endDate) {
      conditions := conditions + [DateBetween(paramCount, paramCount + 1)];
      params := params + [f.startDate.value, f.endDate.value];
      paramCount := paramCount + 2;
    }
    assert conditions == FilterConditions(f) && params == FilterParams(f);
    forall r, a ensures AllHold(conditions, params, r, a) <==> Keeps(f, r, a) {
      FilterMeaning(f, r, a);
    }
  }

  /** A report appears in the list when its appointment and that appointment's patient exist (the
      inner joins) and the filters keep it. */
  predicate Listed(appointments: map<nat, Appointment>, patients: map<nat, Patient>, f: ReportFilter, r: Report) {
    r.appointmentId in appointments && appointments[r.appointmentId].patientId in patients
    && Keeps(f, r, appointments[r.appointmentId])
  }

  /** The listed ids below `bound`, in increasing order. */
  function ListedIds(rows: map<nat, Report>, appointments: map<nat, Appointment>, patients: map<nat, Patient>,
                     f: ReportFilter, bound: nat): (r: seq<nat>)
    ensures forall i | 0 <= i < |r| :: r[i] < bound && r[i] in rows && Listed(appointments, patients, f, rows[r[i]])
    ensures forall j | j < bound && j in rows && Listed(appointments, patients, f, rows[j]) :: j in r
    ensures forall i, j | 0 <= i < j < |r| :: r[i] < r[j]
  {
    if bound == 0 then []
    else
      var prefix := ListedIds(rows, appointments, patients, f, bound - 1);
      if bound - 1 in rows && Listed(appointments, patients, f, rows[bound - 1]) then prefix + [bound - 1] else prefix
  }

  /** Newest first: creation times never increase along the list. */
  predicate NewestFirst(rows: map<nat, Report>, s: seq<nat>)
    requires forall i | 0 <= i < |s| :: s[i] in rows
  {
    forall i, j | 0 <= i < j < |s| :: rows[s[i]].createdAt >= rows[s[j]].createdAt
  }

  /** Places `id` before the first report that is not newer than it. */
  function InsertNewest(rows: map<nat, Report>, id: nat, s: seq<nat>): (r: seq<nat>)
    requires id in rows && forall i | 0 <= i < |s| :: s[i] in rows
    ensures multiset(r) == multiset(s) + multiset{id}
    ensures forall i | 0 <= i < |r| :: r[i] == id || r[i] in s
  {
    if s == [] then [id]
    else if rows[id].createdAt >= rows[s[0]].createdAt then [id] + s
    else
      assert s == [s[0]] + s[1..];
      [s[0]] + InsertNewest(rows, id, s[1..])
  }

  /** Inserting into a newest-first list keeps it newest first. */
  lemma {:induction false} InsertNewestSorted(rows: map<nat, Report>, id: nat, s: seq<nat>)
    requires id in rows && forall i | 0 <= i < |s| :: s[i] in rows
    requires NewestFirst(rows, s)
    ensures var r := InsertNewest(rows, id, s);
      (forall i | 0 <= i < |r| :: r[i] in rows) && NewestFirst(rows, r)
  {
    if s != [] && rows[id].createdAt < rows[s[0]].createdAt {
      var rest := InsertNewest(rows, id, s[1..]);
      InsertNewestSorted(rows, id, s[1..]);
      forall x | x in rest ensures rows[s[0]].createdAt >= rows[x].createdAt {
        if x != id {
          var k :| 0 <= k < |s[1..]| && s[1..][k] == x;
          assert s[k + 1] == x;
        }
      }
      ConsNewestFirst(rows, s[0], rest);
    }
  }

  /** A report at least as new as every report of a newest-first list can head it. */
  lemma ConsNewestFirst(rows: map<nat, Report>, head: nat, rest: seq<nat>)
    requires head in rows && forall i | 0 <= i < |rest| :: rest[i] in rows
    requires NewestFirst(rows, rest)
    requires forall x | x in rest :: rows[head].createdAt >= rows[x].createdAt
    ensures var r := [head] + rest;
      (forall i | 0 <= i < |r| :: r[i] in rows) && NewestFirst(rows, r)
  {
    var r := [head] + rest;
    forall i, j | 0 <= i < j < |r| ensures rows[r[i]].createdAt >= rows[r[j]].createdAt {
      assert r[j] == rest[j - 1];
      if i > 0 {
        assert r[i] == rest[i - 1];
      } else {
        assert rest[j - 1] in rest;
      }
    }
  }


  /** `ORDER BY created_at DESC` as an insertion sort. */
  function SortNewest(rows: map<nat, Report>, s: seq<nat>): (r: seq<nat>)
    requires forall i | 0 <= i < |s| :: s[i] in rows
    ensures multiset(r) == multiset(s)
    ensures (forall i | 0 <= i < |r| :: r[i] in rows) && NewestFirst(rows, r)
  {
    if s == [] then []
    else
      assert s == [s[0]] + s[1..];
      var sorted := SortNewest(rows, s[1..]);
      InsertNewestSorted(rows, s[0], sorted);
      InsertNewest(rows, s[0], sorted)
  }

  /** GET /: the reports the joins and filters keep, newest first. */
  function List(t: ReportTable, appointments: map<nat, Appointment>, patients: map<nat, Patient>,
                f: ReportFilter): seq<nat>
  {
    SortNewest(t.rows, ListedIds(t.rows, appointments, patients, f, t.nextId))
  }

  /** The list holds each kept report exactly once and no other, newest first. */
  lemma ListIsSortedSelection(t: ReportTable, appointments: map<nat, Appointment>, patients: map<nat, Patient>,
                              f: ReportFilter)
    requires IdsBelow(t)
    ensures var r := List(t, appointments, patients, f);
      (forall i | 0 <= i < |r| :: r[i] in t.rows) && NewestFirst(t.rows, r)
      && forall j :: multiset(r)[j] == (if j in t.rows && Listed(appointments, patients, f, t.rows[j]) then 1 else 0)
  {
    var ids := ListedIds(t.rows, appointments, patients, f, t.nextId);
    forall j ensures multiset(ids)[j] == (if j in t.rows && Listed(appointments, patients, f, t.rows[j]) then 1 else 0) {
      DistinctCount(ids, j);
    }
  }

  /** In a strictly increasing sequence every value occurs at most once. */
  lemma {:induction false} DistinctCount(s: seq<nat>, x: nat)
    requires forall i, j | 0 <= i < j < |s| :: s[i] < s[j]
    ensures multiset(s)[x] == if x in s then 1 else 0
  {
    if s != [] {
      var last := s[|s| - 1];
      var init := s[..|s| - 1];
      assert s == init + [last];
      DistinctCount(init, x);
      if x == last {
        assert x !in init;
      }
    }
  }

  // ---------------------------------------------------------------- the table object

  class ReportStore {
    var rows: map<nat, Report>
    var nextId: nat

    function Snapshot(): ReportTable
      reads this
    {
      ReportTable(rows, nextId)
    }

    ghost predicate Valid()
      reads this
    {
      IdsBelow(Snapshot())
    }

    constructor ()
      ensures Valid() && rows == map[] && nextId == 1
    {
      rows := map[];
      nextId := 1;
    }

    /** POST / */
    method Create(appointments: map<nat, Appointment>, aid: Option<nat>, b: ReportBody, userId: Option<nat>, now: int)
      returns (out: ReportOutcome)
      requires Valid()
      modifies this
      ensures Valid()
      ensures (out, Snapshot()) == CreateSpec(old(Snapshot()), appointments, aid, b, userId, now)
    {
      if !PresentId(aid) || !Present(b.patientName) {
        return MissingReportFields;
      }
      if aid.value !in appointments {
        return AppointmentNotFound;
      }
      var existing := FirstReportFor(rows, aid.value, nextId);
      if existing.Some? {
        assert existing.value in ReportIdsFor(rows, aid.value);
        return ReportExists;
      }
      assert ReportIdsFor(rows, aid.value) == {};
      out := ReportCreated(nextId);
      rows := rows[nextId := NewReport(aid.value, b, userId, now)];
      nextId := nextId + 1;
    }

    /** PUT /:id */
    method Update(id: nat, b: ReportBody) returns (out: ReportOutcome)
      requires Valid()
      modifies this
      ensures Valid()
      ensures (out, Snapshot()) == UpdateSpec(old(Snapshot()), id, b)
    {
      if id !in rows {
        return ReportNotFound;
      }
      rows := rows[id := Rewrite(rows[id], b)];
      out := ReportUpdated;
    }

    /** PUT /appointment/:appointmentId */
    method Upsert(appointments: map<nat, Appointment>, aid: nat, b: ReportBody, userId: Option<nat>, now: int)
      returns (out: ReportOutcome)
      requires Valid()
      modifies this
      ensures Valid()
      ensures (out, Snapshot()) == UpsertSpec(old(Snapshot()), appointments, aid, b, userId, now)
    {
      if aid !in appointments {
        return AppointmentNotFound;
      }
      var existing := FirstReportFor(rows, aid, nextId);
      if existing.Some? {
        assert existing.value in ReportIdsFor(rows, aid);
        rows := RewriteFor(rows, aid, b);
        out := ReportUpdated;
      } else {
        assert ReportIdsFor(rows, aid) == {};
        out := ReportInserted(nextId);
        rows := rows[nextId := NewReport(aid, b, userId, now)];
        nextId := nextId + 1;
      }
    }

    /** DELETE /:id */
    method Delete(id: nat) returns (out: ReportOutcome)
      requires Valid()
      modifies this
      ensures Valid()
      ensures (out, Snapshot()) == DeleteSpec(old(Snapshot()), id)
    {
      if id !in rows {
        return ReportNotFound;
      }
      rows := rows - {id};
      out := ReportDeleted(id);
    }
  }
}
