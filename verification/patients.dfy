/** The patient routes: create, full replace, delete guarded by appointments, and the searched list
    ordered by last then first name. */
module Patients {
  import opened Wrappers
  import opened Text
  import opened Schema

  datatype PatientTable = PatientTable(rows: map<nat, Patient>, nextId: nat)

  predicate IdsBelow(t: PatientTable) { forall id | id in t.rows :: id < t.nextId }

  /** A patient body as sent; `None` is an absent field. */
  datatype PatientBody = PatientBody(
    firstName: Option<string>, lastName: Option<string>,
    phone: Option<string>, dob: Option<string>, notes: Option<string>)

  datatype PatientOutcome =
    | PatientCreated(id: nat)    // 201
    | PatientUpdated(id: nat)
    | PatientDeleted(id: nat)
    | MissingNames               // 400
    | HasAppointments            // 400
    | PatientNotFound            // 404

  function StatusCode(o: PatientOutcome): nat {
    match o
    case PatientCreated(_) => 201
    case PatientUpdated(_) => 200
    case PatientDeleted(_) => 200
    case MissingNames => 400
    case HasAppointments => 400
    case PatientNotFound => 404
  }

  /** The status a storage error code maps to on create and update: a unique violation is a conflict,
      a not-null violation a bad request, anything else a server error. */
  function WriteErrorStatus(code: string): (r: nat)
    ensures r == 409 <==> code == "23505"
    ensures r == 400 <==> code == "23502"
    ensures r == 500 <==> code != "23505" && code != "23502"
  {
    if code == "23505" then 409 else if code == "23502" then 400 else 500
  }

  /** On delete only a foreign-key violation is a bad request. */
  function DeleteErrorStatus(code: string): (r: nat)
    ensures r == 400 <==> code == "23503"
    ensures r == 500 <==> code != "23503"
  {
    if code == "23503" then 400 else 500
  }

  predicate HasNames(b: PatientBody) { Present(b.firstName) && Present(b.lastName) }

  /** The row written by create and by update: the names, and the other fields as `value || null`. */
  function NewPatient(b: PatientBody): (p: Patient)
    requires HasNames(b)
    ensures p.firstName == b.firstName.value && p.lastName == b.lastName.value
    ensures p.phone.Some? <==> Present(b.phone)
    ensures p.dob.Some? <==> Present(b.dob)
    ensures p.notes.Some? <==> Present(b.notes)
  {
    Patient(b.firstName.value, b.lastName.value, OrNull(b.phone), OrNull(b.dob), OrNull(b.notes))
  }

  /** The appointments that name a patient, whatever their status. */
  function ReferencingAppointments(appointments: map<nat, Appointment>, id: nat): set<nat> {
    set j | j in appointments && appointments[j].patientId == id
  }

  // ---------------------------------------------------------------- operations

  function CreateSpec(t: PatientTable, b: PatientBody): (PatientOutcome, PatientTable) {
    if !HasNames(b) then (MissingNames, t)
    else (PatientCreated(t.nextId), PatientTable(t.rows[t.nextId := NewPatient(b)], t.nextId + 1))
  }

  /** PUT: names are checked before the row is looked up; the whole row is replaced. */
  function UpdateSpec(t: PatientTable, id: nat, b: PatientBody): (PatientOutcome, PatientTable) {
    if !HasNames(b) then (MissingNames, t)
    else if id !in t.rows then (PatientNotFound, t)
    else (PatientUpdated(id), PatientTable(t.rows[id := NewPatient(b)], t.nextId))
  }

  /** DELETE: refused while any appointment names the patient (checked before the row is looked up). */
  function DeleteSpec(t: PatientTable, appointments: map<nat, Appointment>, id: nat): (PatientOutcome, PatientTable) {
    if |ReferencingAppointments(appointments, id)| > 0 then (HasAppointments, t)
    else if id !in t.rows then (PatientNotFound, t)
    else (PatientDeleted(id), PatientTable(t.rows - {id}, t.nextId))
  }

  // ---------------------------------------------------------------- properties

  /** Create: 400 exactly when a name is falsy, table unchanged; otherwise one new row under a fresh id. */
  lemma CreateEffects(t: PatientTable, b: PatientBody)
    requires IdsBelow(t)
    ensures var (out, t') := CreateSpec(t, b);
      && (out == MissingNames <==> !Present(b.firstName) || !Present(b.lastName))
      && (out == MissingNames ==> t' == t)
      && (out.PatientCreated? ==> (out.id !in t.rows && t'.rows == t.rows[out.id := NewPatient(b)] && IdsBelow(t')))
  {
  }

  /** Update: 400 on a falsy name even for an absent id, then 404 for an absent id; a success replaces
      the row by the body alone, so the old values of absent fields are lost. */
  lemma UpdateEffects(t: PatientTable, id: nat, b: PatientBody)
    ensures var (out, t') := UpdateSpec(t, id, b);
      && (out == MissingNames <==> !HasNames(b))
      && (out == PatientNotFound <==> HasNames(b) && id !in t.rows)
      && (!out.PatientUpdated? ==> t' == t)
      && (out.PatientUpdated? ==> (t'.rows.Keys == t.rows.Keys && t'.rows[id] == NewPatient(b)
            && forall j | j in t.rows && j != id :: t'.rows[j] == t.rows[j]))
  {
  }

  /** The update is not partial: an absent phone, date of birth or note becomes null whatever was
      stored before. */
  lemma UpdateIsNotPartial(t: PatientTable, id: nat, b: PatientBody)
    requires HasNames(b) && id in t.rows && !Present(b.phone) && !Present(b.dob) && !Present(b.notes)
    ensures var t' := UpdateSpec(t, id, b).1;
      t'.rows[id].phone == None && t'.rows[id].dob == None && t'.rows[id].notes == None
  {
  }

  /** Delete: refused exactly while some appointment names the patient, then 404 for an absent row;
      a success removes exactly that row, and no appointment is left naming a missing patient. */
  lemma DeleteEffects(t: PatientTable, appointments: map<nat, Appointment>, id: nat)
    ensures var (out, t') := DeleteSpec(t, appointments, id);
      && (out == HasAppointments <==> exists j :: j in appointments && appointments[j].patientId == id)
      && (out == PatientNotFound <==> ReferencingAppointments(appointments, id) == {} && id !in t.rows)
      && (!out.PatientDeleted? ==> t' == t)
      && (out.PatientDeleted? ==> t'.rows.Keys == t.rows.Keys - {id} && forall j | j in t'.rows :: t'.rows[j] == t.rows[j])
      && (NoDanglingPatients(t.rows, appointments) ==> NoDanglingPatients(t'.rows, appointments))
  {
    var refs := ReferencingAppointments(appointments, id);
    if exists j :: j in appointments && appointments[j].patientId == id {
      var j :| j in appointments && appointments[j].patientId == id;
      assert j in refs;
    } else {
      assert refs == {};
    }
  }

  // ---------------------------------------------------------------- search and order

  /** `haystack ILIKE '%needle%'`: case-insensitive containment. */
  predicate ContainsIgnoringCase(haystack: string, needle: string) {
    Contains(ToLower(haystack), ToLower(needle))
  }

  /** A patient is found when the first name, last name or phone contains the term. */
  predicate MatchesSearch(p: Patient, term: string) {
    ContainsIgnoringCase(p.firstName, term) || ContainsIgnoringCase(p.lastName, term)
    || (p.phone.Some? && ContainsIgnoringCase(p.phone.value, term))
  }

  /** The search applies only when the term is truthy. */
  predicate Selected(p: Patient, search: Option<string>) {
    !Present(search) || MatchesSearch(p, search.value)
  }

  /** `ORDER BY last_name, first_name`. */
  predicate NameOrder(p: Patient, q: Patient) {
    LexLess(p.lastName, q.lastName) || (p.lastName == q.lastName && LexLe(p.firstName, q.firstName))
  }

  /** Any two patients are ordered one way or the other. */
  lemma NameOrderTotal(p: Patient, q: Patient)
    ensures NameOrder(p, q) || NameOrder(q, p)
  {
    LexLessTotal(p.lastName, q.lastName);
    LexLessTotal(p.firstName, q.firstName);
  }

  /** The order is transitive, so a list sorted pair by pair is sorted throughout. */
  lemma NameOrderTransitive(p: Patient, q: Patient, r: Patient)
    requires NameOrder(p, q) && NameOrder(q, r)
    ensures NameOrder(p, r)
  {
    if LexLess(p.lastName, q.lastName) && LexLess(q.lastName, r.lastName) {
      LexLessTransitive(p.lastName, q.lastName, r.lastName);
    } else if p.lastName == q.lastName == r.lastName && p.firstName != r.firstName {
      if LexLess(p.firstName, q.firstName) && LexLess(q.firstName, r.firstName) {
        LexLessTransitive(p.firstName, q.firstName, r.firstName);
      }
    }
  }

  predicate ByName(rows: map<nat, Patient>, s: seq<nat>)
    requires forall i | 0 <= i < |s| :: s[i] in rows
  {
    forall i, j | 0 <= i < j < |s| :: NameOrder(rows[s[i]], rows[s[j]])
  }

  /** The selected ids below `bound`, in increasing order. */
  function SelectedIds(rows: map<nat, Patient>, search: Option<string>, bound: nat): (r: seq<nat>)
    ensures forall i | 0 <= i < |r| :: r[i] < bound && r[i] in rows && Selected(rows[r[i]], search)
    ensures forall j | j < bound && j in rows && Selected(rows[j], search) :: j in r
    ensures forall i, j | 0 <= i < j < |r| :: r[i] < r[j]
  {
    if bound == 0 then []
    else
      var prefix := SelectedIds(rows, search, bound - 1);
      if bound - 1 in rows && Selected(rows[bound - 1], search) then prefix + [bound - 1] else prefix
  }

  /** Places `id` before the first patient it does not come after. */
  function InsertByName(rows: map<nat, Patient>, id: nat, s: seq<nat>): (r: seq<nat>)
    requires id in rows && forall i | 0 <= i < |s| :: s[i] in rows
    ensures multiset(r) == multiset(s) + multiset{id}
    ensures forall i | 0 <= i < |r| :: r[i] == id || r[i] in s
  {
    if s == [] then [id]
    else if NameOrder(rows[id], rows[s[0]]) then [id] + s
    else
      assert s == [s[0]] + s[1..];
      [s[0]] + InsertByName(rows, id, s[1..])
  }

  lemma {:induction false} InsertByNameSorted(rows: map<nat, Patient>, id: nat, s: seq<nat>)
    requires id in rows && forall i | 0 <= i < |s| :: s[i] in rows
    requires ByName(rows, s)
    ensures var r := InsertByName(rows, id, s);
      (forall i | 0 <= i < |r| :: r[i] in rows) && ByName(rows, r)
  {
    if s != [] {
      if NameOrder(rows[id], rows[s[0]]) {
        forall x | x in s ensures NameOrder(rows[id], rows[x]) {
          var k :| 0 <= k < |s| && s[k] == x;
          if k > 0 {
            NameOrderTransitive(rows[id], rows[s[0]], rows[x]);
          }
        }
        assert s == [s[0]] + s[1..];
        ConsByName(rows, id, s);
      } else {
        NameOrderTotal(rows[id], rows[s[0]]);
        var rest := InsertByName(rows, id, s[1..]);
        InsertByNameSorted(rows, id, s[1..]);
        forall x | x in rest ensures NameOrder(rows[s[0]], rows[x]) {
          if x != id {
            var k :| 0 <= k < |s[1..]| && s[1..][k] == x;
            assert s[k + 1] == x;
          }
        }
        ConsByName(rows, s[0], rest);
      }
    }
  }

  /** A patient ordered before every patient of a list sorted by name can head it. */
  lemma ConsByName(rows: map<nat, Patient>, head: nat, rest: seq<nat>)
    requires head in rows && forall i | 0 <= i < |rest| :: rest[i] in rows
    requires ByName(rows, rest)
    requires forall x | x in rest :: NameOrder(rows[head], rows[x])
    ensures var r := [head] + rest;
      (forall i | 0 <= i < |r| :: r[i] in rows) && ByName(rows, r)
  {
    var r := [head] + rest;
    forall i, j | 0 <= i < j < |r| ensures NameOrder(rows[r[i]], rows[r[j]]) {
      assert r[j] == rest[j - 1];
      if i > 0 {
        assert r[i] == rest[i - 1];
      } else {
        assert rest[j - 1] in rest;
      }
    }
  }


  function SortByName(rows: map<nat, Patient>, s: seq<nat>): (r: seq<nat>)
    requires forall i | 0 <= i < |s| :: s[i] in rows
    ensures multiset(r) == multiset(s)
    ensures (forall i | 0 <= i < |r| :: r[i] in rows) && ByName(rows, r)
  {
    if s == [] then []
    else
      assert s == [s[0]] + s[1..];
      var sorted := SortByName(rows, s[1..]);
      InsertByNameSorted(rows, s[0], sorted);
      InsertByName(rows, s[0], sorted)
  }

  /** GET /: the patients the search keeps, ordered by last then first name. */
  function List(t: PatientTable, search: Option<string>): seq<nat> {
    SortByName(t.rows, SelectedIds(t.rows, search, t.nextId))
  }

  /** The list holds each selected patient exactly once and no other, in name order; without a
      truthy term it holds every patient. */
  lemma ListIsSortedSelection(t: PatientTable, search: Option<string>)
    requires IdsBelow(t)
    ensures var r := List(t, search);
      (forall i | 0 <= i < |r| :: r[i] in t.rows) && ByName(t.rows, r)
      && (forall j :: multiset(r)[j] == (if j in t.rows && Selected(t.rows[j], search) then 1 else 0))
      && (!Present(search) ==> |r| == |t.rows|)
  {
    var ids := SelectedIds(t.rows, search, t.nextId);
    var r := List(t, search);
    forall j ensures multiset(ids)[j] == (if j in t.rows && Selected(t.rows[j], search) then 1 else 0) {
      DistinctCount(ids, j);
    }
    if !Present(search) {
      assert multiset(r) == multiset(ids);
      assert |r| == |multiset(r)|;
      SameElementsSameSize(ids, t.rows.Keys);
    }
  }

  /** A strictly increasing sequence holding exactly the elements of a set has the set's size. */
  lemma SameElementsSameSize(s: seq<nat>, keys: set<nat>)
    requires forall i, j | 0 <= i < j < |s| :: s[i] < s[j]
    requires forall x :: x in s <==> x in keys
    ensures |s| == |keys|
    decreases |s|
  {
    if s != [] {
      var last := s[|s| - 1];
      var init := s[..|s| - 1];
      assert forall x :: x in init <==> x in keys - {last} by {
        forall x ensures x in init <==> x in keys - {last} {
          if x in init {
            var k :| 0 <= k < |init| && init[k] == x;
            assert s[k] == x;
          }
          if x in keys - {last} {
            assert x in s;
            var k :| 0 <= k < |s| && s[k] == x;
            assert k != |s| - 1;
            assert init[k] == x;
          }
        }
      }
      SameElementsSameSize(init, keys - {last});
    }
  }

  /** In a strictly increasing sequence every value occurs at most once. */
  lemma {:induction false} DistinctCount(s: seq<nat>, x: nat)
    requires forall i, j | 0 <= i < j < |s| :: s[i] < s[j]
    ensures multiset(s)[x] == if x in s then 1 else 0
  {
    if s != [] {
      var last := s[|s| - 1];
      var init := s[..|s| - 1];
      assert s == init + [last];
      DistinctCount(init, x);
      if x == last {
        assert x !in init;
      }
    }
  }

  // ---------------------------------------------------------------- the table object

  class PatientStore {
    var rows: map<nat, Patient>
    var nextId: nat

    function Snapshot(): PatientTable
      reads this
    {
      PatientTable(rows, nextId)
    }

    ghost predicate Valid()
      reads this
    {
      IdsBelow(Snapshot())
    }

    constructor ()
      ensures Valid() && rows == map[] && nextId == 1
    {
      rows := map[];
      nextId := 1;
    }

    method Create(b: PatientBody) returns (out: PatientOutcome)
      requires Valid()
      modifies this
      ensures Valid()
      ensures (out, Snapshot()) == CreateSpec(old(Snapshot()), b)
    {
      if !Present(b.firstName) || !Present(b.lastName) {
        return MissingNames;
      }
      out := PatientCreated(nextId);
      rows := rows[nextId := NewPatient(b)];
      nextId := nextId + 1;
    }

    method Update(id: nat, b: PatientBody) returns (out: PatientOutcome)
      requires Valid()
      modifies this
      ensures Valid()
      ensures (out, Snapshot()) == UpdateSpec(old(Snapshot()), id, b)
    {
      if !Present(b.firstName) || !Present(b.lastName) {
        return MissingNames;
      }
      if id !in rows {
        return PatientNotFound;
      }
      rows := rows[id := NewPatient(b)];
      out := PatientUpdated(id);
    }

    method Delete(appointments: map<nat, Appointment>, id: nat) returns (out: PatientOutcome)
      requires Valid()
      modifies this
      ensures Valid()
      ensures (out, Snapshot()) == DeleteSpec(old(Snapshot()), appointments, id)
    {
      var count := |ReferencingAppointments(appointments, id)|;
      if count > 0 {
        return HasAppointments;
      }
      if id !in rows {
        return PatientNotFound;
      }
      rows := rows - {id};
      out := PatientDeleted(id);
    }
  }
}
