/** The calendar's application store: who is signed in, the view, the shift and the service mode,
    the appointments on screen and the global search. Each action of the store is a method of
    `Store` that updates its fields; the replies of the API are parameters of those methods, and
    `new Date()` is the parameter `today`. */
module AppStore {
  import opened Wrappers
  import opened Text
  import opened Schema
  import opened TimeSlots
  import opened DataTransformers

  /** What the server tells about the signed-in user. */
  datatype SessionUser = SessionUser(id: nat, username: string, role: string, name: string)

  /** The reply of the verify route; `None` stands for a request that threw. */
  datatype VerifyReply = VerifyReply(user: Option<SessionUser>, authenticated: bool)

  /** The reply of an API call: its data, or the message of the error it threw. */
  datatype Reply<T> = Ok(data: T) | Failed(message: string)

  /** A patient as the patients route returns it. */
  datatype FoundPatient = FoundPatient(id: nat, patient: Patient)

  /** What createOrFindPatient ends in: an existing patient, the patient to create, or one of its
      two errors. */
  datatype PatientOutcome =
    | Existing(found: FoundPatient)
    | Create(firstName: string, lastName: string, phone: Option<string>)
    | NameRequired
    | BothNamesRequired

  /** The fields an update may carry; `None` is a key the update does not set. */
  datatype Changes = Changes(
    patientName: Option<string>,
    time: Option<Option<DateTime>>,
    appointmentType: Option<string>,
    notes: Option<string>,
    status: Option<string>)

  /** `s.filter(keep)`: the elements that pass, in their order. */
  function Filter<T(!new)>(s: seq<T>, keep: T -> bool): (r: seq<T>)
    ensures |r| <= |s|
    ensures forall x :: x in r <==> x in s && keep(x)
  {
    if s == [] then [] else (if keep(s[0]) then [s[0]] else []) + Filter(s[1..], keep)
  }

  /** Filtering keeps the order: the kept elements of a concatenation are those of each part. */
  lemma {:induction false} FilterAppend<T(!new)>(a: seq<T>, b: seq<T>, keep: T -> bool)
    ensures Filter(a + b, keep) == Filter(a, keep) + Filter(b, keep)
  {
    if a == [] {
      assert a + b == b;
    } else {
      assert (a + b)[1..] == a[1..] + b;
      FilterAppend(a[1..], b, keep);
    }
  }

  /** A filter that every element passes changes nothing. */
  lemma {:induction false} FilterKeepsAll<T(!new)>(s: seq<T>, keep: T -> bool)
    requires forall k | 0 <= k < |s| :: keep(s[k])
    ensures Filter(s, keep) == s
  {
    if s != [] {
      FilterKeepsAll(s[1..], keep);
    }
  }

  /** Filtering twice with the same test is filtering once. */
  lemma {:induction false} FilterIdempotent<T(!new)>(s: seq<T>, keep: T -> bool)
    ensures Filter(Filter(s, keep), keep) == Filter(s, keep)
  {
    var r := Filter(s, keep);
    forall k | 0 <= k < |r| ensures keep(r[k]) {
      assert r[k] in r;
    }
    FilterKeepsAll(r, keep);
  }

  /** The search test: the lowercased name contains the lowercased, trimmed query. */
  predicate MatchesQuery(apt: CalendarAppointment, query: string) {
    Contains(ToLower(apt.patientName), Trim(ToLower(query)))
  }

  /** getFilteredAppointments: everything for a blank query, otherwise the appointments whose name
      matches, in order. */
  function FilteredAppointments(appointments: seq<CalendarAppointment>, query: string): seq<CalendarAppointment> {
    if query == "" || Trim(query) == "" then appointments
    else Filter(appointments, apt => MatchesQuery(apt, query))
  }

  /** The rows fetchAppointments keeps: every row whose status is not `cancelled`, in order. */
  function NotCancelled(rows: seq<ApiAppointment>): seq<ApiAppointment> {
    Filter(rows, (row: ApiAppointment) => row.status != Some("cancelled"))
  }

  /** The kept rows turned into calendar appointments. */
  function ShownAppointments(rows: seq<ApiAppointment>, today: DateTime): (r: seq<CalendarAppointment>)
    ensures |r| == |NotCancelled(rows)|
    ensures forall k | 0 <= k < |r| :: r[k] == AppointmentToFrontend(NotCancelled(rows)[k], today)
  {
    var kept := NotCancelled(rows);
    seq(|kept|, k requires 0 <= k < |kept| => AppointmentToFrontend(kept[k], today))
  }

  /** `today` at 12:00, the store's current date. */
  function Noon(today: DateTime): DateTime {
    DateTime(today.year, today.month, today.day, 12, 0, 0)
  }

  /** The first patient whose `first last`, lowercased, equals the lowercased full name. */
  function FirstExactMatch(found: seq<FoundPatient>, fullName: string): (r: Option<nat>)
    ensures r.Some? ==> r.value < |found| && ExactName(found[r.value], fullName)
    ensures r.Some? ==> forall j | 0 <= j < r.value :: !ExactName(found[j], fullName)
    ensures r.None? ==> forall j | 0 <= j < |found| :: !ExactName(found[j], fullName)
  {
    if found == [] then None
    else if ExactName(found[0], fullName) then Some(0)
    else match FirstExactMatch(found[1..], fullName)
      case None => None
      case Some(k) => Some(k + 1)
  }

  predicate ExactName(p: FoundPatient, fullName: string) {
    ToLower(p.patient.firstName + " " + p.patient.lastName) == ToLower(fullName)
  }

  /** createOrFindPatient, given what the search for the full name returned. */
  function CreateOrFindPatient(fullName: Option<string>, phone: Option<string>, found: seq<FoundPatient>): PatientOutcome {
    if !Present(fullName) || Trim(fullName.value) == "" then NameRequired
    else if |found| > 0 then
      match FirstExactMatch(found, fullName.value)
      case Some(k) => Existing(found[k])
      case None => Existing(found[0])
    else
      match ParsePatientName(fullName)
      case None => NameRequired
      case Some(parts) =>
        if parts.firstName == "" || parts.lastName == "" then BothNamesRequired
        else Create(parts.firstName, parts.lastName, OrNull(phone))
  }

  /** The first appointment with the id, as `find` returns it. */
  function FindById(appointments: seq<CalendarAppointment>, id: string): (r: Option<nat>)
    ensures r.Some? ==> r.value < |appointments| && appointments[r.value].id == id
    ensures r.Some? ==> forall j | 0 <= j < r.value :: appointments[j].id != id
    ensures r.None? ==> forall j | 0 <= j < |appointments| :: appointments[j].id != id
  {
    if appointments == [] then None
    else if appointments[0].id == id then Some(0)
    else match FindById(appointments[1..], id)
      case None => None
      case Some(k) => Some(k + 1)
  }

  /** `{ ...appointment, ...updates }` read as the fields appointmentToBackend uses. */
  function Merge(apt: CalendarAppointment, changes: Changes): Draft {
    Draft(
      if changes.time.Some? then changes.time.value else apt.time,
      changes.appointmentType,
      if changes.notes.Some? then changes.notes else if apt.details.Some? then Some(apt.details.value.notes) else None,
      if changes.status.Some? then changes.status else Some(apt.status))
  }

  /** The update asks for another patient when it carries a non-empty name that differs. */
  predicate NameChanged(apt: CalendarAppointment, changes: Changes) {
    Present(changes.patientName) && changes.patientName.value != apt.patientName
  }

  class Store {
    var user: Option<SessionUser>
    var isAuthenticated: bool
    var authLoading: bool
    var currentView: string
    var currentDate: DateTime
    var selectedShift: string
    var selectedMode: string
    var appointments: seq<CalendarAppointment>
    var loading: bool
    var error: Option<string>
    var globalSearchQuery: string

    /** The store as created: signed out, checking authentication, day view of today at noon, the
        morning shift and the doctor's mode, with nothing loaded. */
    constructor(today: DateTime)
      ensures user.None? && !isAuthenticated && authLoading
      ensures currentView == "day" && currentDate == Noon(today) && selectedShift == "morning"
      ensures selectedMode == "doctor" && appointments == [] && !loading && error.None?
      ensures globalSearchQuery == ""
    {
      user := None;
      isAuthenticated := false;
      authLoading := true;
      currentView := "day";
      currentDate := Noon(today);
      selectedShift := "morning";
      selectedMode := "doctor";
      appointments := [];
      loading := false;
      error := None;
      globalSearchQuery := "";
    }

    /** login: the user is signed in and the mode follows the role. */
    method Login(role: string, userData: SessionUser)
      modifies this
      ensures user == Some(userData) && isAuthenticated && selectedMode == role
      ensures authLoading == old(authLoading) && currentView == old(currentView) && currentDate == old(currentDate)
      ensures selectedShift == old(selectedShift) && appointments == old(appointments) && loading == old(loading)
      ensures error == old(error) && globalSearchQuery == old(globalSearchQuery)
    {
      user := Some(userData);
      isAuthenticated := true;
      selectedMode := role;
    }

    /** logout: whatever the server answered, the user, the mode, the appointments and the search are
        reset. */
    method Logout()
      modifies this
      ensures user.None? && !isAuthenticated && selectedMode == "doctor" && appointments == [] && globalSearchQuery == ""
      ensures authLoading == old(authLoading) && currentView == old(currentView) && currentDate == old(currentDate)
      ensures selectedShift == old(selectedShift) && loading == old(loading) && error == old(error)
    {
      user := None;
      isAuthenticated := false;
      selectedMode := "doctor";
      appointments := [];
      globalSearchQuery := "";
    }

    /** verifyAuth: signed in with the mode of the user's role when the server names an
        authenticated user, otherwise signed out; the check is over either way. */
    method VerifyAuth(reply: Option<VerifyReply>)
      modifies this
      ensures !authLoading
      ensures var ok := reply.Some? && reply.value.user.Some? && reply.value.authenticated;
        && isAuthenticated == ok
        && user == (if ok then reply.value.user else old(user))
        && selectedMode == (if ok then reply.value.user.value.role else old(selectedMode))
      ensures currentView == old(currentView) && currentDate == old(currentDate) && selectedShift == old(selectedShift)
      ensures appointments == old(appointments) && loading == old(loading) && error == old(error)
      ensures globalSearchQuery == old(globalSearchQuery)
    {
      authLoading := true;
      if reply.Some? && reply.value.user.Some? && reply.value.authenticated {
        user := reply.value.user;
        isAuthenticated := true;
        selectedMode := reply.value.user.value.role;
        authLoading := false;
      } else {
        isAuthenticated := false;
        authLoading := false;
      }
    }

    method SetSelectedMode(mode: string)
      modifies this`selectedMode
      ensures selectedMode == mode
    {
      selectedMode := mode;
    }

    method SetGlobalSearchQuery(query: string)
      modifies this`globalSearchQuery
      ensures globalSearchQuery == query
    {
      globalSearchQuery := query;
    }

    method SetCurrentView(view: string)
      modifies this`currentView
      ensures currentView == view
    {
      currentView := view;
    }

    method SetCurrentDate(date: DateTime)
      modifies this`currentDate
      ensures currentDate == date
    {
      currentDate := date;
    }

    method SetSelectedShift(shift: string)
      modifies this`selectedShift
      ensures selectedShift == shift
    {
      selectedShift := shift;
    }

    /** goToToday: the current date becomes today at noon. */
    method GoToToday(today: DateTime)
      modifies this`currentDate
      ensures currentDate == Noon(today)
    {
      currentDate := Noon(today);
    }

    /** getFilteredAppointments */
    function GetFilteredAppointments(): seq<CalendarAppointment>
      reads this
    {
      FilteredAppointments(appointments, globalSearchQuery)
    }

    /** The filters fetchAppointments sends: the caller's, with `service_type` set to the mode when
        the mode is not empty. */
    function FetchFilters(filters: map<string, string>): (r: map<string, string>)
      reads this
      ensures selectedMode != "" ==> r == filters["service_type" := selectedMode]
      ensures selectedMode == "" ==> r == filters
    {
      if selectedMode != "" then filters["service_type" := selectedMode] else filters
    }

    /** fetchAppointments, given the API's reply to the filters it sent: on success the store holds
        the rows that are not cancelled, transformed, and returns them; on failure it records the
        message and keeps its appointments. */
    method FetchAppointments(reply: Reply<seq<ApiAppointment>>, today: DateTime) returns (shown: Option<seq<CalendarAppointment>>)
      modifies this`appointments, this`loading, this`error
      ensures !loading
      ensures reply.Ok? ==> shown == Some(ShownAppointments(reply.data, today)) && appointments == shown.value && error.None?
      ensures reply.Failed? ==> shown.None? && appointments == old(appointments) && error == Some(reply.message)
    {
      loading, error := true, None;
      match reply
      case Ok(rows) =>
        var transformed := ShownAppointments(rows, today);
        appointments, loading := transformed, false;
        shown := Some(transformed);
      case Failed(message) =>
        error, loading := Some(message), false;
        shown := None;
    }

    /** addAppointment once the patient is known: the body sent to the API, in the store's mode.
        The loading flag stays on until the following fetch. */
    method AddAppointment(appointment: Draft, patientId: nat) returns (body: ApiBody)
      modifies this`loading, this`error
      ensures loading && error.None?
      ensures body == AppointmentToBackend(appointment, patientId, Some(selectedMode))
    {
      loading, error := true, None;
      body := AppointmentToBackend(appointment, patientId, Some(selectedMode));
    }

    /** updateAppointment: an id that is not in the store fails with `Appointment not found`;
        otherwise the changes are merged over the first appointment with that id and sent in the
        store's mode, for the patient `newPatientId` that createOrFindPatient found when the name
        changed, and for the appointment's own patient otherwise. */
    method UpdateAppointment(id: string, changes: Changes, newPatientId: nat) returns (body: Option<ApiBody>)
      modifies this`loading, this`error
      ensures FindById(appointments, id).None? ==> body.None? && !loading && error == Some("Appointment not found")
      ensures FindById(appointments, id).Some? ==>
        var apt := appointments[FindById(appointments, id).value];
        && loading && error.None?
        && body == Some(AppointmentToBackend(Merge(apt, changes),
                                             if NameChanged(apt, changes) then newPatientId else apt.patientId,
                                             Some(selectedMode)))
    {
      loading, error := true, None;
      var found := FindById(appointments, id);
      if found.None? {
        error, loading := Some("Appointment not found"), false;
        return None;
      }
      var apt := appointments[found.value];
      var patientId := apt.patientId;
      if Present(changes.patientName) && changes.patientName.value != apt.patientName {
        patientId := newPatientId;
      }
      body := Some(AppointmentToBackend(Merge(apt, changes), patientId, Some(selectedMode)));
    }

    /** deleteAppointment, given whether the API call failed: on success every appointment with the
        id leaves the list and the others stay in order. */
    method DeleteAppointment(id: string, failure: Option<string>)
      modifies this`appointments, this`loading, this`error
      ensures !loading && error == failure
      ensures failure.None? ==> appointments == Filter(old(appointments), (apt: CalendarAppointment) => apt.id != id)
      ensures failure.Some? ==> appointments == old(appointments)
    {
      loading, error := true, None;
      if failure.None? {
        appointments := Filter(appointments, (apt: CalendarAppointment) => apt.id != id);
        loading := false;
      } else {
        error, loading := failure, false;
      }
    }

    /** The catch blocks of the actions: the message is recorded and loading stops. */
    method RecordFailure(message: string)
      modifies this`loading, this`error
      ensures !loading && error == Some(message)
    {
      error, loading := Some(message), false;
    }
  }

  /** A blank query shows every appointment; otherwise exactly the matching ones are shown, in their
      order, so the result is a subsequence of the appointments. */
  lemma FilteredAppointmentsMeaning(appointments: seq<CalendarAppointment>, query: string, other: seq<CalendarAppointment>)
    ensures Trim(query) == "" ==> FilteredAppointments(appointments, query) == appointments
    ensures Trim(query) != "" ==> forall apt ::
      apt in FilteredAppointments(appointments, query) <==> apt in appointments && MatchesQuery(apt, query)
    ensures FilteredAppointments(appointments + other, query)
         == FilteredAppointments(appointments, query) + FilteredAppointments(other, query)
  {
    if query != "" && Trim(query) != "" {
      FilterAppend(appointments, other, apt => MatchesQuery(apt, query));
    }
  }

  /** After a fetch no appointment on screen is cancelled, and their number is that of the rows not
      cancelled. */
  lemma ShownNeverCancelled(rows: seq<ApiAppointment>, today: DateTime)
    ensures forall apt | apt in ShownAppointments(rows, today) :: apt.status != "cancelled"
    ensures |ShownAppointments(rows, today)| <= |rows|
  {
    var kept := NotCancelled(rows);
    forall apt | apt in ShownAppointments(rows, today) ensures apt.status != "cancelled" {
      var k :| 0 <= k < |kept| && apt == AppointmentToFrontend(kept[k], today);
      assert kept[k] in kept;
    }
  }

  /** Deleting an id removes every appointment with it, keeps the others, and a second delete of the
      same id changes nothing. */
  lemma DeleteMeaning(appointments: seq<CalendarAppointment>, id: string)
    ensures var r := Filter(appointments, (apt: CalendarAppointment) => apt.id != id);
      && (forall apt :: apt in r <==> apt in appointments && apt.id != id)
      && Filter(r, (apt: CalendarAppointment) => apt.id != id) == r
  {
    FilterIdempotent(appointments, (apt: CalendarAppointment) => apt.id != id);
  }

  /** createOrFindPatient fails with `Patient name is required` exactly for a missing, empty or blank
      name, and never with `Both first name and last name are required`. */
  lemma CreateOrFindPatientErrors(fullName: Option<string>, phone: Option<string>, found: seq<FoundPatient>)
    ensures CreateOrFindPatient(fullName, phone, found) == NameRequired <==> !Present(fullName) || Trim(fullName.value) == ""
    ensures CreateOrFindPatient(fullName, phone, found) != BothNamesRequired
  {
    if Present(fullName) && Trim(fullName.value) != "" && |found| == 0 {
      ParsePatientNameShape(fullName.value);
    }
  }

  /** When the search finds patients, the first exact match (ignoring case) is returned, and the first
      patient found when there is none. */
  lemma CreateOrFindPrefersExactMatch(fullName: string, phone: Option<string>, found: seq<FoundPatient>)
    requires Trim(fullName) != "" && |found| > 0
    ensures var r := CreateOrFindPatient(Some(fullName), phone, found);
      && r.Existing? && r.found in found
      && ((exists k | 0 <= k < |found| :: ExactName(found[k], fullName)) ==> ExactName(r.found, fullName))
      && ((forall k | 0 <= k < |found| :: !ExactName(found[k], fullName)) ==> r.found == found[0])
  {
    assert Present(Some(fullName));
    var m := FirstExactMatch(found, fullName);
    assert CreateOrFindPatient(Some(fullName), phone, found) == Existing(if m.Some? then found[m.value] else found[0]);
  }

  /** When the search finds nobody, a patient is created from the parsed name, with the phone or null. */
  lemma CreateOrFindCreatesParsed(fullName: string, phone: Option<string>)
    requires Trim(fullName) != ""
    ensures var parts := ParsePatientName(Some(fullName)).value;
      CreateOrFindPatient(Some(fullName), phone, []) == Create(parts.firstName, parts.lastName, OrNull(phone))
  {
    ParsePatientNameShape(fullName);
  }

  /** A merge without changes keeps the appointment's time, notes and status, and asks for the same
      patient. */
  lemma MergeNothing(apt: CalendarAppointment)
    ensures var d := Merge(apt, Changes(None, None, None, None, None));
      && d.time == apt.time && d.status == Some(apt.status) && d.appointmentType.None?
      && (apt.details.Some? ==> d.notes == Some(apt.details.value.notes))
    ensures !NameChanged(apt, Changes(None, None, None, None, None))
  {
  }
}
