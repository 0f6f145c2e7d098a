/** The calendar's data transformers: an appointment row of the API turned into the calendar's
    appointment, a calendar appointment turned into the API's request body, and a full name split
    into first and last name. A JavaScript Date is a `TimeSlots.DateTime`, `None` being an Invalid
    Date; `new Date()` is the parameter `today`. */
module DataTransformers {
  import opened Wrappers
  import opened Text
  import opened Schema
  import opened TimeSlots

  /** An appointment row as the API returns it, joined with its patient's name and contact fields. */
  datatype ApiAppointment = ApiAppointment(
    id: nat,
    patientId: nat,
    date: Option<string>,
    startTime: Option<string>,
    firstName: Option<string>,
    lastName: Option<string>,
    phone: Option<string>,
    dob: Option<string>,
    notes: Option<string>,
    status: Option<string>)

  /** The patient fields the calendar copies when the row has a date and a time. */
  datatype PatientDetails = PatientDetails(firstName: string, lastName: string, phone: string, dob: Option<string>, notes: string)

  /** The calendar's appointment; the fallback path sets no patient details. */
  datatype CalendarAppointment = CalendarAppointment(
    id: string,
    patientName: string,
    patientId: nat,
    details: Option<PatientDetails>,
    time: Option<DateTime>,
    status: string)

  /** What the calendar sends to create or update an appointment. */
  datatype Draft = Draft(time: Option<DateTime>, appointmentType: Option<string>, notes: Option<string>, status: Option<string>)

  /** The request body of the appointments API. */
  datatype ApiBody = ApiBody(
    patientId: nat,
    date: string,
    startTime: string,
    endTime: string,
    appointmentType: Option<string>,
    notes: Option<string>,
    status: string,
    serviceType: string)

  /** `status || 'scheduled'` */
  function StatusOrScheduled(status: Option<string>): string {
    if Present(status) then status.value else "scheduled"
  }

  /** `Number(s)` on the texts the API sends: the empty text is 0, a digit string its value, and
      anything else NaN (`None`). */
  function ReadNumber(s: string): Option<nat> {
    if s == "" then Some(0) else if AllDigits(s) then Some(DigitsValue(s)) else None
  }

  /** `new Date(year, month - 1, day, hour, minute)` from the fields of `YYYY-MM-DD` and `HH:MM...`;
      a year below 100 means 1900 + year. */
  function ApiDateTime(date: string, time: string): Option<DateTime> {
    var d := Split(date, '-');
    var t := Split(time, ':');
    if |d| < 3 || |t| < 2 then None
    else
      match (ReadNumber(d[0]), ReadNumber(d[1]), ReadNumber(d[2]), ReadNumber(t[0]), ReadNumber(t[1]))
      case (Some(y), Some(m), Some(day), Some(h), Some(mi)) =>
        var year := if y <= 99 then 1900 + y else y;
        if 1 <= m <= 12 && 1 <= day <= DaysInMonth(year, m - 1) && h < 24 && mi < 60
        then Some(DateTime(year, m - 1, day, h, mi, 0))
        else None
      case _ => None
  }

  /** `${first_name || ''} ${last_name || ''}`.trim() */
  function FullName(first: Option<string>, last: Option<string>): string {
    Trim(first.GetOr("") + " " + last.GetOr(""))
  }

  /** appointmentToFrontend */
  function AppointmentToFrontend(row: ApiAppointment, today: DateTime): (r: CalendarAppointment)
    ensures r.id == NatToString(row.id) && r.patientId == row.patientId
    ensures r.patientName == FullName(row.firstName, row.lastName) && r.status == StatusOrScheduled(row.status)
  {
    var name := FullName(row.firstName, row.lastName);
    if !Present(row.date) || !Present(row.startTime) then
      CalendarAppointment(NatToString(row.id), name, row.patientId, None,
                          Some(DateTime(today.year, today.month, today.day, 9, 0, 0)), StatusOrScheduled(row.status))
    else
      var details := PatientDetails(row.firstName.GetOr(""), row.lastName.GetOr(""), row.phone.GetOr(""),
                                    OrNull(row.dob), row.notes.GetOr(""));
      CalendarAppointment(NatToString(row.id), name, row.patientId, Some(details),
                          ApiDateTime(row.date.value, row.startTime.value), StatusOrScheduled(row.status))
  }

  /** The end of a 15-minute slot starting at `h:m`, the minutes carried into the hour. */
  function EndClock(h: nat, m: nat): (nat, nat) {
    (h + (m + 15) / 60, (m + 15) % 60)
  }

  /** `HH:MM:00` */
  function ClockText(h: nat, m: nat): string {
    Pad2(h) + ":" + Pad2(m) + ":00"
  }

  /** The `date` field: the year as a number, then the month and the day padded to two digits. */
  function BodyDate(x: DateTime): string {
    NatToString(x.year) + "-" + Pad2(x.month + 1) + "-" + Pad2(x.day)
  }

  /** appointmentToBackend. On an Invalid Date the fields come out as `0-undefined-undefined` and
      `NaN:NaN:00`, as the string conversions of `Number('')`, `undefined` and `NaN` give. */
  function AppointmentToBackend(a: Draft, patientId: nat, serviceType: Option<string>): (r: ApiBody)
    ensures r.patientId == patientId && r.appointmentType == a.appointmentType
    ensures r.notes == OrNull(a.notes) && r.status == StatusOrScheduled(a.status)
    ensures r.serviceType == serviceType.GetOr("doctor")
  {
    var service := serviceType.GetOr("doctor");
    match ToDate(a.time)
    case None =>
      ApiBody(patientId, "0-undefined-undefined", "NaN:NaN:00", "NaN:NaN:00", a.appointmentType,
              OrNull(a.notes), StatusOrScheduled(a.status), service)
    case Some(x) =>
      var (eh, em) := EndClock(x.hour, x.minute);
      ApiBody(patientId, BodyDate(x), ClockText(x.hour, x.minute), ClockText(eh, em),
              a.appointmentType, OrNull(a.notes), StatusOrScheduled(a.status), service)
  }

  /** Minutes after midnight written in `HH:MM:SS`, two digits to each field. */
  function ClockMinutes(t: string): Option<nat> {
    if && |t| == 8 && IsDigit(t[0]) && IsDigit(t[1]) && t[2] == ':' && IsDigit(t[3]) && IsDigit(t[4])
       && t[5] == ':' && IsDigit(t[6]) && IsDigit(t[7])
    then Some(TwoDigits(t[0], t[1]) * 60 + TwoDigits(t[3], t[4]))
    else None
  }

  /** The fields of a clock text. */
  lemma ClockTextParts(h: nat, m: nat)
    requires h < 100 && m < 100
    ensures Split(ClockText(h, m), ':') == [Pad2(h), Pad2(m), "00"]
  {
    DigitsHaveNo(Pad2(h), ':');
    DigitsHaveNo(Pad2(m), ':');
    assert ClockText(h, m) == Pad2(h) + [':'] + Pad2(m) + [':'] + "00";
    SplitThree(Pad2(h), Pad2(m), "00", ':');
  }

  /** The fields of a clock text read back as the hour and the minute. */
  lemma ClockTextFields(h: nat, m: nat)
    requires h < 100 && m < 100
    ensures var t := Split(ClockText(h, m), ':');
      |t| == 3 && ReadNumber(t[0]) == Some(h) && ReadNumber(t[1]) == Some(m)
  {
    ClockTextParts(h, m);
    Pad2Value(h);
    Pad2Value(m);
  }

  /** A clock text reads back as its minutes after midnight. */
  lemma ClockTextMinutes(h: nat, m: nat)
    requires h < 100 && m < 100
    ensures ClockMinutes(ClockText(h, m)) == Some(h * 60 + m)
  {
    Pad2Digits(h);
    Pad2Digits(m);
    ClockChars(Pad2(h), Pad2(m));
  }

  /** Where the characters of two two-digit fields sit in `HH:MM:00`. */
  lemma ClockChars(hh: string, mm: string)
    requires |hh| == 2 && |mm| == 2
    ensures var t := hh + ":" + mm + ":00";
      && |t| == 8 && t[0] == hh[0] && t[1] == hh[1] && t[2] == ':' && t[3] == mm[0] && t[4] == mm[1]
      && t[5] == ':' && t[6] == '0' && t[7] == '0'
  {
  }

  /** A slot ends fifteen minutes after it starts, whatever the hour: there is no wrap at midnight. */
  lemma EndClockLater(h: nat, m: nat)
    requires m < 60
    ensures EndClock(h, m).0 * 60 + EndClock(h, m).1 == h * 60 + m + 15
    ensures EndClock(h, m).1 < 60 && EndClock(h, m).0 <= h + 1
  {
  }

  /** The date and clock fields sent for a valid moment. */
  lemma BackendFields(a: Draft, patientId: nat, serviceType: Option<string>)
    requires ToDate(a.time).Some?
    ensures var r, x := AppointmentToBackend(a, patientId, serviceType), a.time.value;
      && r.date == BodyDate(x) && r.startTime == ClockText(x.hour, x.minute)
      && r.endTime == ClockText(EndClock(x.hour, x.minute).0, EndClock(x.hour, x.minute).1)
  {
  }

  /** The end time is fifteen minutes after the start time, with the minutes carried into the hour and
      no wrap at midnight. */
  lemma EndFifteenMinutesLater(a: Draft, patientId: nat, serviceType: Option<string>)
    requires ToDate(a.time).Some?
    ensures var r := AppointmentToBackend(a, patientId, serviceType);
      && ClockMinutes(r.startTime) == Some(MinuteOfDay(a.time.value))
      && ClockMinutes(r.endTime) == Some(MinuteOfDay(a.time.value) + 15)
  {
    var x := a.time.value;
    var r := AppointmentToBackend(a, patientId, serviceType);
    BackendFields(a, patientId, serviceType);
    ClockTextReadsAs(r.startTime, x.hour, x.minute, MinuteOfDay(x));
    EndTextReadsBack(x.hour, x.minute, r.endTime);
  }

  /** The end clock text of a start below hour 24 reads back as fifteen minutes after the start. */
  lemma EndTextReadsBack(h: nat, m: nat, t: string)
    requires h < 24 && m < 60 && t == ClockText(EndClock(h, m).0, EndClock(h, m).1)
    ensures ClockMinutes(t) == Some(h * 60 + m + 15)
  {
    var e := EndClock(h, m);
    assert e.0 < 100 && e.1 < 100 && e.0 * 60 + e.1 == h * 60 + m + 15 by {
      EndClockLater(h, m);
    }
    ClockTextReadsAs(t, e.0, e.1, h * 60 + m + 15);
  }

  /** A clock text reads back as any total the hour and the minute make. */
  lemma ClockTextReadsAs(t: string, h: nat, m: nat, total: nat)
    requires h < 100 && m < 100 && h * 60 + m == total && t == ClockText(h, m)
    ensures ClockMinutes(t) == Some(total)
  {
    ClockTextMinutes(h, m);
  }

  /** A slot starting at 23:45 ends at hour 24 (`24:00:00`): the end time does not wrap into the next
      day. */
  lemma LastQuarterEndsAtTwentyFour(a: Draft, patientId: nat, serviceType: Option<string>)
    requires ToDate(a.time).Some? && a.time.value.hour == 23 && a.time.value.minute == 45
    ensures ClockMinutes(AppointmentToBackend(a, patientId, serviceType).endTime) == Some(24 * 60)
  {
    EndFifteenMinutesLater(a, patientId, serviceType);
  }

  /** The fields of the date the body carries read back as the year, the 1-based month and the day. */
  lemma BodyDateFields(x: DateTime)
    requires x.month < 12 && x.day < 100
    ensures var d := Split(BodyDate(x), '-');
      && |d| == 3 && ReadNumber(d[0]) == Some(x.year) && ReadNumber(d[1]) == Some(x.month + 1)
      && ReadNumber(d[2]) == Some(x.day)
  {
    var mo := x.month + 1;
    DigitsHaveNo(NatToString(x.year), '-');
    DigitsHaveNo(Pad2(mo), '-');
    DigitsHaveNo(Pad2(x.day), '-');
    SplitThree(NatToString(x.year), Pad2(mo), Pad2(x.day), '-');
    DigitsValueOfNatToString(x.year);
    Pad2Value(mo);
    Pad2Value(x.day);
  }

  /** A valid moment from the year 100 on, written as the body's date and clock, reads back as that
      moment to the minute. */
  lemma ApiDateTimeReadsBack(x: DateTime)
    requires ValidDate(x) && x.year >= 100
    ensures ApiDateTime(BodyDate(x), ClockText(x.hour, x.minute)) == Some(x.(second := 0))
  {
    BodyDateFields(x);
    ClockTextFields(x.hour, x.minute);
  }

  /** The date and start time sent for a valid moment from the year 100 on read back as that moment
      to the minute. Years 0 to 99 come back in the 1900s. */
  lemma BackendRoundTrip(a: Draft, patientId: nat, serviceType: Option<string>)
    requires ToDate(a.time).Some? && a.time.value.year >= 100
    ensures var r := AppointmentToBackend(a, patientId, serviceType);
      ApiDateTime(r.date, r.startTime) == Some(a.time.value.(second := 0))
  {
    BackendFields(a, patientId, serviceType);
    ApiDateTimeReadsBack(a.time.value);
  }

  /** A row without a date or a start time is placed today at 09:00, with no patient details. */
  lemma MissingDateFallsBackToNine(row: ApiAppointment, today: DateTime)
    requires !Present(row.date) || !Present(row.startTime)
    ensures var r := AppointmentToFrontend(row, today);
      && r.details.None? && r.time.Some?
      && r.time.value.hour == 9 && r.time.value.minute == 0 && r.time.value.second == 0
      && (r.time.value.year, r.time.value.month, r.time.value.day) == (today.year, today.month, today.day)
    ensures ValidDate(today) ==> ValidDate(AppointmentToFrontend(row, today).time.value)
  {
  }

  /** The id is stringified: its text reads back as the id. */
  lemma FrontendIdReadsBack(row: ApiAppointment, today: DateTime)
    ensures AllDigits(AppointmentToFrontend(row, today).id)
    ensures DigitsValue(AppointmentToFrontend(row, today).id) == row.id
  {
    DigitsValueOfNatToString(row.id);
  }

  /** First and last name as parsePatientName returns them. */
  datatype NameParts = NameParts(firstName: string, lastName: string)

  /** parsePatientName: `None` where it throws `Patient name is required`. The trimmed name is split
      on runs of whitespace; one token is both names, otherwise the first token is the first name
      and the rest, joined by single spaces, the last name. */
  function ParsePatientName(fullName: Option<string>): (r: Option<NameParts>)
    ensures r.None? <==> !Present(fullName)
  {
    if !Present(fullName) then None
    else
      var parts := SplitWs(Trim(fullName.value));
      if |parts| == 1 then Some(NameParts(parts[0], parts[0]))
      else Some(NameParts(parts[0], Join(parts[1..], " ")))
  }

  /** A name of whitespace only gives empty names; any other name gives a non-empty first name
      without whitespace and a non-empty last name, both equal to the trimmed name when it is one
      word. */
  lemma ParsePatientNameShape(fullName: string)
    requires fullName != ""
    ensures var r := ParsePatientName(Some(fullName)).value;
      && (Trim(fullName) == "" ==> r == NameParts("", ""))
      && (Trim(fullName) != "" ==> r.firstName != "" && NoSpace(r.firstName) && r.lastName != "")
      && (NoSpace(Trim(fullName)) ==> r == NameParts(Trim(fullName), Trim(fullName)))
  {
    var t := Trim(fullName);
    TrimShape(fullName);
    SplitWsTokens(t);
    var parts := SplitWs(t);
    assert parts[0] in parts;
    if |parts| > 1 {
      assert parts[1] in parts;
      JoinHead(parts[1..], " ");
    }
    if t != "" && NoSpace(t) {
      SplitWsWord(t);
    }
  }

  /** A join of non-empty parts ends with the last part's last character. */
  lemma {:induction false} JoinLast(parts: seq<string>, sep: string)
    requires |parts| >= 1 && parts[|parts| - 1] != []
    ensures Join(parts, sep) != [] && Join(parts, sep)[|Join(parts, sep)| - 1] == parts[|parts| - 1][|parts[|parts| - 1]| - 1]
    decreases |parts|
  {
    if |parts| > 1 {
      JoinLast(parts[1..], sep);
    }
  }

  /** Words joined by single spaces parse back into the first word and the rest joined again. */
  lemma ParsePatientNameRoundTrip(all: seq<string>)
    requires |all| >= 2 && forall k | 0 <= k < |all| :: all[k] != [] && NoSpace(all[k])
    ensures ParsePatientName(Some(Join(all, " "))) == Some(NameParts(all[0], Join(all[1..], " ")))
  {
    var s := Join(all, " ");
    JoinHead(all, " ");
    JoinLast(all, " ");
    TrimNoop(s);
    SplitWsJoin(all);
  }

  /** `first + " " + last` is the join of the first name and the words of the last name. */
  lemma JoinFirstLast(first: string, words: seq<string>)
    requires |words| >= 1
    ensures Join([first] + words, " ") == first + " " + Join(words, " ")
    ensures ([first] + words)[1..] == words
  {
    assert ([first] + words)[1..] == words;
  }

  /** Such a full name is the words joined by single spaces. */
  lemma FullNameIsJoin(first: string, words: seq<string>)
    requires first != [] && NoSpace(first)
    requires |words| >= 1 && forall k | 0 <= k < |words| :: words[k] != [] && NoSpace(words[k])
    ensures FullName(Some(first), Some(Join(words, " "))) == Join([first] + words, " ")
  {
    var all := [first] + words;
    JoinFirstLast(first, words);
    JoinHead(all, " ");
    JoinLast(all, " ");
    TrimNoop(Join(all, " "));
  }

  /** The full name built from a first name of one word and a last name of words joined by single
      spaces parses back into those two names. */
  lemma FullNameParsesBack(first: string, words: seq<string>)
    requires first != [] && NoSpace(first)
    requires |words| >= 1 && forall k | 0 <= k < |words| :: words[k] != [] && NoSpace(words[k])
    ensures ParsePatientName(Some(FullName(Some(first), Some(Join(words, " ")))))
         == Some(NameParts(first, Join(words, " ")))
  {
    var all := [first] + words;
    FullNameIsJoin(first, words);
    JoinFirstLast(first, words);
    assert forall k | 0 <= k < |all| :: all[k] != [] && NoSpace(all[k]) by {
      forall k | 0 <= k < |all| ensures all[k] != [] && NoSpace(all[k]) {
        if k > 0 {
          assert all[k] == words[k - 1];
        }
      }
    }
    ParsePatientNameRoundTrip(all);
  }

  /** The calendar's patient name of such a row parses back into the row's two names. */
  lemma FrontendNameParsesBack(row: ApiAppointment, today: DateTime, words: seq<string>)
    requires row.firstName.Some? && row.firstName.value != [] && NoSpace(row.firstName.value)
    requires |words| >= 1 && forall k | 0 <= k < |words| :: words[k] != [] && NoSpace(words[k])
    requires row.lastName == Some(Join(words, " "))
    ensures ParsePatientName(Some(AppointmentToFrontend(row, today).patientName))
         == Some(NameParts(row.firstName.value, row.lastName.value))
  {
    FullNameParsesBack(row.firstName.value, words);
  }
}
