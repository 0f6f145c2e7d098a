/** The calendar's time helpers: the 15-minute slots of a shift, the `HH:mm` and `yyyy-MM-dd`
    formats, the `DD/MM/YYYY` input format with its calendar check, and the same-slot test.
    A JavaScript Date is modelled by its local components; `None` stands for a missing value or an
    Invalid Date. */
module TimeSlots {
  import opened Wrappers
  import opened Text
  import opened Schema

  /** Local date and time, with the month counted from 0 as `getMonth()` does. */
  datatype DateTime = DateTime(year: nat, month: nat, day: nat, hour: nat, minute: nat, second: nat)

  predicate IsLeap(y: nat) { (y % 4 == 0 && y % 100 != 0) || y % 400 == 0 }

  function DaysInMonth(y: nat, m: nat): (n: nat)
    requires m < 12
    ensures 28 <= n <= 31
    ensures n == 29 <==> m == 1 && IsLeap(y)
  {
    if m == 1 then (if IsLeap(y) then 29 else 28)
    else if m == 3 || m == 5 || m == 8 || m == 10 then 30
    else 31
  }

  /** A real calendar moment. */
  predicate ValidDate(d: DateTime) {
    d.month < 12 && 1 <= d.day <= DaysInMonth(d.year, d.month) && d.hour < 24 && d.minute < 60 && d.second < 60
  }

  /** toDate on a Date value: only a valid one is kept. */
  function ToDate(v: Option<DateTime>): (r: Option<DateTime>)
    ensures r.Some? <==> v.Some? && ValidDate(v.value)
    ensures r.Some? ==> r == v
  {
    if v.Some? && ValidDate(v.value) then v else None
  }

  function MinuteOfDay(d: DateTime): nat { d.hour * 60 + d.minute }

  /** The start and end hour of a shift: 9 to 17 for `morning`, 14 to 21 for anything else. */
  function ShiftHours(shift: string): (nat, nat) {
    if shift == "morning" then (9, 17) else (14, 21)
  }

  /** The moment `minutes` after midnight on the day of `date`. */
  function SlotAt(date: DateTime, minutes: nat): DateTime {
    DateTime(date.year, date.month, date.day, minutes / 60, minutes % 60, 0)
  }

  /** The slots of a shift, every 15 minutes from its start hour up to, not including, its end hour. */
  function TimeSlots(date: DateTime, shift: string): seq<DateTime> {
    var (startHour, endHour) := ShiftHours(shift);
    seq((endHour - startHour) * 4, k requires 0 <= k => SlotAt(date, startHour * 60 + 15 * k))
  }

  /** generateTimeSlots: pushes a slot and advances by 15 minutes while before the end hour. */
  method GenerateTimeSlots(date: DateTime, shift: string) returns (slots: seq<DateTime>)
    ensures slots == TimeSlots(date, shift)
  {
    slots := [];
    var startHour := if shift == "morning" then 9 else 14;
    var endHour := if shift == "morning" then 17 else 21;
    var currentTime := startHour * 60;
    var endTime := endHour * 60;
    while currentTime < endTime
      invariant currentTime == startHour * 60 + 15 * |slots| <= endTime
      invariant slots == TimeSlots(date, shift)[..|slots|]
      decreases endTime - currentTime
    {
      slots := slots + [SlotAt(date, currentTime)];
      currentTime := currentTime + 15;
    }
  }

  /** A morning has 32 slots from 09:00, any other shift 28 from 14:00; each is on the given day,
      on a quarter hour before the end hour, and 15 minutes after the one before. */
  lemma TimeSlotsShape(date: DateTime, shift: string)
    ensures shift == "morning" ==> |TimeSlots(date, shift)| == 32
    ensures shift != "morning" ==> |TimeSlots(date, shift)| == 28
    ensures forall k | 0 <= k < |TimeSlots(date, shift)| ::
      var slot := TimeSlots(date, shift)[k];
      && slot.year == date.year && slot.month == date.month && slot.day == date.day
      && MinuteOfDay(slot) == ShiftHours(shift).0 * 60 + 15 * k
      && ShiftHours(shift).0 <= slot.hour < ShiftHours(shift).1
      && slot.minute % 15 == 0 && slot.second == 0
  {
  }

  /** The slots are strictly increasing, and they are valid moments on a valid day. */
  lemma TimeSlotsIncreasing(date: DateTime, shift: string)
    ensures forall k, l | 0 <= k < l < |TimeSlots(date, shift)| ::
      MinuteOfDay(TimeSlots(date, shift)[k]) < MinuteOfDay(TimeSlots(date, shift)[l])
    ensures ValidDate(date) ==> forall k | 0 <= k < |TimeSlots(date, shift)| :: ValidDate(TimeSlots(date, shift)[k])
  {
    TimeSlotsShape(date, shift);
  }

  /** formatTime: `HH:mm`, or empty for an invalid value. */
  function FormatTime(v: Option<DateTime>): string {
    match ToDate(v)
    case None => ""
    case Some(d) => Pad2(d.hour) + ":" + Pad2(d.minute)
  }

  /** formatDate: `yyyy-MM-dd`, or empty for an invalid value. */
  function FormatDate(v: Option<DateTime>): string {
    match ToDate(v)
    case None => ""
    case Some(d) => PadZero(NatToString(d.year), 4) + "-" + Pad2(d.month + 1) + "-" + Pad2(d.day)
  }

  /** isSameTimeSlot: both valid, with the same time and the same day text. */
  predicate IsSameTimeSlot(a: Option<DateTime>, b: Option<DateTime>) {
    ToDate(a).Some? && ToDate(b).Some? && FormatTime(a) == FormatTime(b) && FormatDate(a) == FormatDate(b)
  }

  /** A string of zeros reads as 0. */
  lemma {:induction false} ZerosValue(z: string)
    requires forall i | 0 <= i < |z| :: z[i] == '0'
    ensures AllDigits(z) && DigitsValue(z) == 0
    decreases |z|
  {
    if z != [] {
      ZerosValue(z[..|z| - 1]);
    }
  }

  /** Leading zeros do not change the value of a digit string. */
  lemma {:induction false} LeadingZerosValue(z: string, s: string)
    requires forall i | 0 <= i < |z| :: z[i] == '0'
    requires AllDigits(s)
    ensures AllDigits(z + s) && DigitsValue(z + s) == DigitsValue(s)
    decreases |s|
  {
    if s == [] {
      assert z + s == z;
      ZerosValue(z);
    } else {
      var init := s[..|s| - 1];
      LeadingZerosValue(z, init);
      assert (z + s)[..|z + s| - 1] == z + init;
    }
  }

  /** The `yyyy` field reads back as the year. */
  lemma YearValue(y: nat)
    ensures AllDigits(PadZero(NatToString(y), 4)) && DigitsValue(PadZero(NatToString(y), 4)) == y
  {
    var s := NatToString(y);
    DigitsValueOfNatToString(y);
    if |s| < 4 {
      var z: string := seq(4 - |s|, _ => '0');
      LeadingZerosValue(z, s);
    }
  }

  /** Reads `HH:mm` back: the hour and minute written in a time text. */
  function ReadTime(t: string): Option<(nat, nat)> {
    if |t| == 5 && IsDigit(t[0]) && IsDigit(t[1]) && t[2] == ':' && IsDigit(t[3]) && IsDigit(t[4]) then
      Some((TwoDigits(t[0], t[1]), TwoDigits(t[3], t[4])))
    else None
  }

  /** Reads `yyyy-MM-dd` back: the year, the 1-based month and the day written in a date text; the
      year is every digit before the last six characters. */
  function ReadDay(t: string): Option<(nat, nat, nat)> {
    var n := |t|;
    if && n >= 6 && AllDigits(t[..n - 6]) && t[n - 6] == '-' && IsDigit(t[n - 5]) && IsDigit(t[n - 4])
       && t[n - 3] == '-' && IsDigit(t[n - 2]) && IsDigit(t[n - 1])
    then Some((DigitsValue(t[..n - 6]), TwoDigits(t[n - 5], t[n - 4]), TwoDigits(t[n - 2], t[n - 1])))
    else None
  }

  lemma ClockSlices(h: string, m: string)
    requires |h| == 2 && |m| == 2
    ensures var t := h + ":" + m;
      |t| == 5 && t[0] == h[0] && t[1] == h[1] && t[2] == ':' && t[3] == m[0] && t[4] == m[1]
  {
  }

  lemma DaySlices(y: string, m: string, d: string)
    requires |m| == 2 && |d| == 2
    ensures var t, n := y + "-" + m + "-" + d, |y| + 6;
      && |t| == n && t[..n - 6] == y && t[n - 6] == '-' && t[n - 5] == m[0] && t[n - 4] == m[1]
      && t[n - 3] == '-' && t[n - 2] == d[0] && t[n - 1] == d[1]
  {
    var t := y + "-" + m + "-" + d;
    assert t[..|y|] == y;
  }

  /** The `HH:mm` text of a valid moment reads back as its hour and minute. */
  lemma FormatTimeReadBack(x: DateTime)
    requires ValidDate(x)
    ensures ReadTime(FormatTime(Some(x))) == Some((x.hour, x.minute))
  {
    assert FormatTime(Some(x)) == Pad2(x.hour) + ":" + Pad2(x.minute);
    ReadPaddedClock(x.hour, x.minute);
  }

  /** An hour and a minute below 100, padded and joined by a colon, read back as themselves. */
  lemma ReadPaddedClock(hour: nat, minute: nat)
    requires hour < 100 && minute < 100
    ensures ReadTime(Pad2(hour) + ":" + Pad2(minute)) == Some((hour, minute))
  {
    Pad2Digits(hour);
    Pad2Digits(minute);
    ClockSlices(Pad2(hour), Pad2(minute));
  }

  /** The `yyyy-MM-dd` text of a valid moment reads back as its year, 1-based month and day. */
  lemma FormatDateReadBack(x: DateTime)
    requires ValidDate(x)
    ensures ReadDay(FormatDate(Some(x))) == Some((x.year, x.month + 1, x.day))
  {
    var mo := x.month + 1;
    var y, m, d := PadZero(NatToString(x.year), 4), Pad2(mo), Pad2(x.day);
    assert FormatDate(Some(x)) == y + "-" + m + "-" + d;
    YearValue(x.year);
    Pad2Digits(mo);
    Pad2Digits(x.day);
    ReadDayFields(y, m, d, x.year, mo, x.day);
  }

  /** Digit fields joined by dashes read back as the numbers they write. */
  lemma ReadDayFields(y: string, m: string, d: string, year: nat, month: nat, day: nat)
    requires AllDigits(y) && DigitsValue(y) == year
    requires |m| == 2 && IsDigit(m[0]) && IsDigit(m[1]) && TwoDigits(m[0], m[1]) == month
    requires |d| == 2 && IsDigit(d[0]) && IsDigit(d[1]) && TwoDigits(d[0], d[1]) == day
    ensures ReadDay(y + "-" + m + "-" + d) == Some((year, month, day))
  {
    DaySlices(y, m, d);
  }

  /** Two values are the same slot exactly when both are valid and agree on year, month, day, hour
      and minute; seconds are ignored. */
  lemma SameTimeSlotMeaning(a: Option<DateTime>, b: Option<DateTime>)
    ensures IsSameTimeSlot(a, b) <==>
      && ToDate(a).Some? && ToDate(b).Some?
      && a.value.year == b.value.year && a.value.month == b.value.month && a.value.day == b.value.day
      && a.value.hour == b.value.hour && a.value.minute == b.value.minute
  {
    if IsSameTimeSlot(a, b) {
      SameTextSameFields(a.value, b.value);
    }
  }

  /** Valid moments with the same `HH:mm` and `yyyy-MM-dd` texts agree on every field but seconds. */
  lemma SameTextSameFields(x: DateTime, y: DateTime)
    requires ValidDate(x) && ValidDate(y)
    requires FormatTime(Some(x)) == FormatTime(Some(y)) && FormatDate(Some(x)) == FormatDate(Some(y))
    ensures x.year == y.year && x.month == y.month && x.day == y.day && x.hour == y.hour && x.minute == y.minute
  {
    SameTimeTextSameClock(x, y);
    SameDateTextSameDay(x, y);
  }

  lemma SameTimeTextSameClock(x: DateTime, y: DateTime)
    requires ValidDate(x) && ValidDate(y) && FormatTime(Some(x)) == FormatTime(Some(y))
    ensures x.hour == y.hour && x.minute == y.minute
  {
    FormatTimeReadBack(x);
    FormatTimeReadBack(y);
  }

  lemma SameDateTextSameDay(x: DateTime, y: DateTime)
    requires ValidDate(x) && ValidDate(y) && FormatDate(Some(x)) == FormatDate(Some(y))
    ensures x.year == y.year && x.month == y.month && x.day == y.day
  {
    FormatDateReadBack(x);
    FormatDateReadBack(y);
  }

  /** The same-slot test is symmetric and false whenever a value is invalid. */
  lemma SameTimeSlotSymmetric(a: Option<DateTime>, b: Option<DateTime>)
    ensures IsSameTimeSlot(a, b) <==> IsSameTimeSlot(b, a)
    ensures ToDate(a).None? ==> !IsSameTimeSlot(a, b) && !IsSameTimeSlot(b, a)
  {
  }

  /** formatDateInput: `DD/MM/YYYY` with the day and month padded to two digits and the year as is,
      or empty for an invalid value. */
  function FormatDateInput(v: Option<DateTime>): string {
    match ToDate(v)
    case None => ""
    case Some(d) => Pad2(d.day) + "/" + Pad2(d.month + 1) + "/" + NatToString(d.year)
  }

  /** `new Date(year, month, day, hour)` for a month 0..11 and a day 1..31: a year below 100 means
      1900 + year, and a day past the month's end rolls into the next month. */
  function NewDate(year: nat, month: nat, day: nat, hour: nat): (d: DateTime)
    requires month < 12 && 1 <= day <= 31 && hour < 24
    ensures ValidDate(d)
  {
    var fullYear := if year <= 99 then 1900 + year else year;
    var days := DaysInMonth(fullYear, month);
    if day <= days then DateTime(fullYear, month, day, hour, 0, 0)
    else if month == 11 then DateTime(fullYear + 1, 0, day - days, hour, 0, 0)
    else DateTime(fullYear, month + 1, day - days, hour, 0, 0)
  }

  /** The text matches `^(\d{1,2})\/(\d{1,2})\/(\d{4})$`. */
  predicate DateInputShape(s: string) {
    var parts := Split(s, '/');
    && |parts| == 3
    && 1 <= |parts[0]| <= 2 && 1 <= |parts[1]| <= 2 && |parts[2]| == 4
    && AllDigits(parts[0]) && AllDigits(parts[1]) && AllDigits(parts[2])
  }

  /** parseDateInput: noon of the date written `D/M/YYYY`, when the Date built from it has the same
      day, month and year. */
  function ParseDateInput(s: Option<string>): Option<DateTime> {
    if !Present(s) || !DateInputShape(s.value) then None
    else
      var parts := Split(s.value, '/');
      var day := DigitsValue(parts[0]);
      var month := DigitsValue(parts[1]) - 1;
      var year := DigitsValue(parts[2]);
      if 1 <= day <= 31 && 0 <= month <= 11 then
        var d := NewDate(year, month, day, 12);
        if d.day == day && d.month == month && d.year == year then Some(d) else None
      else None
  }

  /** A well-shaped input is accepted exactly when its day exists in its month of a year from 100
      on (leap years included); the result is noon of that day. Years 0000 to 0099 are refused,
      because the Date constructor moves them to the 1900s. */
  lemma ParseDateInputMeaning(s: string)
    requires DateInputShape(s)
    ensures var parts := Split(s, '/');
      var day, m, year := DigitsValue(parts[0]), DigitsValue(parts[1]), DigitsValue(parts[2]);
      && (ParseDateInput(Some(s)).Some? <==> 1 <= m <= 12 && year >= 100 && 1 <= day <= DaysInMonth(year, m - 1))
      && (ParseDateInput(Some(s)).Some? ==> ParseDateInput(Some(s)) == Some(DateTime(year, m - 1, day, 12, 0, 0)))
  {
  }

  /** Text not of the `D/M/YYYY` shape, and a missing or empty value, give null. */
  lemma ParseDateInputRejectsShape(s: Option<string>)
    requires !Present(s) || !DateInputShape(s.value)
    ensures ParseDateInput(s).None?
  {
  }

  lemma NatToStringFourDigits(n: nat)
    requires 1000 <= n <= 9999
    ensures |NatToString(n)| == 4
  {
    assert |NatToString(n / 1000)| == 1;
    assert |NatToString(n / 100)| == 2;
    assert |NatToString(n / 10)| == 3;
  }

  /** The three fields of the input format of a valid moment. */
  lemma DateInputParts(d: DateTime)
    requires ValidDate(d)
    ensures Split(FormatDateInput(Some(d)), '/') == [Pad2(d.day), Pad2(d.month + 1), NatToString(d.year)]
  {
    assert FormatDateInput(Some(d)) == Pad2(d.day) + "/" + Pad2(d.month + 1) + "/" + NatToString(d.year);
    DigitsHaveNo(Pad2(d.day), '/');
    DigitsHaveNo(Pad2(d.month + 1), '/');
    DigitsHaveNo(NatToString(d.year), '/');
    SplitThree(Pad2(d.day), Pad2(d.month + 1), NatToString(d.year), '/');
  }

  /** For a four-digit year the input format has the accepted shape and its fields read back as the
      day, the 1-based month and the year. */
  lemma DateInputValues(d: DateTime)
    requires ValidDate(d) && 1000 <= d.year <= 9999
    ensures DateInputShape(FormatDateInput(Some(d)))
    ensures var parts := Split(FormatDateInput(Some(d)), '/');
      DigitsValue(parts[0]) == d.day && DigitsValue(parts[1]) == d.month + 1 && DigitsValue(parts[2]) == d.year
  {
    DateInputParts(d);
    var mo := d.month + 1;
    Pad2Value(d.day);
    Pad2Value(mo);
    DigitsValueOfNatToString(d.year);
    NatToStringFourDigits(d.year);
  }

  /** For a four-digit year, reading back the input format gives the same year, month and day. */
  lemma DateInputRoundTrip(d: DateTime)
    requires ValidDate(d) && 1000 <= d.year <= 9999
    ensures ParseDateInput(Some(FormatDateInput(Some(d)))) == Some(DateTime(d.year, d.month, d.day, 12, 0, 0))
  {
    DateInputValues(d);
    ParseDateInputMeaning(FormatDateInput(Some(d)));
  }
}
