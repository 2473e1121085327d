/** Date and duration helpers of the task list: the whole-day duration between
    two date inputs, the 12-hour display of a date, and the display of a duration. */
module Dates {
  import opened Optional
  import opened JsText

  /** 1000 * 60 * 60 * 24 */
  const MillisPerDay: int := 86400000

  /** What a date input holds: its text, and the instant `new Date(text)` yields
      (`None` for an invalid date). Parsing itself is outside the model. */
  datatype DateInput = DateInput(text: string, millis: Option<int>)

  /** The empty text never parses to a valid date. */
  type DateText = d: DateInput | d.text == [] ==> d.millis.None? witness DateInput([], None)

  const NoDate: DateText := DateInput([], None)

  /** A `duration` value. The form's input and the edit row store text; the
      duration calculation yields a number of days, or the empty text when a
      date is invalid. JavaScript keeps the two apart (`"1" !== 1`). */
  datatype Duration = Text(s: string) | Days(n: nat)

  /** JavaScript truthiness of a duration value. */
  predicate Truthy(d: Duration) {
    match d
    case Text(s) => s != []
    case Days(n) => n != 0
  }

  /** `Math.ceil(diff / MillisPerDay)` */
  function CeilDays(diff: int): (k: int)
    ensures (k - 1) * MillisPerDay < diff <= k * MillisPerDay
  {
    -((-diff) / MillisPerDay)
  }

  /** `calculateDurationInDays(start, end)`: the empty text if either date is
      invalid, otherwise the whole number of days that covers the span, and 0 for
      a span that is empty or negative. */
  function CalculateDurationInDays(start: DateText, end: DateText): (r: Duration)
    ensures r == Text([]) <==> start.millis.None? || end.millis.None?
    ensures r.Days? <==> start.millis.Some? && end.millis.Some?
    ensures r.Days? ==>
      start.millis.Some? && end.millis.Some? &&
      var diff := end.millis.value - start.millis.value;
      (r.n == 0 <==> diff <= 0) &&
      (diff > 0 ==> (r.n - 1) * MillisPerDay < diff <= r.n * MillisPerDay)
  {
    if start.millis.None? || end.millis.None? then Text([])
    else
      var daysDiff := CeilDays(end.millis.value - start.millis.value);
      Days(if daysDiff > 0 then daysDiff else 0)
  }

  /** Partial days round up: 23 hours is one day, and two days and one hour
      is three. */
  lemma DurationExamples(t: int)
    ensures CalculateDurationInDays(DateInput("a", Some(t)), DateInput("b", Some(t + 23 * 3600000))) == Days(1)
    ensures CalculateDurationInDays(DateInput("a", Some(t)), DateInput("b", Some(t + 49 * 3600000))) == Days(3)
  {
  }

  /** The text a duration value shows in a template string. */
  function Show(d: Duration): (r: string)
    ensures d.Text? ==> r == d.s
    ensures d.Days? ==> r != [] && Spells(r, d.n)
    ensures d.Days? && r[0] == '0' ==> d.n == 0 && |r| == 1
  {
    match d
    case Text(s) => s
    case Days(n) => NatToStringSpells(n); NatToString(n)
  }

  /** `formatDuration(days)`: "day" in the singular only for the number 1. */
  function FormatDuration(d: Duration): (r: string)
    ensures r == "1 day" <==> d == Days(1)
    ensures |r| > |Show(d)| && r[..|Show(d)|] == Show(d)
    ensures r[|r| - 1] == 's' <==> d != Days(1)
  {
    var r := Show(d) + " day" + (if d != Days(1) then "s" else "");
    assert r[..|Show(d)|] == Show(d);
    assert r == "1 day" ==> d == Days(1) by {
      if r == "1 day" {
        assert r[|r| - 1] == 'y';
      }
    }
    r
  }

  /** The duration cell of a table row that is not being edited:
      `${d} ${d === 1 ? "day" : "days"}`. */
  function DurationCell(d: Duration): string {
    Show(d) + " " + (if d == Days(1) then "day" else "days")
  }

  /** The table cell and `formatDuration` spell every duration the same way. */
  lemma DurationCellIsFormatDuration(d: Duration)
    ensures DurationCell(d) == FormatDuration(d)
  {
    if d == Days(1) {
      assert DurationCell(d) == Show(d) + " day";
    } else {
      assert " " + "days" == " day" + "s";
      assert DurationCell(d) == Show(d) + (" day" + "s");
    }
  }

  /** The local calendar fields `getFullYear`, `getMonth` (0-based), `getDate`,
      `getHours` and `getMinutes` give for a valid date; the time zone that
      produces them is outside the model. */
  datatype LocalTime = LocalTime(year: int, month: int, day: int, hours: int, minutes: int)

  predicate InRange(t: LocalTime) {
    0 <= t.month < 12 && 1 <= t.day <= 31 && 0 <= t.hours < 24 && 0 <= t.minutes < 60
  }

  /** `hours % 12 || 12`: the hour on a 12-hour clock. */
  function ClockHour(h: int): (r: nat)
    requires 0 <= h < 24
    ensures 1 <= r <= 12
    ensures h == 0 ==> r == 12
    ensures 1 <= h <= 12 ==> r == h
    ensures 12 < h ==> r == h - 12
  {
    if h % 12 == 0 then 12 else h % 12
  }

  /** `hours >= 12 ? 'PM' : 'AM'` */
  function Meridiem(h: int): (r: string)
    ensures |r| == 2 && r[1] == 'M'
    ensures r[0] == 'P' <==> h >= 12
    ensures h >= 12 ==> r == "PM"
    ensures h < 12 ==> r == "AM"
  {
    if h >= 12 then "PM" else "AM"
  }

  /** `formatDateTime(isoDate)`: "N/A" for an empty input; otherwise
      `year-MM-DD, H:mm AM|PM` with month, day and minutes padded to two digits
      and the hour on a 12-hour clock. An invalid date yields JavaScript's NaN
      fields, and `NaN % 12 || 12` is 12. */
  function FormatDateTime(d: DateText, local: Option<LocalTime>): (r: string)
    requires local.Some? <==> d.millis.Some?
    requires local.Some? ==> InRange(local.value)
    ensures r == "N/A" <==> d.text == []
  {
    if d.text == [] then "N/A"
    else match local
      case None => "NaN-NaN-NaN, 12:NaN AM"
      case Some(t) =>
        Clock(t)
  }

  /** An input that is not empty but does not parse is an Invalid Date: every
      getter (`getFullYear`, `getMonth`, `getDate`, `getMinutes`) gives NaN,
      which `String` and `padStart` print as "NaN"; `NaN % 12 || 12` gives the
      hour 12, and `NaN >= 12` is false, hence AM. The text is therefore this
      one literal whatever the input. */
  lemma InvalidDateText(d: DateText)
    requires d.text != [] && d.millis.None?
    ensures FormatDateTime(d, None) == "NaN-NaN-NaN, 12:NaN AM"
  {
  }

  /** The template filled in from a valid local time. */
  function Clock(t: LocalTime): (r: string)
    requires InRange(t)
    ensures |r| >= |IntToString(t.year)| + 15
  {
    Stamp(IntToString(t.year), TwoDigits(t.month + 1), TwoDigits(t.day),
          NatToString(ClockHour(t.hours)), TwoDigits(t.minutes), Meridiem(t.hours))
  }

  /** Reading the date half of a formatted valid date back: the year as
      `String(year)`, then the month and the day padded to two digits. */
  lemma FormatDateTimeDate(d: DateText, t: LocalTime)
    requires d.text != [] && d.millis.Some? && InRange(t)
    ensures var r := FormatDateTime(d, Some(t));
      var y := |IntToString(t.year)|;
      |r| >= y + 15 &&
      r[..y] == IntToString(t.year) && r[y] == '-' &&
      r[y + 1..y + 3] == TwoDigits(t.month + 1) && r[y + 3] == '-' &&
      r[y + 4..y + 6] == TwoDigits(t.day) && r[y + 6..y + 8] == ", "
  {
    StampDate(IntToString(t.year), TwoDigits(t.month + 1), TwoDigits(t.day),
              NatToString(ClockHour(t.hours)), TwoDigits(t.minutes), Meridiem(t.hours));
  }

  /** Reading the time half of a formatted valid date back: the hour on a
      12-hour clock as `String(hour)`, the minutes padded to two digits and
      the AM/PM marker. */
  lemma FormatDateTimeTime(d: DateText, t: LocalTime)
    requires d.text != [] && d.millis.Some? && InRange(t)
    ensures var r := FormatDateTime(d, Some(t));
      var y := |IntToString(t.year)|;
      |r| >= y + 15 &&
      r[y + 8..|r| - 6] == NatToString(ClockHour(t.hours)) && r[|r| - 6] == ':' &&
      r[|r| - 5..|r| - 3] == TwoDigits(t.minutes) && r[|r| - 3] == ' ' &&
      r[|r| - 2..] == Meridiem(t.hours)
  {
    StampTime(IntToString(t.year), TwoDigits(t.month + 1), TwoDigits(t.day),
              NatToString(ClockHour(t.hours)), TwoDigits(t.minutes), Meridiem(t.hours));
  }

  /** The template `${year}-${month}-${day}, ${hours}:${minutes} ${ampm}`. */
  function Stamp(year: string, month: string, day: string, hours: string, minutes: string, ampm: string): string {
    year + "-" + month + "-" + day + ", " + hours + ":" + minutes + " " + ampm
  }

  /** Where the date fields sit in the template when the padded fields have
      two characters and the hour at least one. */
  lemma StampDate(year: string, month: string, day: string, hours: string, minutes: string, ampm: string)
    requires |month| == 2 && |day| == 2 && |minutes| == 2 && |ampm| == 2 && hours != []
    ensures var r := Stamp(year, month, day, hours, minutes, ampm); var y := |year|;
      |r| >= y + 15 &&
      r[..y] == year && r[y] == '-' && r[y + 1..y + 3] == month && r[y + 3] == '-' &&
      r[y + 4..y + 6] == day && r[y + 6..y + 8] == ", "
  {
    var y := |year|;
    var a := year + "-" + month + "-" + day + ", ";
    var b := hours + ":" + minutes + " " + ampm;
    assert Stamp(year, month, day, hours, minutes, ampm) == a + b;
    assert a[..y] == year && a[y + 1..y + 3] == month && a[y + 4..y + 6] == day && a[y + 6..] == ", ";
  }

  /** Where the time fields sit in the template when the padded fields have
      two characters. */
  lemma StampTime(year: string, month: string, day: string, hours: string, minutes: string, ampm: string)
    requires |month| == 2 && |day| == 2 && |minutes| == 2 && |ampm| == 2 && hours != []
    ensures var r := Stamp(year, month, day, hours, minutes, ampm); var y := |year|;
      |r| >= y + 15 &&
      r[y + 8..|r| - 6] == hours && r[|r| - 6] == ':' && r[|r| - 5..|r| - 3] == minutes &&
      r[|r| - 3] == ' ' && r[|r| - 2..] == ampm
  {
    var a := year + "-" + month + "-" + day + ", ";
    var b := hours + ":" + minutes + " " + ampm;
    assert Stamp(year, month, day, hours, minutes, ampm) == a + b;
    assert |a| == |year| + 8;
    assert b[..|hours|] == hours && b[|b| - 5..|b| - 3] == minutes && b[|b| - 2..] == ampm;
  }
}
