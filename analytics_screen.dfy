/** The figures of src/screens/AnalyticsScreen.js: the completion rate, the
    focus-time label, the hour label and the fallback for the most productive
    hour. The random chart data is not modelled. */
module AnalyticsScreen {
  import opened Common
  import opened Text
  import opened Decimal
  import opened Entities
  import Helpers

  predicate IsDone(task: Task)
  {
    task.completed
  }

  /** Math.round(num / den) for den > 0: the nearest integer, halves rounded
      up, computed exactly (no floating point). */
  function RoundRatio(num: int, den: int): (r: int)
    requires den > 0
    ensures 2 * den * r - den <= 2 * num < 2 * den * r + den
  {
    var q := (2 * num + den) / (2 * den);
    assert 2 * den * q <= 2 * num + den < 2 * den * q + 2 * den;
    q
  }

  /** completionRate: 0 for an empty list, otherwise the percentage of
      completed tasks rounded to the nearest integer (halves up). */
  function CompletionRate(tasks: seq<Task>): (rate: int)
    ensures tasks == [] ==> rate == 0
    ensures 0 <= rate <= 100
    ensures tasks != [] ==>
      2 * |tasks| * rate - |tasks| <= 200 * Count(tasks, IsDone) < 2 * |tasks| * rate + |tasks|
  {
    if |tasks| == 0 then 0
    else
      var c, t := Count(tasks, IsDone), |tasks|;
      var r := RoundRatio(100 * c, t);
      RateBounds(c, t, r);
      r
  }

  /** The rounding of a ratio of at most one, scaled by 100, lies in 0..100. */
  lemma RateBounds(c: nat, t: nat, r: int)
    requires 0 < t && c <= t
    requires 2 * t * r - t <= 200 * c < 2 * t * r + t
    ensures 0 <= r <= 100
  {
  }

  /** JavaScript's `%` for a positive divisor: the remainder takes the sign of
      the dividend. */
  function JsRem(a: int, b: int): (r: int)
    requires b > 0
    ensures a >= 0 ==> r == a % b
    ensures -b < r < b
    ensures a < 0 ==> r <= 0 && (a - r) % b == 0
  {
    if a >= 0 then a % b
    else
      var q := (-a) / b;
      assert a - -((-a) % b) == (-q) * b;
      MultipleMod(-q, b);
      -((-a) % b)
  }

  /** A multiple of `b` leaves no remainder. */
  lemma MultipleMod(k: int, b: int)
    requires b > 0
    ensures (k * b) % b == 0
  {
    var q := (k * b) / b;
    assert (k - q) * b == (k * b) % b;
    MulSign(k - q, b);
  }

  /** A non-zero multiple of `b` is at least `b` away from zero. */
  lemma {:induction false} MulSign(d: int, b: int)
    requires b > 0
    ensures d >= 1 ==> d * b >= b
    ensures d <= -1 ==> d * b <= -b
    decreases if d < 0 then -d else d
  {
    if d > 1 {
      MulSign(d - 1, b);
      assert d * b == (d - 1) * b + b;
    } else if d < -1 {
      MulSign(d + 1, b);
      assert d * b == (d + 1) * b - b;
    }
  }

  /** formatFocusTime: whole hours and the whole minutes left over, the hours
      shown only when positive; leftover seconds are dropped. */
  function FormatFocusTime(seconds: int): string
  {
    HoursMinutesText(seconds / 3600, JsRem(seconds, 3600) / 60)
  }

  /** The label for a number of hours and minutes, the hours shown only when
      positive. */
  function HoursMinutesText(hours: int, minutes: int): string
  {
    if hours > 0 then IntToString(hours) + "h " + IntToString(minutes) + "m"
    else IntToString(minutes) + "m"
  }

  /** Reads a text of the form "<h>h <m>m" or "<m>m" back into seconds. */
  function ParseFocusTime(text: string): Option<nat>
  {
    var (a, rest) := ReadNumber(text);
    if rest == "m" then Some(a * 60)
    else if |rest| >= 2 && rest[..2] == "h " then
      var (b, rest2) := ReadNumber(rest[2..]);
      if rest2 == "m" then Some(a * 3600 + b * 60) else None
    else None
  }

  /** Hours and left-over minutes account for the time to the minute. */
  lemma HoursMinutesSplit(seconds: nat)
    ensures (seconds / 3600) * 3600 + ((seconds % 3600) / 60) * 60 == seconds - seconds % 60
    ensures 0 <= (seconds % 3600) / 60 < 60
  {
    var h := seconds / 3600;
    var rem := seconds % 3600;
    var m := rem / 60;
    assert seconds == 3600 * h + rem;
    assert rem == 60 * m + rem % 60;
    assert seconds == 60 * (60 * h + m) + rem % 60;
    assert seconds % 60 == rem % 60;
  }

  /** A leading number followed by "h " and a second number ending in "m"
      reads as hours and minutes. */
  lemma ParseHoursThenMinutes(text: string, a: nat, rest: string, b: nat, total: nat)
    requires ReadNumber(text) == (a, rest)
    requires |rest| >= 2 && rest[0] == 'h' && rest[1] == ' '
    requires ReadNumber(rest[2..]) == (b, "m")
    requires total == a * 3600 + b * 60
    ensures ParseFocusTime(text) == Some(total)
  {
    assert rest != "m";
    assert rest[..2] == "h ";
  }

  /** "<h>h <m>m" reads back as h hours and m minutes. */
  lemma ReadFocusHours(h: nat, m: nat, total: nat)
    requires h > 0
    requires total == h * 3600 + m * 60
    ensures ParseFocusTime(HoursMinutesText(h, m)) == Some(total)
  {
    var text := HoursMinutesText(h, m);
    var mm := NatToString(m) + "m";
    var tail := "h " + mm;
    assert text == NatToString(h) + tail;
    ReadNatToString(h, tail);
    assert tail[2..] == mm;
    ReadNatToString(m, "m");
    ParseHoursThenMinutes(text, h, tail, m, total);
  }

  /** With hours shown, the label has an 'h'. */
  lemma HoursShown(h: nat, m: nat)
    requires h > 0
    ensures 'h' in HoursMinutesText(h, m)
  {
    assert HoursMinutesText(h, m)[|NatToString(h)|] == 'h';
  }

  lemma FocusTimeLabel(seconds: nat)
    requires seconds >= 3600
    ensures FormatFocusTime(seconds) == HoursMinutesText(seconds / 3600, (seconds % 3600) / 60)
  {
    assert JsRem(seconds, 3600) == seconds % 3600;
  }

  /** From one hour on, the label is "<h>h <m>m" and reads back as h and m. */
  lemma FocusTimeWithHours(seconds: nat)
    requires seconds >= 3600
    ensures ParseFocusTime(FormatFocusTime(seconds)) == Some(seconds - seconds % 60)
  {
    FocusTimeLabel(seconds);
    HoursMinutesSplit(seconds);
    ReadFocusHours(seconds / 3600, (seconds % 3600) / 60, seconds - seconds % 60);
  }

  /** From one hour on, the label shows the hours. */
  lemma FocusTimeShowsHours(seconds: nat)
    requires seconds >= 3600
    ensures 'h' in FormatFocusTime(seconds)
  {
    FocusTimeLabel(seconds);
    HoursShown(seconds / 3600, (seconds % 3600) / 60);
  }

  /** Below one hour, the label is "<m>m" and reads back as m. */
  lemma FocusTimeMinutesOnly(seconds: nat)
    requires seconds < 3600
    ensures ParseFocusTime(FormatFocusTime(seconds)) == Some(seconds - seconds % 60)
    ensures 'h' !in FormatFocusTime(seconds)
  {
    HoursMinutesSplit(seconds);
    var m := (seconds % 3600) / 60;
    ReadNatToString(m, "m");
    assert FormatFocusTime(seconds) == NatToString(m) + "m";
    assert forall i :: 0 <= i < |FormatFocusTime(seconds)| ==> FormatFocusTime(seconds)[i] != 'h';
  }

  /** The label of a non-negative time reads back as the time without its
      leftover seconds; the minutes shown are below 60, and the hours appear
      exactly from one hour on. */
  lemma FocusTimeReadBack(seconds: nat)
    ensures ParseFocusTime(FormatFocusTime(seconds)) == Some(seconds - seconds % 60)
    ensures 0 <= JsRem(seconds, 3600) / 60 < 60
    ensures 'h' in FormatFocusTime(seconds) <==> seconds >= 3600
  {
    if seconds >= 3600 {
      FocusTimeWithHours(seconds);
      FocusTimeShowsHours(seconds);
    } else {
      FocusTimeMinutesOnly(seconds);
    }
  }

  /** The hour as shown on the clock face: 12 for 0 and 12, otherwise the hour
      modulo 12. */
  function ClockHour(hour: Helpers.Hour): (d: int)
    ensures 1 <= d <= 12
    ensures d % 12 == hour % 12
  {
    if hour % 12 == 0 then 12 else hour % 12
  }

  /** formatHour: "<clock hour> AM" before noon, "<clock hour> PM" from noon on. */
  function FormatHour(hour: Helpers.Hour): string
  {
    IntToString(ClockHour(hour)) + (if hour >= 12 then " PM" else " AM")
  }

  /** Reads "<d> AM" or "<d> PM" back into an hour of the day. */
  function ParseHour(text: string): Option<int>
  {
    var (d, rest) := ReadNumber(text);
    if rest == " AM" then Some(d % 12)
    else if rest == " PM" then Some(d % 12 + 12)
    else None
  }

  /** Every hour of the day gets its own label, and the label gives it back. */
  lemma HourReadBack(hour: Helpers.Hour)
    ensures ParseHour(FormatHour(hour)) == Some(hour)
  {
    ReadNatToString(ClockHour(hour), if hour >= 12 then " PM" else " AM");
  }

  lemma FormatHourInjective(h1: Helpers.Hour, h2: Helpers.Hour)
    requires FormatHour(h1) == FormatHour(h2)
    ensures h1 == h2
  {
    HourReadBack(h1);
    HourReadBack(h2);
  }

  /** `getMostProductiveHour(sessions) || 9` as written: the fallback is taken
      for null and also for hour 0, which is falsy. */
  function ShownHourAsWritten(found: Option<Helpers.Hour>): (h: Helpers.Hour)
    ensures found.None? ==> h == 9
    ensures found.Some? && found.value != 0 ==> h == found.value
    ensures found == Some(0) ==> h == 9
  {
    if found.Some? && found.value != 0 then found.value else 9
  }

  /** The fallback the comment describes ("if no data"): 9 only for null. */
  function ShownHour(found: Option<Helpers.Hour>): (h: Helpers.Hour)
    ensures found.None? ==> h == 9
    ensures found.Some? ==> h == found.value
  {
    if found.Some? then found.value else 9
  }

  /** The two differ exactly when the most productive hour is midnight: the
      screen then shows "9 AM" instead of "12 AM". */
  lemma MidnightShownAsNine(found: Option<Helpers.Hour>)
    ensures ShownHourAsWritten(found) != ShownHour(found) <==> found == Some(0)
    ensures found == Some(0) ==> FormatHour(ShownHourAsWritten(found)) == "9 AM"
    ensures found == Some(0) ==> FormatHour(ShownHour(found)) == "12 AM"
  {
    if found == Some(0) {
      assert NatToString(12) == NatToString(1) + [DigitChar(2)];
    }
  }

  /** When getMostProductiveHour names an hour, the corrected screen shows
      that hour. */
  lemma ShownHourIsMostProductive(sessions: Option<seq<FocusSession>>, hourOf: int -> Helpers.Hour, h: Helpers.Hour)
    requires Helpers.IsMostProductiveHour(sessions, hourOf, Some(h))
    ensures ShownHour(Some(h)) == h
    ensures Helpers.HourTotal(sessions.value, hourOf, ShownHour(Some(h))) > 0
  {
  }
}
