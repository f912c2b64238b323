/** The two display helpers of src/components/AISuggestions.js: the duration
    label of a suggested task and the colour of its priority. */
module AiSuggestions {
  import opened Common
  import opened Text
  import opened Decimal
  import Helpers

  /** formatTime(minutes): "<m> min" under an hour, otherwise "<h>h <m>m",
      or "<h>h" when no minutes are left over. */
  function FormatMinutes(minutes: int): (r: string)
    ensures minutes < 60 ==> r == IntToString(minutes) + " min"
    ensures 'h' in r <==> minutes >= 60
  {
    if minutes < 60 then
      var r := IntToString(minutes) + " min";
      assert forall i :: 0 <= i < |IntToString(minutes)| ==> IntToString(minutes)[i] != 'h' by {
        if minutes < 0 {
          assert IntToString(minutes) == "-" + NatToString(-minutes);
        }
      }
      r
    else
      var hours := minutes / 60;
      var mins := minutes % 60;
      var r := if mins > 0 then IntToString(hours) + "h " + IntToString(mins) + "m" else IntToString(hours) + "h";
      assert r[|NatToString(hours)|] == 'h';
      r
  }

  /** Reads "<m> min", "<h>h" or "<h>h <m>m" back into minutes. */
  function ParseMinutes(text: string): Option<nat>
  {
    var (a, rest) := ReadNumber(text);
    if rest == " min" then Some(a)
    else if rest == "h" then Some(a * 60)
    else if |rest| >= 2 && rest[..2] == "h " then
      var (b, rest2) := ReadNumber(rest[2..]);
      if rest2 == "m" then Some(a * 60 + b) else None
    else None
  }

  /** From one hour on, hours and minutes account for the whole duration and
      the minutes shown are below 60. */
  lemma HoursAndMinutes(minutes: nat)
    requires minutes >= 60
    ensures (minutes / 60) * 60 + minutes % 60 == minutes
    ensures 0 <= minutes % 60 < 60 && minutes / 60 >= 1
  {
  }

  /** A leading number followed by "h " and a second number ending in "m"
      reads as hours and minutes. */
  lemma ParseHoursThenMinutes(text: string, a: nat, rest: string, b: nat, total: nat)
    requires ReadNumber(text) == (a, rest)
    requires |rest| >= 2 && rest[0] == 'h' && rest[1] == ' '
    requires ReadNumber(rest[2..]) == (b, "m")
    requires total == a * 60 + b
    ensures ParseMinutes(text) == Some(total)
  {
    assert rest != " min" && rest != "h";
    assert rest[..2] == "h ";
  }

  lemma ReadHoursMinutes(h: nat, m: nat, text: string, total: nat)
    requires text == NatToString(h) + ("h " + (NatToString(m) + "m"))
    requires total == h * 60 + m
    ensures ParseMinutes(text) == Some(total)
  {
    var mm := NatToString(m) + "m";
    var tail := "h " + mm;
    ReadNatToString(h, tail);
    assert tail[2..] == mm;
    ReadNatToString(m, "m");
    ParseHoursThenMinutes(text, h, tail, m, total);
  }

  lemma HoursWithMinutesShape(minutes: int)
    requires minutes >= 60 && minutes % 60 > 0
    ensures FormatMinutes(minutes) == NatToString(minutes / 60) + ("h " + (NatToString(minutes % 60) + "m"))
  {
  }

  lemma HoursWithMinutesReadBack(minutes: nat)
    requires minutes >= 60 && minutes % 60 > 0
    ensures ParseMinutes(FormatMinutes(minutes)) == Some(minutes)
  {
    HoursAndMinutes(minutes);
    HoursWithMinutesShape(minutes);
    ReadHoursMinutes(minutes / 60, minutes % 60, FormatMinutes(minutes), minutes);
  }

  lemma WholeHoursReadBack(minutes: nat)
    requires minutes >= 60 && minutes % 60 == 0
    ensures ParseMinutes(FormatMinutes(minutes)) == Some(minutes)
  {
    HoursAndMinutes(minutes);
    ReadNatToString(minutes / 60, "h");
  }

  /** Every non-negative duration gets a label that gives it back. */
  lemma MinutesReadBack(minutes: nat)
    ensures ParseMinutes(FormatMinutes(minutes)) == Some(minutes)
  {
    if minutes < 60 {
      ReadNatToString(minutes, " min");
    } else {
      if minutes % 60 > 0 {
        HoursWithMinutesReadBack(minutes);
      } else {
        WholeHoursReadBack(minutes);
      }
    }
  }

  const High := "#FF5252"
  const Medium := "#FFD740"
  const Low := "#69F0AE"
  const Grey := "#BDBDBD"

  /** getPriorityColor: high, medium and low in any letter case get their own
      colour; anything else, a missing priority included, is grey. */
  function GetPriorityColor(priority: string): (colour: string)
    ensures colour == High <==> LowerStr(priority) == "high"
    ensures colour == Medium <==> LowerStr(priority) == "medium"
    ensures colour == Low <==> LowerStr(priority) == "low"
    ensures colour in {High, Medium, Low, Grey}
  {
    var p := LowerStr(priority);
    if p == "high" then High else if p == "medium" then Medium else if p == "low" then Low else Grey
  }

  /** The colour agrees with the priority contribution to the score: red for
      30 points, amber for 20, green for 10, grey for 0 (absent) and 15
      (unrecognised). */
  lemma ColourMatchesScore(priority: string)
    ensures GetPriorityColor(priority) == High <==> Helpers.PriorityTerm(priority) == 30
    ensures GetPriorityColor(priority) == Medium <==> Helpers.PriorityTerm(priority) == 20
    ensures GetPriorityColor(priority) == Low <==> Helpers.PriorityTerm(priority) == 10
    ensures GetPriorityColor(priority) == Grey <==> Helpers.PriorityTerm(priority) in {0, 15}
  {
    if priority == "" {
      assert LowerStr(priority) == "";
    }
  }
}
