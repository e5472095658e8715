/**
 * The creation timestamps of posts, in the fixed textual form the upstream
 * client returns ("Wed Dec 31 23:59:59 +0000 2023"), read the way
 * `datetime.strptime(text, "%a %b %d %H:%M:%S +0000 %Y")` reads them in
 * xrss/main.py and main.py, and ordered the way datetimes compare.
 */
module CreatedAt {

  import opened Wrappers

  datatype DateTime = DateTime(year: int, month: int, day: int, hour: int, minute: int, second: int)

  predicate IsLeapYear(year: int)
  {
    year % 4 == 0 && (year % 100 != 0 || year % 400 == 0)
  }

  function DaysInMonth(year: int, month: int): int
    requires 1 <= month <= 12
  {
    if month == 2 then (if IsLeapYear(year) then 29 else 28)
    else if month == 4 || month == 6 || month == 9 || month == 11 then 30
    else 31
  }

  /** The values a `datetime` accepts: year 1 to 9999 and a real calendar day and time. */
  predicate ValidDateTime(d: DateTime)
  {
    && 1 <= d.year <= 9999
    && 1 <= d.month <= 12
    && 1 <= d.day <= DaysInMonth(d.year, d.month)
    && 0 <= d.hour < 24
    && 0 <= d.minute < 60
    && 0 <= d.second < 60
  }

  /** `a` is not later than `b`: datetimes compare field by field, year first. */
  predicate NotAfter(a: DateTime, b: DateTime)
  {
    if a.year != b.year then a.year < b.year
    else if a.month != b.month then a.month < b.month
    else if a.day != b.day then a.day < b.day
    else if a.hour != b.hour then a.hour < b.hour
    else if a.minute != b.minute then a.minute < b.minute
    else a.second <= b.second
  }

  /** `NotAfter` is a total order. */
  lemma NotAfterTotalOrder(a: DateTime, b: DateTime, c: DateTime)
    ensures NotAfter(a, a)
    ensures NotAfter(a, b) || NotAfter(b, a)
    ensures NotAfter(a, b) && NotAfter(b, a) ==> a == b
    ensures NotAfter(a, b) && NotAfter(b, c) ==> NotAfter(a, c)
  {
  }

  const WeekdayNames: seq<string> := ["Mon", "Tue", "Wed", "Thu", "Fri", "Sat", "Sun"]
  const MonthNames: seq<string> :=
    ["Jan", "Feb", "Mar", "Apr", "May", "Jun", "Jul", "Aug", "Sep", "Oct", "Nov", "Dec"]

  function LowerAscii(c: char): char
  {
    if 'A' <= c <= 'Z' then (c as int - 'A' as int + 'a' as int) as char else c
  }

  /** Names match as the `%a` and `%b` directives match them: ignoring case. */
  predicate SameIgnoringCase(a: string, b: string)
  {
    |a| == |b| && forall i :: 0 <= i < |a| ==> LowerAscii(a[i]) == LowerAscii(b[i])
  }

  /** The position of the first name in `names` that `s` spells. */
  function NameIndex(names: seq<string>, s: string): (r: Option<nat>)
    ensures r.Some? ==> r.value < |names| && SameIgnoringCase(names[r.value], s)
    ensures r.Some? ==> forall k :: 0 <= k < r.value ==> !SameIgnoringCase(names[k], s)
    ensures r.None? <==> forall k :: 0 <= k < |names| ==> !SameIgnoringCase(names[k], s)
  {
    if names == [] then None
    else if SameIgnoringCase(names[0], s) then Some(0)
    else match NameIndex(names[1..], s)
      case None => None
      case Some(i) => Some(i + 1)
  }

  predicate IsDigit(c: char)
  {
    '0' <= c <= '9'
  }

  function Pow10(n: nat): (r: nat)
    ensures r >= 1
  {
    if n == 0 then 1 else 10 * Pow10(n - 1)
  }

  /** The value of a string of decimal digits, as `int` reads it; `None` if any character is not a digit. */
  function DecimalValue(s: string): (r: Option<nat>)
    ensures r.Some? <==> forall i :: 0 <= i < |s| ==> IsDigit(s[i])
    ensures r.Some? ==> r.value < Pow10(|s|)
  {
    if s == [] then Some(0)
    else match DecimalValue(s[..|s| - 1])
      case None => None
      case Some(v) =>
        if IsDigit(s[|s| - 1]) then Some(10 * v + (s[|s| - 1] as int - '0' as int)) else None
  }

  /** A fixed-width field: `width` digits, as the fixed-width directives read it. */
  function Field(s: string, start: nat, width: nat): Option<nat>
    requires start + width <= |s|
  {
    DecimalValue(s[start..start + width])
  }

  /**
   * Reads "Dow Mon DD HH:MM:SS +0000 YYYY". The weekday must be a weekday
   * name but is not checked against the date; the date and time must be
   * ones a `datetime` can hold, or the text is rejected.
   */
  function ParseCreatedAt(s: string): (r: Option<DateTime>)
    ensures r.Some? ==> ValidDateTime(r.value)
  {
    if |s| != 30 then None
    else if s[3] != ' ' || s[7] != ' ' || s[10] != ' ' || s[13] != ':' || s[16] != ':'
         || s[19..26] != " +0000 " then None
    else if NameIndex(WeekdayNames, s[..3]).None? then None
    else
      var month := NameIndex(MonthNames, s[4..7]);
      var day, hour, minute := Field(s, 8, 2), Field(s, 11, 2), Field(s, 14, 2);
      var second, year := Field(s, 17, 2), Field(s, 26, 4);
      if month.None? || day.None? || hour.None? || minute.None? || second.None? || year.None? then None
      else
        var d := DateTime(year.value, month.value + 1, day.value, hour.value, minute.value, second.value);
        if ValidDateTime(d) then Some(d) else None
  }

  /** `n` written with exactly `width` digits, zero-padded on the left. */
  function Padded(n: nat, width: nat): (r: string)
    ensures |r| == width
    ensures forall i :: 0 <= i < |r| ==> IsDigit(r[i])
  {
    if width == 0 then "" else Padded(n / 10, width - 1) + [('0' as int + n % 10) as char]
  }

  /** Reading a padded number gives the number back when it fits the width. */
  lemma {:induction false} PaddedRoundTrip(n: nat, width: nat)
    requires n < Pow10(width)
    ensures DecimalValue(Padded(n, width)) == Some(n)
  {
    if width > 0 {
      var p := Padded(n, width);
      assert p[..|p| - 1] == Padded(n / 10, width - 1);
      PaddedRoundTrip(n / 10, width - 1);
    }
  }

  /** The text the upstream client produces for `d`, with weekday name number `weekday`. */
  function FormatCreatedAt(d: DateTime, weekday: nat): (s: string)
    requires ValidDateTime(d) && weekday < 7
    ensures |s| == 30
  {
    WeekdayNames[weekday] + " " + MonthNames[d.month - 1] + " " + Padded(d.day, 2) + " "
      + Padded(d.hour, 2) + ":" + Padded(d.minute, 2) + ":" + Padded(d.second, 2)
      + " +0000 " + Padded(d.year, 4)
  }

  /** Where each field of a formatted text sits. */
  lemma FormatLayout(d: DateTime, weekday: nat)
    requires ValidDateTime(d) && weekday < 7
    ensures var s := FormatCreatedAt(d, weekday);
      && s[..3] == WeekdayNames[weekday] && s[3] == ' '
      && s[4..7] == MonthNames[d.month - 1] && s[7] == ' '
      && s[8..10] == Padded(d.day, 2) && s[10] == ' '
      && s[11..13] == Padded(d.hour, 2) && s[13] == ':'
      && s[14..16] == Padded(d.minute, 2) && s[16] == ':'
      && s[17..19] == Padded(d.second, 2)
      && s[19..26] == " +0000 "
      && s[26..30] == Padded(d.year, 4)
  {
    var w, m := WeekdayNames[weekday], MonthNames[d.month - 1];
    var dd, hh, mi, ss, yy := Padded(d.day, 2), Padded(d.hour, 2), Padded(d.minute, 2), Padded(d.second, 2), Padded(d.year, 4);
    var s := FormatCreatedAt(d, weekday);
    assert |w| == 3 && |m| == 3;
    assert s == w + " " + m + " " + dd + " " + hh + ":" + mi + ":" + ss + " +0000 " + yy;
  }

  /** Formatting then reading gives back every valid date and time, whatever the weekday name. */
  lemma FormatParseRoundTrip(d: DateTime, weekday: nat)
    requires ValidDateTime(d) && weekday < 7
    ensures ParseCreatedAt(FormatCreatedAt(d, weekday)) == Some(d)
  {
    var s := FormatCreatedAt(d, weekday);
    FormatLayout(d, weekday);
    PaddedRoundTrip(d.day, 2);
    PaddedRoundTrip(d.hour, 2);
    PaddedRoundTrip(d.minute, 2);
    PaddedRoundTrip(d.second, 2);
    PaddedRoundTrip(d.year, 4);
    assert SameIgnoringCase(WeekdayNames[weekday], s[..3]);
    MonthNameRead(d.month - 1);
  }

  /** A month name is read as its own month: no earlier month name spells it. */
  lemma MonthNameRead(m: nat)
    requires m < 12
    ensures NameIndex(MonthNames, MonthNames[m]) == Some(m)
  {
    forall k | 0 <= k < m ensures !SameIgnoringCase(MonthNames[k], MonthNames[m]) {
      MonthNamesDiffer(k, m);
    }
  }

  /** Month names differ pairwise, even ignoring case. */
  lemma MonthNamesDiffer(j: nat, k: nat)
    requires j < k < 12
    ensures !SameIgnoringCase(MonthNames[j], MonthNames[k])
  {
    var i :=
      if j == 0 then (if k in {5, 6} then 1 else 0)     // Jan: Jun, Jul
      else if j == 2 then (if k == 4 then 2 else 0)     // Mar: May
      else if j == 3 then (if k == 7 then 1 else 0)     // Apr: Aug
      else if j == 5 then (if k == 6 then 2 else 0)     // Jun: Jul
      else 0;
    assert LowerAscii(MonthNames[j][i]) != LowerAscii(MonthNames[k][i]);
  }
}
