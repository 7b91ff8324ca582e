/**
 Clock-time interpretation: a raw `hh:mmAM` / `hh:mmPM` string becomes a time
 of day, and two of them become a time window whose duration is the signed
 difference of the two. A time of day is the number of seconds since
 midnight of the (implicit) current day, so the date `generateDates` anchors
 both instants to drops out of every statement.
 */
module Clock {
  import opened Results
  import Text

  const SecondsPerDay: nat := 86400
  const SecondsPerHour: nat := 3600
  const Noon: nat := 43200

  datatype Meridiem = AM | PM

  /** The marker as it appears in the raw string. */
  function MarkerText(m: Meridiem): string
  {
    match m
    case AM => "AM"
    case PM => "PM"
  }

  /** `isAM`: a string is AM exactly when "AM" occurs in it anywhere. */
  function IsAM(s: string): (r: bool)
    ensures r <==> exists i :: Text.OccursAt(s, "AM", i)
  {
    Text.Includes(s, "AM")
  }

  /** The marker `generateDates` settles on: AM when `isAM` holds, PM for every other string. */
  function MeridiemOf(s: string): (r: Meridiem)
    ensures r == AM <==> IsAM(s)
    ensures r == PM <==> !IsAM(s)
  {
    if IsAM(s) then AM else PM
  }

  /**
   `getHourFrom`: the raw string with the first occurrence of the marker
   removed. Without the marker it is the raw string; with it, putting the
   marker back at its first occurrence restores the raw string.
   */
  function GetHourFrom(s: string, m: Meridiem): (r: string)
    ensures !Text.Includes(s, MarkerText(m)) ==> r == s
    ensures Text.Includes(s, MarkerText(m)) ==>
      var i := Text.IndexOf(s, MarkerText(m)).value;
      && |r| + 2 == |s|
      && r[..i] + MarkerText(m) + r[i..] == s
  {
    Text.RemoveFirstSpec(s, MarkerText(m));
    Text.RemoveFirst(s, MarkerText(m))
  }

  // ---------------------------------------------------------------------------
  // Digits and the `hh:mm` fragment

  predicate IsDigit(c: char)
  {
    '0' <= c <= '9'
  }

  function DigitValue(c: char): (d: nat)
    requires IsDigit(c)
    ensures d < 10
  {
    c as int - '0' as int
  }

  function DigitChar(d: nat): (c: char)
    requires d < 10
    ensures IsDigit(c) && DigitValue(c) == d
  {
    ('0' as int + d) as char
  }

  /** The value of two decimal digits. */
  function TwoDigits(hi: char, lo: char): (n: nat)
    requires IsDigit(hi) && IsDigit(lo)
    ensures n < 100
  {
    10 * DigitValue(hi) + DigitValue(lo)
  }

  /** A number below 100 written with exactly two digits. */
  function Pad2(n: nat): (r: string)
    requires n < 100
    ensures |r| == 2 && IsDigit(r[0]) && IsDigit(r[1]) && TwoDigits(r[0], r[1]) == n
  {
    [DigitChar(n / 10), DigitChar(n % 10)]
  }

  datatype HourMinute = HourMinute(hour: nat, minute: nat)

  /**
   The fragment shape the model accepts: a two-digit 12-hour clock hour from
   01 to 12, a colon, and a two-digit minute from 00 to 59.
   */
  predicate WellFormedFragment(f: string)
  {
    && |f| == 5
    && IsDigit(f[0]) && IsDigit(f[1]) && f[2] == ':' && IsDigit(f[3]) && IsDigit(f[4])
    && 1 <= TwoDigits(f[0], f[1]) <= 12
    && TwoDigits(f[3], f[4]) < 60
  }

  /** Reads the `hh:mm` fragment; rejects every other shape. */
  function ParseFragment(f: string): (r: Option<HourMinute>)
    ensures r.Some? <==> WellFormedFragment(f)
    ensures r.Some? ==> 1 <= r.value.hour <= 12 && r.value.minute < 60
  {
    if WellFormedFragment(f) then Some(HourMinute(TwoDigits(f[0], f[1]), TwoDigits(f[3], f[4])))
    else None
  }

  /** Writing back the reading of a well-formed fragment gives the fragment. */
  lemma ParseFragmentRoundTrip(f: string)
    requires WellFormedFragment(f)
    ensures var t := ParseFragment(f).value; Pad2(t.hour) + ":" + Pad2(t.minute) == f
  {
  }

  // ---------------------------------------------------------------------------
  // 12-hour clock semantics

  /**
   The hour of the day a 12-hour clock hour denotes: the same hour modulo 12,
   before noon exactly for AM. So 12AM is hour 0, 12PM is hour 12, and any
   other PM hour is 12 more than its clock hour.
   */
  function To24(hour: nat, m: Meridiem): (h: nat)
    requires 1 <= hour <= 12
    ensures h < 24
    ensures h % 12 == hour % 12
    ensures h < 12 <==> m == AM
  {
    match m
    case AM => if hour == 12 then 0 else hour
    case PM => if hour == 12 then 12 else hour + 12
  }

  /** Those three facts determine the hour of the day. */
  lemma To24Unique(hour: nat, m: Meridiem, h: nat)
    requires 1 <= hour <= 12
    requires h < 24 && h % 12 == hour % 12 && (h < 12 <==> m == AM)
    ensures h == To24(hour, m)
  {
  }

  /** Seconds since midnight of a clock reading. */
  function SecondOfDay(t: HourMinute, m: Meridiem): (r: nat)
    requires 1 <= t.hour <= 12 && t.minute < 60
    ensures r < SecondsPerDay && r % 60 == 0
    ensures r / SecondsPerHour == To24(t.hour, m)
    ensures r % SecondsPerHour / 60 == t.minute
  {
    To24(t.hour, m) * SecondsPerHour + t.minute * 60
  }

  /**
   The instant `generateDates` builds from one raw string: detect the marker,
   strip it, and read the remaining fragment with it on a 12-hour clock.
   `None` stands for a fragment the model does not accept.
   */
  function ParseClock(raw: string): (r: Option<nat>)
    ensures r.Some? <==> WellFormedFragment(GetHourFrom(raw, MeridiemOf(raw)))
    ensures r.Some? ==> r.value < SecondsPerDay && r.value % 60 == 0
  {
    var m := MeridiemOf(raw);
    match ParseFragment(GetHourFrom(raw, m))
    case None => None
    case Some(t) => Some(SecondOfDay(t, m))
  }

  /** A raw clock string of the documented form `hh:mmAM` or `hh:mmPM`. */
  predicate WellFormedClock(raw: string)
  {
    |raw| == 7 && WellFormedFragment(raw[..5]) && (raw[5..] == "AM" || raw[5..] == "PM")
  }

  /** The marker written after a well-formed clock string. */
  function SuffixOf(raw: string): Meridiem
    requires WellFormedClock(raw)
  {
    if raw[5..] == "AM" then AM else PM
  }

  /** A seven-character string whose first five characters hold no 'A' or 'P' is read by its suffix. */
  lemma StripMarker(s: string, m: Meridiem)
    requires |s| == 7 && s[5..] == MarkerText(m)
    requires forall k :: 0 <= k < 5 ==> s[k] != 'A' && s[k] != 'P'
    ensures MeridiemOf(s) == m
    ensures GetHourFrom(s, m) == s[..5]
  {
    assert s[5] == MarkerText(m)[0];
    if m == AM {
      Text.RemoveFirstAt(s, "AM", 5);
    } else {
      Text.NotIncludedWithoutHead(s, "AM");
      Text.RemoveFirstAt(s, "PM", 5);
    }
  }

  /**
   For a well-formed `hh:mmAM` / `hh:mmPM`, the stripped fragment is exactly
   `hh:mm`, the marker is the suffix, and the reading is the written clock
   hour turned into an hour of the day by the 12-hour convention, plus the
   written minutes.
   */
  lemma ParseClockWellFormed(raw: string)
    requires WellFormedClock(raw)
    ensures MeridiemOf(raw) == SuffixOf(raw)
    ensures GetHourFrom(raw, MeridiemOf(raw)) == raw[..5]
    ensures ParseClock(raw) ==
      Some(To24(TwoDigits(raw[0], raw[1]), SuffixOf(raw)) * SecondsPerHour + TwoDigits(raw[3], raw[4]) * 60)
  {
    StripMarker(raw, SuffixOf(raw));
  }

  /**
   The same reading stated by its meaning: the hour of the day agrees with the
   clock hour modulo 12 and is before noon exactly for AM, the minutes are the
   written ones, and the time lies within the day. So 12AM is midnight and
   12PM is noon.
   */
  lemma ParseClockMeaning(raw: string)
    requires WellFormedClock(raw)
    ensures ParseClock(raw).Some?
    ensures var t := ParseClock(raw).value;
      && t < SecondsPerDay
      && t % 60 == 0
      && t / SecondsPerHour % 12 == TwoDigits(raw[0], raw[1]) % 12
      && (t < Noon <==> raw[5..] == "AM")
      && t % SecondsPerHour / 60 == TwoDigits(raw[3], raw[4])
  {
    ParseClockWellFormed(raw);
    var t := ParseClock(raw).value;
    var hm := HourMinute(TwoDigits(raw[0], raw[1]), TwoDigits(raw[3], raw[4]));
    assert t == SecondOfDay(hm, SuffixOf(raw));
  }

  /**
   What any accepted string reads as, wherever its marker sits: the fragment
   left after the marker is removed is well formed, the time is before noon
   exactly when `isAM` holds, its hour agrees with the fragment's hour modulo
   12 and its minutes are the fragment's. So "AM08:00" reads as 08:00.
   */
  lemma ParseClockMeaningAll(raw: string)
    requires ParseClock(raw).Some?
    ensures var f := GetHourFrom(raw, MeridiemOf(raw)); var t := ParseClock(raw).value;
      && WellFormedFragment(f)
      && t == To24(TwoDigits(f[0], f[1]), MeridiemOf(raw)) * SecondsPerHour + TwoDigits(f[3], f[4]) * 60
      && t / SecondsPerHour % 12 == TwoDigits(f[0], f[1]) % 12
      && (t < Noon <==> IsAM(raw))
      && t % SecondsPerHour / 60 == TwoDigits(f[3], f[4])
  {
  }

  /** A marker in front still counts: "AM08:00" reads as eight hours after midnight. */
  lemma LeadingMarker(raw: string)
    requires raw == "AM08:00"
    ensures ParseClock(raw) == Some(28800)
  {
  }

  /**
   A fragment with no marker at all is read as PM: `isAM` fails, and removing
   "PM" from a string that has none leaves it as it is.
   */
  lemma NoMarkerMeansPM(f: string)
    requires WellFormedFragment(f)
    ensures MeridiemOf(f) == PM
    ensures ParseClock(f).Some? && ParseClock(f) == ParseClock(f + "PM")
  {
    Text.NotIncludedWithoutHead(f, "AM");
    Text.NotIncludedWithoutHead(f, "PM");
    Text.RemoveFirstSpec(f, "PM");
    assert (f + "PM")[..5] == f;
    StripMarker(f + "PM", PM);
  }

  /** Writes a minute-aligned time of day in the `hh:mmAM` / `hh:mmPM` form. */
  function FormatClock(t: nat): (r: string)
    requires t < SecondsPerDay && t % 60 == 0
    ensures WellFormedClock(r)
  {
    var (hm, m) := ClockReading(t);
    var r := Pad2(hm.hour) + ":" + Pad2(hm.minute) + MarkerText(m);
    assert r[..5] == Pad2(hm.hour) + ":" + Pad2(hm.minute);
    r
  }

  /** A minute-aligned time of day is its hours and minutes put back together. */
  lemma SplitDay(t: nat)
    requires t < SecondsPerDay && t % 60 == 0
    ensures t / SecondsPerHour < 24 && t % SecondsPerHour / 60 < 60
    ensures t == t / SecondsPerHour * SecondsPerHour + t % SecondsPerHour / 60 * 60
  {
  }

  /** The clock hour, minutes and marker `FormatClock` writes for a time of day. */
  function ClockReading(t: nat): (r: (HourMinute, Meridiem))
    requires t < SecondsPerDay && t % 60 == 0
    ensures 1 <= r.0.hour <= 12 && r.0.minute < 60
    ensures SecondOfDay(r.0, r.1) == t
  {
    SplitDay(t);
    var h := t / SecondsPerHour;
    var m := if h < 12 then AM else PM;
    var hm := HourMinute(if h % 12 == 0 then 12 else h % 12, t % SecondsPerHour / 60);
    To24Unique(hm.hour, m, h);
    (hm, m)
  }

  /** Parsing a formatted time of day gives it back. */
  lemma ParseFormat(t: nat)
    requires t < SecondsPerDay && t % 60 == 0
    ensures ParseClock(FormatClock(t)) == Some(t)
  {
    var s := FormatClock(t);
    var (hm, m) := ClockReading(t);
    assert s[..5] == Pad2(hm.hour) + ":" + Pad2(hm.minute);
    StripMarker(s, m);
    assert ParseFragment(s[..5]) == Some(hm);
  }

  /** The clock reading of the seconds a reading denotes is that reading. */
  lemma ClockReadingOf(hm: HourMinute, m: Meridiem)
    requires 1 <= hm.hour <= 12 && hm.minute < 60
    ensures ClockReading(SecondOfDay(hm, m)) == (hm, m)
  {
  }

  /** Formatting the reading of a well-formed clock string gives the string back. */
  lemma FormatParse(raw: string)
    requires WellFormedClock(raw)
    ensures ParseClock(raw).Some? && FormatClock(ParseClock(raw).value) == raw
  {
    StripMarker(raw, SuffixOf(raw));
    var hm := ParseFragment(raw[..5]).value;
    var m := SuffixOf(raw);
    ParseFragmentRoundTrip(raw[..5]);
    ClockReadingOf(hm, m);
    assert raw == raw[..5] + raw[5..];
  }

  // ---------------------------------------------------------------------------
  // The time window

  /** Start and end as seconds since midnight, and the duration in seconds. */
  datatype TimeWindow = TimeWindow(start: nat, end: nat, duration: int)

  /**
   `generateDates`: both instants on the same day and the signed difference
   end minus start, never wrapped past midnight.
   */
  function GenerateDates(start: string, end: string): (r: Result<TimeWindow, Error>)
    ensures r.Ok? <==> ParseClock(start).Some? && ParseClock(end).Some?
    ensures r.Err? ==> r.error == InvalidTimeFormat
    ensures r.Ok? ==> r.value.start == ParseClock(start).value && r.value.end == ParseClock(end).value
    ensures r.Ok? ==> r.value.start + r.value.duration == r.value.end
    ensures r.Ok? ==> -(SecondsPerDay as int) < r.value.duration < SecondsPerDay
  {
    match (ParseClock(start), ParseClock(end))
    case (Some(s), Some(e)) => Ok(TimeWindow(s, e, e as int - s as int))
    case _ => Err(InvalidTimeFormat)
  }

  /**
   For well-formed input the duration is the difference of the two
   24-hour readings, hours times 3600 plus minutes times 60, exact to the second.
   */
  lemma DurationOfWellFormed(start: string, end: string)
    requires WellFormedClock(start) && WellFormedClock(end)
    ensures GenerateDates(start, end).Ok?
    ensures GenerateDates(start, end).value.duration ==
      (To24(TwoDigits(end[0], end[1]), SuffixOf(end)) * 3600 + TwoDigits(end[3], end[4]) * 60)
      - (To24(TwoDigits(start[0], start[1]), SuffixOf(start)) * 3600 + TwoDigits(start[3], start[4]) * 60)
  {
    ParseClockWellFormed(start);
    ParseClockWellFormed(end);
  }

  /** Equal start and end strings give a zero duration. */
  lemma DurationZero(s: string)
    requires ParseClock(s).Some?
    ensures GenerateDates(s, s).Ok? && GenerateDates(s, s).value.duration == 0
  {
  }

  /** The duration is negative exactly when the end is earlier in the day than the start. */
  lemma DurationSign(start: string, end: string)
    requires GenerateDates(start, end).Ok?
    ensures var w := GenerateDates(start, end).value;
      && (w.duration < 0 <==> w.end < w.start)
      && (w.duration == 0 <==> w.end == w.start)
  {
  }

  /** Swapping start and end negates the duration; chained windows add up. */
  lemma DurationAdditive(a: string, b: string, c: string)
    requires ParseClock(a).Some? && ParseClock(b).Some? && ParseClock(c).Some?
    ensures GenerateDates(b, a).value.duration == -GenerateDates(a, b).value.duration
    ensures GenerateDates(a, b).value.duration + GenerateDates(b, c).value.duration
         == GenerateDates(a, c).value.duration
  {
  }

  /**
   "08:00AM" reads as eight hours after midnight. This and the other example
   lemmas take the literal through a `requires` on a parameter rather than
   writing `ParseClock("08:00AM")`: the solver then sees the string only
   through the character facts asserted in the body, instead of unrolling the
   recursive search over the literal, which runs out of resource.
   */
  lemma EightAM(raw: string)
    requires raw == "08:00AM"
    ensures ParseClock(raw) == Some(28800)
  {
    assert raw[5..] == "AM";
    assert raw[..5][0] == '0' && raw[..5][1] == '8' && raw[..5][3] == '0' && raw[..5][4] == '0';
    ParseClockWellFormed(raw);
    assert TwoDigits(raw[0], raw[1]) == 8 && TwoDigits(raw[3], raw[4]) == 0;
    assert To24(8, AM) == 8;
  }

  /** "04:00PM" reads as sixteen hours after midnight. */
  lemma FourPM(raw: string)
    requires raw == "04:00PM"
    ensures ParseClock(raw) == Some(57600)
  {
    assert raw[5..] == "PM";
    assert raw[..5][0] == '0' && raw[..5][1] == '4' && raw[..5][3] == '0' && raw[..5][4] == '0';
    ParseClockWellFormed(raw);
    assert TwoDigits(raw[0], raw[1]) == 4 && TwoDigits(raw[3], raw[4]) == 0;
    assert To24(4, PM) == 16;
  }

  /** A working day from 08:00AM to 04:00PM is 28800 seconds, eight hours. */
  lemma EightHourDay(start: string, end: string)
    requires start == "08:00AM" && end == "04:00PM"
    ensures GenerateDates(start, end) == Ok(TimeWindow(28800, 57600, 28800))
  {
    EightAM(start);
    FourPM(end);
  }
}
