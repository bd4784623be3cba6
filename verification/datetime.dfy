/** Reading the value of a DTSTART or DTEND property into an instant.

    Three basic-format value forms of RFC 5545 are recognised, tried in this
    order (section 3.3.5 form #2, form #1, then section 3.3.4):
      YYYYMMDDTHHMMSSZ  UTC time;
      YYYYMMDDTHHMMSS   floating time, read as local wall-clock time;
      YYYYMMDD          a date, read as local midnight.
    The local zone is a fixed offset in seconds east of UTC, so wall-clock
    time `w` in the local zone is the instant `w - offset`. */
module DateTimeValue {
  import opened Wrappers
  import opened Digits
  import opened Civil

  /** Seconds since 1970-01-01T00:00:00Z. */
  type Instant = int

  datatype Date = Date(year: nat, month: nat, day: nat)

  datatype DateTime = DateTime(date: Date, hour: nat, minute: nat, second: nat)

  /** A date the four-digit year field can hold and the calendar has. */
  predicate DateOk(d: Date) {
    d.year < 10000 && ValidDate(d.year, d.month, d.day)
  }

  predicate DateTimeOk(t: DateTime) {
    DateOk(t.date) && t.hour < 24 && t.minute < 60 && t.second < 60
  }

  /** Seconds from 1970-01-01T00:00:00 to `t`, both read on the same clock. */
  function WallSeconds(t: DateTime): int
    requires DateTimeOk(t)
  {
    DaysFromCivil(t.date.year, t.date.month, t.date.day) * SecondsPerDay
      + t.hour * 3600 + t.minute * 60 + t.second
  }

  function Midnight(d: Date): DateTime {
    DateTime(d, 0, 0, 0)
  }

  // ----- the basic formats, written out -----

  function FormatDate(d: Date): (s: string)
    requires DateOk(d)
    ensures |s| == 8 && AllDigits(s)
  {
    Pad(d.year, 4) + Pad(d.month, 2) + Pad(d.day, 2)
  }

  function FormatDateTime(t: DateTime): (s: string)
    requires DateTimeOk(t)
    ensures |s| == 15 && s[8] == 'T'
  {
    FormatDate(t.date) + "T" + Pad(t.hour, 2) + Pad(t.minute, 2) + Pad(t.second, 2)
  }

  // ----- the basic formats, read back (chrono's "%Y%m%d" and
  // "%Y%m%dT%H%M%S" on fixed-width fields) -----

  function ParseDate(s: string): (r: Option<Date>)
    ensures r.Some? ==> DateOk(r.value) && |s| == 8
  {
    if |s| == 8 && AllDigits(s) then
      var d := Date(DigitsValue(s[..4]), DigitsValue(s[4..6]), DigitsValue(s[6..8]));
      if DateOk(d) then Some(d) else None
    else None
  }

  function ParseDateTime(s: string): (r: Option<DateTime>)
    ensures r.Some? ==> DateTimeOk(r.value) && |s| == 15 && 'T' in s
  {
    if |s| == 15 && s[8] == 'T' && AllDigits(s[9..]) then
      match ParseDate(s[..8])
      case None => None
      case Some(d) =>
        var t := DateTime(d, DigitsValue(s[9..11]), DigitsValue(s[11..13]), DigitsValue(s[13..15]));
        if DateTimeOk(t) then Some(t) else None
    else None
  }

  /** The digits of the UTC form: a basic date-time followed by `Z`. */
  function ParseUtcDateTime(s: string): (r: Option<DateTime>)
    ensures r.Some? ==> DateTimeOk(r.value) && |s| == 16 && s[15] == 'Z'
  {
    if |s| == 16 && s[15] == 'Z' then ParseDateTime(s[..15]) else None
  }

  lemma FormatThenParseDate(d: Date)
    requires DateOk(d)
    ensures ParseDate(FormatDate(d)) == Some(d)
  {
    var s := FormatDate(d);
    assert s[..4] == Pad(d.year, 4) && s[4..6] == Pad(d.month, 2) && s[6..8] == Pad(d.day, 2);
    ValueOfPad(d.year, 4);
    ValueOfPad(d.month, 2);
    ValueOfPad(d.day, 2);
  }

  lemma ParseThenFormatDate(s: string)
    requires ParseDate(s).Some?
    ensures FormatDate(ParseDate(s).value) == s
  {
    var yyyy, mm, dd := s[..4], s[4..6], s[6..8];
    AllDigitsSlice(s, 0, 4);
    AllDigitsSlice(s, 4, 6);
    AllDigitsSlice(s, 6, 8);
    assert s == yyyy + mm + dd;
    PadOfValue(yyyy);
    PadOfValue(mm);
    PadOfValue(dd);
  }

  lemma DateRoundTrip(s: string, d: Date)
    ensures ParseDate(s) == Some(d) <==> DateOk(d) && s == FormatDate(d)
  {
    if DateOk(d) && s == FormatDate(d) {
      FormatThenParseDate(d);
    }
    if ParseDate(s) == Some(d) {
      ParseThenFormatDate(s);
    }
  }

  /** The six time digits of the basic form, read back field by field. */
  lemma TimeDigitsRoundTrip(time: string, h: nat, m: nat, sec: nat)
    requires h < 100 && m < 100 && sec < 100
    requires time == Pad(h, 2) + Pad(m, 2) + Pad(sec, 2)
    ensures AllDigits(time) && |time| == 6
    ensures DigitsValue(time[..2]) == h && DigitsValue(time[2..4]) == m && DigitsValue(time[4..]) == sec
  {
    AllDigitsConcat(Pad(h, 2), Pad(m, 2));
    AllDigitsConcat(Pad(h, 2) + Pad(m, 2), Pad(sec, 2));
    assert time[..2] == Pad(h, 2) && time[2..4] == Pad(m, 2) && time[4..] == Pad(sec, 2);
    ValueOfPad(h, 2);
    ValueOfPad(m, 2);
    ValueOfPad(sec, 2);
  }

  /** Six digits are the padding of their three two-digit fields. */
  lemma TimeDigitsRebuilt(time: string)
    requires |time| == 6 && AllDigits(time)
    ensures time == Pad(DigitsValue(time[..2]), 2) + Pad(DigitsValue(time[2..4]), 2) + Pad(DigitsValue(time[4..]), 2)
  {
    var hh, mm, ss := time[..2], time[2..4], time[4..];
    AllDigitsSlice(time, 0, 2);
    AllDigitsSlice(time, 2, 4);
    AllDigitsSlice(time, 4, 6);
    assert time == hh + mm + ss;
    PadOfValue(hh);
    PadOfValue(mm);
    PadOfValue(ss);
  }

  lemma RegroupFields(date: string, hh: string, mm: string, ss: string)
    ensures date + "T" + hh + mm + ss == date + "T" + (hh + mm + ss)
  {
  }

  lemma FormatThenParse(t: DateTime)
    requires DateTimeOk(t)
    ensures ParseDateTime(FormatDateTime(t)) == Some(t)
  {
    var s := FormatDateTime(t);
    var date, time := FormatDate(t.date), Pad(t.hour, 2) + Pad(t.minute, 2) + Pad(t.second, 2);
    RegroupFields(date, Pad(t.hour, 2), Pad(t.minute, 2), Pad(t.second, 2));
    assert s[..8] == date && s[8] == 'T' && s[9..] == time;
    assert s[9..11] == time[..2] && s[11..13] == time[2..4] && s[13..15] == time[4..];
    FormatThenParseDate(t.date);
    TimeDigitsRoundTrip(time, t.hour, t.minute, t.second);
  }

  /** What an accepted basic date-time is made of. */
  lemma ParsedFields(s: string)
    requires ParseDateTime(s).Some?
    ensures var t, time := ParseDateTime(s).value, s[9..];
            |s| == 15 && s[8] == 'T' && ParseDate(s[..8]) == Some(t.date) &&
            |time| == 6 && AllDigits(time) && t.hour == DigitsValue(time[..2]) &&
            t.minute == DigitsValue(time[2..4]) && t.second == DigitsValue(time[4..])
  {
    var time := s[9..];
    assert s[9..11] == time[..2] && s[11..13] == time[2..4] && s[13..15] == time[4..];
  }

  lemma SplitAtT(s: string)
    requires |s| == 15 && s[8] == 'T'
    ensures s == s[..8] + "T" + s[9..]
  {
  }

  lemma ParseThenFormat(s: string)
    requires ParseDateTime(s).Some?
    ensures FormatDateTime(ParseDateTime(s).value) == s
  {
    var t := ParseDateTime(s).value;
    var date, time := s[..8], s[9..];
    ParsedFields(s);
    ParseThenFormatDate(date);
    TimeDigitsRebuilt(time);
    RegroupFields(date, Pad(t.hour, 2), Pad(t.minute, 2), Pad(t.second, 2));
    SplitAtT(s);
  }

  lemma DateTimeRoundTrip(s: string, t: DateTime)
    ensures ParseDateTime(s) == Some(t) <==> DateTimeOk(t) && s == FormatDateTime(t)
  {
    if DateTimeOk(t) && s == FormatDateTime(t) {
      FormatThenParse(t);
    }
    if ParseDateTime(s) == Some(t) {
      ParseThenFormat(s);
    }
  }

  // ----- the dispatch of parse_datetime_property -----

  /** What chrono's pattern scan fills in: the stamp, and an offset only if
      the pattern holds an offset item. */
  datatype Scanned = Scanned(stamp: DateTime, offset: Option<int>)

  /** `DateTime::parse_from_str(value, "%Y%m%dT%H%M%SZ")` as written: the `Z`
      of the pattern is a literal character, not an offset item, so the scan
      never records an offset. */
  function ScanUtcPattern(value: string): (r: Option<Scanned>)
    ensures r.Some? ==> r.value.offset.None?
    ensures r.Some? <==> ParseUtcDateTime(value).Some?
  {
    match ParseUtcDateTime(value)
    case None => None
    case Some(t) => Some(Scanned(t, None))
  }

  /** chrono's conversion of a scan to a zoned date-time: it fails when the
      scan recorded no offset. */
  function ScannedInstant(p: Scanned): (r: Option<Instant>)
    requires DateTimeOk(p.stamp)
    ensures r.Some? <==> p.offset.Some?
  {
    match p.offset
    case None => None
    case Some(o) => Some(WallSeconds(p.stamp) - o)
  }

  /** The UTC branch as the code runs it. */
  function UtcBranchAsWritten(value: string): (r: Option<Instant>)
    ensures r.None?
  {
    match ScanUtcPattern(value)
    case None => None
    case Some(p) => ScannedInstant(p)
  }

  /** The UTC branch as its comment intends: the trailing `Z` designates
      UTC, offset zero. */
  function UtcBranch(value: string): (r: Option<Instant>)
    ensures r.Some? <==> ParseUtcDateTime(value).Some?
    ensures r.Some? ==> r == ScannedInstant(Scanned(ParseUtcDateTime(value).value, Some(0)))
  {
    match ParseUtcDateTime(value)
    case None => None
    case Some(t) => Some(WallSeconds(t))
  }

  predicate EndsWithZ(value: string) {
    |value| > 0 && value[|value| - 1] == 'Z'
  }

  /** The three branches of parse_datetime_property, tried in order, with
      the outcome of the UTC branch supplied by the caller. */
  function Dispatch(value: string, offset: int, utc: Option<Instant>): Option<Instant>
  {
    if EndsWithZ(value) && utc.Some? then utc
    else if 'T' in value && ParseDateTime(value).Some? then
      Some(WallSeconds(ParseDateTime(value).value) - offset)
    else if ParseDate(value).Some? then
      Some(WallSeconds(Midnight(ParseDate(value).value)) - offset)
    else None
  }

  /** parse_datetime_property exactly as written: no `Z` value is ever
      accepted. */
  function ParseDateTimePropertyAsWritten(value: string, offset: int): (r: Option<Instant>)
    ensures r.Some? <==> ParseDateTime(value).Some? || ParseDate(value).Some?
  {
    Dispatch(value, offset, UtcBranchAsWritten(value))
  }

  /** parse_datetime_property with the UTC branch read as intended; the
      event extraction uses this one. A value is accepted iff it has one of
      the three forms, and each form gives its own instant. */
  function ParseDateTimeProperty(value: string, offset: int): (r: Option<Instant>)
    ensures r.Some? <==>
      ParseUtcDateTime(value).Some? || ParseDateTime(value).Some? || ParseDate(value).Some?
    ensures ParseUtcDateTime(value).Some? ==>
      r == Some(WallSeconds(ParseUtcDateTime(value).value))
    ensures ParseDateTime(value).Some? ==>
      r == Some(WallSeconds(ParseDateTime(value).value) - offset)
    ensures ParseDate(value).Some? ==>
      r == Some(WallSeconds(Midnight(ParseDate(value).value)) - offset)
  {
    Dispatch(value, offset, UtcBranch(value))
  }

  // ----- properties of the dispatch -----

  /** A UTC value is that UTC instant, whatever the local offset. */
  lemma UtcValue(t: DateTime, offset: int)
    requires DateTimeOk(t)
    ensures ParseDateTimeProperty(FormatDateTime(t) + "Z", offset) == Some(WallSeconds(t))
  {
    var v := FormatDateTime(t) + "Z";
    assert v[..15] == FormatDateTime(t);
    FormatThenParse(t);
  }

  lemma LocalForm(value: string, t: DateTime, offset: int)
    requires ParseDateTime(value) == Some(t)
    ensures ParseDateTimeProperty(value, offset) == Some(WallSeconds(t) - offset)
  {
  }

  /** A floating value is local wall-clock time: the instant is its wall
      seconds minus the offset. */
  lemma LocalValue(t: DateTime, offset: int)
    requires DateTimeOk(t)
    ensures ParseDateTimeProperty(FormatDateTime(t), offset) == Some(WallSeconds(t) - offset)
  {
    FormatThenParse(t);
    LocalForm(FormatDateTime(t), t, offset);
  }

  /** A DATE value is local midnight of that date. */
  lemma DateValue(d: Date, offset: int)
    requires DateOk(d)
    ensures ParseDateTimeProperty(FormatDate(d), offset) == Some(WallSeconds(Midnight(d)) - offset)
  {
    FormatThenParseDate(d);
  }

  /** The same digits with and without `Z` differ by exactly the offset. */
  lemma UtcAndLocalDifferByOffset(t: DateTime, offset: int)
    requires DateTimeOk(t)
    ensures ParseDateTimeProperty(FormatDateTime(t) + "Z", offset).Some?
    ensures ParseDateTimeProperty(FormatDateTime(t), offset).Some?
    ensures ParseDateTimeProperty(FormatDateTime(t) + "Z", offset).value
      - ParseDateTimeProperty(FormatDateTime(t), offset).value == offset
  {
    UtcValue(t, offset);
    LocalValue(t, offset);
  }

  /** Every accepted value is one of the three forms written out. */
  lemma {:induction false} AcceptedValuesAreWellFormed(value: string, offset: int)
    requires ParseDateTimeProperty(value, offset).Some?
    ensures
      (exists t :: DateTimeOk(t) && value == FormatDateTime(t) + "Z") ||
      (exists t :: DateTimeOk(t) && value == FormatDateTime(t)) ||
      (exists d :: DateOk(d) && value == FormatDate(d))
  {
    if ParseUtcDateTime(value).Some? {
      var t := ParseUtcDateTime(value).value;
      DateTimeRoundTrip(value[..15], t);
      assert value == value[..15] + "Z";
    } else if ParseDateTime(value).Some? {
      DateTimeRoundTrip(value, ParseDateTime(value).value);
    } else {
      DateRoundTrip(value, ParseDate(value).value);
    }
  }

  /** As written, a well-formed UTC value is dropped: the UTC branch fails,
      the local branch rejects the trailing `Z`, and so does the date
      branch. */
  lemma UtcValueRejectedAsWritten(t: DateTime, offset: int)
    requires DateTimeOk(t)
    ensures ParseDateTimePropertyAsWritten(FormatDateTime(t) + "Z", offset) == None
    ensures ParseDateTimeProperty(FormatDateTime(t) + "Z", offset) == Some(WallSeconds(t))
  {
    UtcValue(t, offset);
  }

  /** The two readings differ only on values of the UTC form. */
  lemma AsWrittenAgreesOffUtcForm(value: string, offset: int)
    requires ParseUtcDateTime(value).None?
    ensures ParseDateTimePropertyAsWritten(value, offset) == ParseDateTimeProperty(value, offset)
  {
  }
}
