/** A calendar event (CalendarEvent): its construction, its `HH:MM - HH:MM`
    rendering in the local zone, and the "ongoing" and "upcoming" tests
    against a caller-supplied current instant. */
module Event {
  import opened Wrappers
  import opened Digits
  import opened Civil
  import opened DateTimeValue

  datatype CalendarEvent = CalendarEvent(
    name: string,
    startTime: Instant,
    endTime: Instant,
    durationMinutes: int,
    location: Option<string>,
    description: Option<string>)

  /** Integer division truncating toward zero, as Rust's `/` on `i64`. */
  function TruncDiv(a: int, b: int): int
    requires b > 0
  {
    if a >= 0 then a / b else -((-a) / b)
  }

  /** CalendarEvent::new: the duration is the whole minutes from start to
      end, truncated toward zero: negative when the end precedes the start
      by a minute or more, and 0 when it precedes it by less. */
  function NewEvent(name: string, startTime: Instant, endTime: Instant,
                    location: Option<string>, description: Option<string>): (e: CalendarEvent)
    ensures e.name == name && e.startTime == startTime && e.endTime == endTime
    ensures e.location == location && e.description == description
    ensures endTime >= startTime ==>
      0 <= (endTime - startTime) - 60 * e.durationMinutes < 60
    ensures endTime < startTime ==>
      -60 < (endTime - startTime) - 60 * e.durationMinutes <= 0
  {
    CalendarEvent(name, startTime, endTime, TruncDiv(endTime - startTime, 60), location, description)
  }

  /** `h:m` is the local wall-clock minute that contains instant `t`. */
  ghost predicate IsWallClockMinute(t: Instant, offset: int, h: int, m: int) {
    0 <= h < 24 && 0 <= m < 60 &&
    exists day: int :: 0 <= (t + offset) - day * SecondsPerDay - (h * 3600 + m * 60) < 60
  }

  /** Hour and minute, each as two digits, joined by a colon. */
  function ClockOf(h: nat, m: nat): (s: string)
    requires h < 100 && m < 100
    ensures |s| == 5 && s[2] == ':'
    ensures AllDigits(s[..2]) && AllDigits(s[3..])
    ensures DigitsValue(s[..2]) == h && DigitsValue(s[3..]) == m
  {
    var s := Pad(h, 2) + ":" + Pad(m, 2);
    assert s[..2] == Pad(h, 2) && s[3..] == Pad(m, 2);
    ValueOfPad(h, 2);
    ValueOfPad(m, 2);
    s
  }

  /** `%H:%M` of an instant in the local zone. */
  function ClockText(t: Instant, offset: int): (s: string)
    ensures |s| == 5 && s[2] == ':'
    ensures AllDigits(s[..2]) && AllDigits(s[3..])
  {
    var secondOfDay := (t + offset) % SecondsPerDay;
    ClockOf(secondOfDay / 3600, (secondOfDay % 3600) / 60)
  }

  /** The hour and minute digits `ClockText` shows name the local
      wall-clock minute that contains the instant. */
  lemma ClockTextIsWallClockMinute(t: Instant, offset: int)
    ensures var s := ClockText(t, offset);
            IsWallClockMinute(t, offset, DigitsValue(s[..2]), DigitsValue(s[3..]))
  {
    var secondOfDay := (t + offset) % SecondsPerDay;
    var h, m := secondOfDay / 3600, (secondOfDay % 3600) / 60;
    var day := (t + offset) / SecondsPerDay;
    assert 0 <= (t + offset) - day * SecondsPerDay - (h * 3600 + m * 60) < 60;
  }

  /** format_time_range: start and end as `HH:MM`, joined by ` - `. */
  function FormatTimeRange(e: CalendarEvent, offset: int): (s: string)
    ensures |s| == 13 && s[5..8] == " - "
    ensures s[..5] == ClockText(e.startTime, offset)
    ensures s[8..] == ClockText(e.endTime, offset)
  {
    ClockText(e.startTime, offset) + " - " + ClockText(e.endTime, offset)
  }

  /** is_current: `now` lies in the half-open interval [start, end), so
      only an event of positive length is ever ongoing. */
  predicate IsCurrent(e: CalendarEvent, now: Instant): (b: bool)
    ensures b ==> e.startTime < e.endTime
  {
    now >= e.startTime && now < e.endTime
  }

  /** is_future: the event has not started yet. An upcoming event is not
      ongoing, and a well-formed one has not ended either. */
  predicate IsFuture(e: CalendarEvent, now: Instant): (b: bool)
    ensures b ==> !IsCurrent(e, now)
    ensures b && e.startTime <= e.endTime ==> now < e.endTime
  {
    now < e.startTime
  }

  /** An ongoing event is not upcoming, and an event that is neither has
      started already. */
  lemma CurrentExcludesFuture(e: CalendarEvent, now: Instant)
    ensures IsCurrent(e, now) ==> !IsFuture(e, now)
    ensures !IsCurrent(e, now) && !IsFuture(e, now) ==> e.endTime <= now
  {
  }

  lemma SecondOfDaySplit(days: int, h: int, m: int, sec: int)
    requires 0 <= h < 24 && 0 <= m < 60 && 0 <= sec < 60
    ensures var sod := h * 3600 + m * 60 + sec;
            (days * SecondsPerDay + sod) % SecondsPerDay == sod &&
            sod / 3600 == h && (sod % 3600) / 60 == m
  {
  }

  /** The clock text of an instant whose local time is `h:m:sec` on some day. */
  lemma ClockTextOfWallTime(t: Instant, offset: int, days: int, h: int, m: int, sec: int)
    requires 0 <= h < 24 && 0 <= m < 60 && 0 <= sec < 60
    requires t + offset == days * SecondsPerDay + (h * 3600 + m * 60 + sec)
    ensures ClockText(t, offset) == ClockOf(h, m)
  {
    SecondOfDaySplit(days, h, m, sec);
  }

  /** For an instant read from a floating value, the clock text repeats the
      value's hour and minute. */
  lemma ClockTextOfLocalValue(t: DateTime, offset: int)
    requires DateTimeOk(t)
    ensures ClockText(WallSeconds(t) - offset, offset) == ClockOf(t.hour, t.minute)
  {
    var days := DaysFromCivil(t.date.year, t.date.month, t.date.day);
    ClockTextOfWallTime(WallSeconds(t) - offset, offset, days, t.hour, t.minute, t.second);
  }

  /** Two two-digit fields shown as `HH:MM` come back unchanged. */
  lemma ClockOfDigits(hh: string, mm: string)
    requires |hh| == 2 && |mm| == 2 && AllDigits(hh) && AllDigits(mm)
    ensures ClockOf(DigitsValue(hh), DigitsValue(mm)) == hh + ":" + mm
  {
    PadOfValue(hh);
    PadOfValue(mm);
  }

  /** The start half of the rendering of an event read from a floating
      value is the value's own `HH` and `MM` digits. */
  lemma FormatTimeRangeOfLocalValue(value: string, e: CalendarEvent, offset: int)
    requires ParseDateTime(value).Some?
    requires e.startTime == WallSeconds(ParseDateTime(value).value) - offset
    ensures FormatTimeRange(e, offset)[..5] == value[9..11] + ":" + value[11..13]
  {
    var t := ParseDateTime(value).value;
    ParsedFields(value);
    var time := value[9..];
    var hh, mm := value[9..11], value[11..13];
    assert hh == time[..2] && mm == time[2..4];
    AllDigitsSlice(time, 0, 2);
    AllDigitsSlice(time, 2, 4);
    ClockOfDigits(hh, mm);
    ClockTextOfLocalValue(t, offset);
  }

  lemma RangeOfClocks(e: CalendarEvent, offset: int, a: string, b: string)
    requires ClockText(e.startTime, offset) == a && ClockText(e.endTime, offset) == b
    ensures FormatTimeRange(e, offset) == a + " - " + b
  {
  }

  lemma PadTwo(n: nat)
    requires n < 100
    ensures Pad(n, 2) == [DigitChar(n / 10), DigitChar(n % 10)]
  {
    var tens := n / 10;
    assert tens < 10 && tens / 10 == 0 && tens % 10 == tens;
    assert Pad(tens, 1) == Pad(0, 0) + [DigitChar(tens)];
    assert Pad(n, 2) == Pad(tens, 1) + [DigitChar(n % 10)];
  }

  lemma ExampleClocks()
    ensures ClockOf(9, 0) == "09:00" && ClockOf(10, 30) == "10:30"
  {
    PadTwo(9);
    PadTwo(0);
    PadTwo(10);
    PadTwo(30);
    assert DigitChar(0) == '0' && DigitChar(1) == '1' && DigitChar(3) == '3' && DigitChar(9) == '9';
  }

  /** Rendering an event whose times were read from floating values shows
      the values' own hours and minutes. */
  lemma TimeRangeOfLocalTimes(e: CalendarEvent, start: DateTime, end: DateTime, offset: int)
    requires DateTimeOk(start) && DateTimeOk(end)
    requires e.startTime == WallSeconds(start) - offset && e.endTime == WallSeconds(end) - offset
    ensures FormatTimeRange(e, offset)
      == ClockOf(start.hour, start.minute) + " - " + ClockOf(end.hour, end.minute)
  {
    var a, b := ClockOf(start.hour, start.minute), ClockOf(end.hour, end.minute);
    ClockTextOfLocalValue(start, offset);
    ClockTextOfLocalValue(end, offset);
    RangeOfClocks(e, offset, a, b);
  }

  /** The example from the source's own test: 09:00 to 10:30 on 2023-01-01
      renders as "09:00 - 10:30" and lasts 90 minutes, in any fixed zone. */
  lemma MeetingExample(offset: int, e: CalendarEvent)
    requires e == NewEvent("Test Meeting",
                           WallSeconds(DateTime(Date(2023, 1, 1), 9, 0, 0)) - offset,
                           WallSeconds(DateTime(Date(2023, 1, 1), 10, 30, 0)) - offset,
                           Some("Conference Room A"), Some("Project kickoff meeting"))
    ensures e.durationMinutes == 90
    ensures FormatTimeRange(e, offset) == "09:00 - 10:30"
  {
    var start := DateTime(Date(2023, 1, 1), 9, 0, 0);
    var end := DateTime(Date(2023, 1, 1), 10, 30, 0);
    assert e.endTime - e.startTime == 5400;
    TimeRangeOfLocalTimes(e, start, end, offset);
    ExampleClocks();
  }
}
