/** Proleptic Gregorian calendar arithmetic: the day count that turns the
    digits of an iCalendar DATE or DATE-TIME value into an instant. */
module Civil {

  const SecondsPerDay := 86400

  predicate IsLeapYear(y: int) {
    (y % 4 == 0 && y % 100 != 0) || y % 400 == 0
  }

  function DaysInMonth(y: int, m: int): (r: int)
    requires 1 <= m <= 12
    ensures 28 <= r <= 31
  {
    if m == 2 then (if IsLeapYear(y) then 29 else 28)
    else if m == 4 || m == 6 || m == 9 || m == 11 then 30
    else 31
  }

  function DaysInYear(y: int): int {
    if IsLeapYear(y) then 366 else 365
  }

  predicate ValidDate(y: int, m: int, d: int) {
    1 <= m <= 12 && 1 <= d <= DaysInMonth(y, m)
  }

  /** Days of year `y` that precede the first of month `m`. */
  function DaysBeforeMonth(y: int, m: int): int
    requires 1 <= m <= 12
  {
    var common :=
      if m == 1 then 0 else if m == 2 then 31 else if m == 3 then 59
      else if m == 4 then 90 else if m == 5 then 120 else if m == 6 then 151
      else if m == 7 then 181 else if m == 8 then 212 else if m == 9 then 243
      else if m == 10 then 273 else if m == 11 then 304 else 334;
    if m > 2 && IsLeapYear(y) then common + 1 else common
  }

  /** Number of leap years among 1..n (negative for n < 0, consistently with
      the proleptic calendar): floor divisions, as Dafny's `/` is for a
      positive divisor. */
  function LeapsThrough(n: int): int {
    n / 4 - n / 100 + n / 400
  }

  /** Days from 1970-01-01 to the given date (negative before it). */
  function DaysFromCivil(y: int, m: int, d: int): int
    requires 1 <= m <= 12
  {
    365 * (y - 1970) + (LeapsThrough(y - 1) - LeapsThrough(1969))
      + DaysBeforeMonth(y, m) + d - 1
  }

  /** The calendar day after a valid date. */
  function NextDay(y: int, m: int, d: int): (r: (int, int, int))
    requires ValidDate(y, m, d)
    ensures ValidDate(r.0, r.1, r.2)
  {
    if d < DaysInMonth(y, m) then (y, m, d + 1)
    else if m < 12 then (y, m + 1, 1)
    else (y + 1, 1, 1)
  }

  lemma Div4Step(y: int)
    ensures (y - 1) / 4 == if y % 4 == 0 then y / 4 - 1 else y / 4
  {
  }

  lemma Div100Step(y: int)
    ensures (y - 1) / 100 == if y % 100 == 0 then y / 100 - 1 else y / 100
  {
  }

  lemma Div400Step(y: int)
    ensures (y - 1) / 400 == if y % 400 == 0 then y / 400 - 1 else y / 400
  {
  }

  lemma Multiple400Is100(y: int)
    ensures y % 400 == 0 ==> y % 100 == 0
  {
    if y % 400 == 0 {
      var k := y / 400;
      assert y == 100 * (4 * k);
    }
  }

  lemma Multiple100Is4(y: int)
    ensures y % 100 == 0 ==> y % 4 == 0
  {
    if y % 100 == 0 {
      var k := y / 100;
      assert y == 4 * (25 * k);
    }
  }

  lemma LeapStep(y: int)
    ensures LeapsThrough(y) - LeapsThrough(y - 1) == if IsLeapYear(y) then 1 else 0
  {
    Div4Step(y);
    Div100Step(y);
    Div400Step(y);
    Multiple400Is100(y);
    Multiple100Is4(y);
  }

  lemma MonthStep(y: int, m: int)
    requires 1 <= m < 12
    ensures DaysBeforeMonth(y, m) + DaysInMonth(y, m) == DaysBeforeMonth(y, m + 1)
  {
  }

  lemma {:induction false} MonthStartsIncrease(y: int, m: int, m': int)
    requires 1 <= m < m' <= 12
    ensures DaysBeforeMonth(y, m) + DaysInMonth(y, m) <= DaysBeforeMonth(y, m')
    decreases m' - m
  {
    MonthStep(y, m);
    if m + 1 < m' {
      MonthStartsIncrease(y, m + 1, m');
    }
  }

  /** Consecutive calendar days are consecutive day numbers: together with
      `DaysFromCivil(1970, 1, 1) == 0` this pins the day count down. */
  lemma {:induction false} DaysFromCivilNextDay(y: int, m: int, d: int)
    requires ValidDate(y, m, d)
    ensures var n := NextDay(y, m, d); DaysFromCivil(n.0, n.1, n.2) == DaysFromCivil(y, m, d) + 1
  {
    if d == DaysInMonth(y, m) && m == 12 {
      LeapStep(y);
    }
  }

  lemma YearLength(y: int)
    ensures DaysFromCivil(y + 1, 1, 1) == DaysFromCivil(y, 1, 1) + DaysInYear(y)
  {
    LeapStep(y);
  }

  lemma {:induction false} YearStartsIncrease(y: int, y': int)
    requires y < y'
    ensures DaysFromCivil(y, 1, 1) + DaysInYear(y) <= DaysFromCivil(y', 1, 1)
    decreases y' - y
  {
    YearLength(y);
    if y + 1 < y' {
      YearStartsIncrease(y + 1, y');
    }
  }

  /** Later dates have larger day numbers (lexicographic order on year,
      month, day), so the day count is injective on valid dates. */
  lemma {:induction false} DaysFromCivilMonotone(y: int, m: int, d: int, y': int, m': int, d': int)
    requires ValidDate(y, m, d) && ValidDate(y', m', d')
    requires y < y' || (y == y' && (m < m' || (m == m' && d < d')))
    ensures DaysFromCivil(y, m, d) < DaysFromCivil(y', m', d')
  {
    if y < y' {
      YearStartsIncrease(y, y');
      if m < 12 {
        MonthStartsIncrease(y, m, 12);
      }
      var start, start' := DaysFromCivil(y, 1, 1), DaysFromCivil(y', 1, 1);
      assert DaysFromCivil(y, m, d) == start + DaysBeforeMonth(y, m) + d - 1;
      assert DaysFromCivil(y', m', d') == start' + DaysBeforeMonth(y', m') + d' - 1;
      assert DaysBeforeMonth(y, m) + d <= DaysInYear(y);
    } else if m < m' {
      MonthStartsIncrease(y, m, m');
    }
  }
}
