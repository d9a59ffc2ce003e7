/** The proleptic Gregorian calendar that Python's `datetime` walks over, built from two
    independent descriptions: the step from one day to the next, and the day count. The lemmas
    show that they are inverse to each other. */
module Calendar {

  datatype Date = Date(year: int, month: int, day: int)

  const DAYS_PER_400_YEARS := 146097

  predicate IsLeap(y: int) {
    y % 4 == 0 && (y % 100 != 0 || y % 400 == 0)
  }

  function DaysInMonth(y: int, m: int): (d: int)
    requires 1 <= m <= 12
    ensures 28 <= d <= 31
  {
    if m == 2 then (if IsLeap(y) then 29 else 28)
    else if m == 4 || m == 6 || m == 9 || m == 11 then 30
    else 31
  }

  predicate ValidDate(d: Date) {
    d.year >= 1 && 1 <= d.month <= 12 && 1 <= d.day <= DaysInMonth(d.year, d.month)
  }

  function NextDay(d: Date): (r: Date)
    requires ValidDate(d)
    ensures ValidDate(r)
  {
    if d.day < DaysInMonth(d.year, d.month) then d.(day := d.day + 1)
    else if d.month < 12 then Date(d.year, d.month + 1, 1)
    else Date(d.year + 1, 1, 1)
  }

  /** The date `n` days after 1 January of year 1. */
  function DateAt(n: nat): (d: Date)
    ensures ValidDate(d)
  {
    if n == 0 then Date(1, 1, 1) else NextDay(DateAt(n - 1))
  }

  /** Monday is 0; 1 January of year 1 was a Monday. */
  function Weekday(n: nat): int {
    n % 7
  }

  function DaysInYear(y: int): int {
    if IsLeap(y) then 366 else 365
  }

  function DaysBeforeYear(y: int): int {
    var p := y - 1;
    365 * p + p / 4 - p / 100 + p / 400
  }

  function DaysBeforeMonth(y: int, m: int): int
    requires 1 <= m <= 12
    decreases m
  {
    if m == 1 then 0 else DaysBeforeMonth(y, m - 1) + DaysInMonth(y, m - 1)
  }

  function DayNumber(d: Date): int
    requires 1 <= d.month <= 12
  {
    DaysBeforeYear(d.year) + DaysBeforeMonth(d.year, d.month) + d.day - 1
  }

  lemma YearLength(y: int)
    ensures DaysBeforeYear(y + 1) == DaysBeforeYear(y) + DaysInYear(y)
  {
    By4(y);
    By100(y);
    By400(y);
    assert y % 400 == 0 ==> y % 100 == 0;
    assert y % 100 == 0 ==> y % 4 == 0;
  }

  lemma By4(y: int)
    ensures y / 4 == (y - 1) / 4 + if y % 4 == 0 then 1 else 0
  {
  }

  lemma By100(y: int)
    ensures y / 100 == (y - 1) / 100 + if y % 100 == 0 then 1 else 0
  {
  }

  lemma By400(y: int)
    ensures y / 400 == (y - 1) / 400 + if y % 400 == 0 then 1 else 0
  {
  }

  /** The month offsets as a table, with the leap day added from March on. */
  lemma MonthOffsets(y: int)
    ensures var l := if IsLeap(y) then 1 else 0;
            && DaysBeforeMonth(y, 1) == 0
            && DaysBeforeMonth(y, 2) == 31
            && DaysBeforeMonth(y, 3) == 59 + l
            && DaysBeforeMonth(y, 4) == 90 + l
            && DaysBeforeMonth(y, 5) == 120 + l
            && DaysBeforeMonth(y, 6) == 151 + l
            && DaysBeforeMonth(y, 7) == 181 + l
            && DaysBeforeMonth(y, 8) == 212 + l
            && DaysBeforeMonth(y, 9) == 243 + l
            && DaysBeforeMonth(y, 10) == 273 + l
            && DaysBeforeMonth(y, 11) == 304 + l
            && DaysBeforeMonth(y, 12) == 334 + l
  {
    assert DaysBeforeMonth(y, 3) == DaysBeforeMonth(y, 2) + DaysInMonth(y, 2);
    assert DaysBeforeMonth(y, 5) == DaysBeforeMonth(y, 4) + DaysInMonth(y, 4);
    assert DaysBeforeMonth(y, 7) == DaysBeforeMonth(y, 6) + DaysInMonth(y, 6);
    assert DaysBeforeMonth(y, 9) == DaysBeforeMonth(y, 8) + DaysInMonth(y, 8);
    assert DaysBeforeMonth(y, 11) == DaysBeforeMonth(y, 10) + DaysInMonth(y, 10);
  }

  lemma DecemberEndsTheYear(y: int)
    ensures DaysBeforeYear(y) + DaysBeforeMonth(y, 12) + 31 == DaysBeforeYear(y + 1)
  {
    MonthOffsets(y);
    YearLength(y);
  }

  lemma NextDayCounts(d: Date)
    requires ValidDate(d)
    ensures DayNumber(NextDay(d)) == DayNumber(d) + 1
  {
    if d.month == 12 && d.day == 31 { DecemberEndsTheYear(d.year); }
  }

  /** The walk's nth date has number n. */
  lemma {:induction false} DayNumberOfDateAt(n: nat)
    ensures DayNumber(DateAt(n)) == n
  {
    if n > 0 {
      DayNumberOfDateAt(n - 1);
      NextDayCounts(DateAt(n - 1));
    }
  }

  lemma {:induction false} YearsMonotone(a: int, b: int)
    requires a <= b
    ensures DaysBeforeYear(b) >= DaysBeforeYear(a) + 365 * (b - a)
    decreases b - a
  {
    if a < b {
      YearsMonotone(a, b - 1);
      YearLength(b - 1);
    }
  }

  lemma {:induction false} MonthsMonotone(y: int, a: int, b: int)
    requires 1 <= a < b <= 12
    ensures DaysBeforeMonth(y, a) + DaysInMonth(y, a) <= DaysBeforeMonth(y, b)
    decreases b
  {
    if a < b - 1 { MonthsMonotone(y, a, b - 1); }
  }

  /** A valid date's number lies inside its year. */
  lemma WithinYear(d: Date)
    requires ValidDate(d)
    ensures DaysBeforeYear(d.year) <= DayNumber(d) < DaysBeforeYear(d.year + 1)
  {
    DecemberEndsTheYear(d.year);
    if d.month < 12 { MonthsMonotone(d.year, d.month, 12); }
    if d.month > 1 { MonthsMonotone(d.year, 1, d.month); }
  }

  predicate Before(a: Date, b: Date) {
    a.year < b.year || (a.year == b.year && (a.month < b.month || (a.month == b.month && a.day < b.day)))
  }

  lemma DayNumberMonotone(a: Date, b: Date)
    requires ValidDate(a) && ValidDate(b) && Before(a, b)
    ensures DayNumber(a) < DayNumber(b)
  {
    if a.year < b.year {
      WithinYear(a);
      WithinYear(b);
      YearsMonotone(a.year + 1, b.year);
    } else if a.month < b.month {
      MonthsMonotone(a.year, a.month, b.month);
    }
  }

  /** The walk reaches every valid date, at the day its number says. */
  lemma DateAtOfDayNumber(d: Date)
    requires ValidDate(d)
    ensures DayNumber(d) >= 0 && DateAt(DayNumber(d)) == d
  {
    WithinYear(d);
    YearsMonotone(1, d.year);
    var n := DayNumber(d);
    var e := DateAt(n);
    DayNumberOfDateAt(n);
    if Before(d, e) { DayNumberMonotone(d, e); }
    else if Before(e, d) { DayNumberMonotone(e, d); }
  }

  /** The day of a date. */
  function DayIndex(d: Date): (n: nat)
    requires ValidDate(d)
    ensures DateAt(n) == d && n == DayNumber(d)
  {
    DateAtOfDayNumber(d);
    DayNumber(d)
  }

  /** Every day lies in the year of its date. */
  lemma YearOfDay(n: nat, d: Date)
    requires d == DateAt(n)
    ensures DaysBeforeYear(d.year) <= n < DaysBeforeYear(d.year + 1)
  {
    DayNumberOfDateAt(n);
    WithinYear(d);
  }

  lemma {:induction false} SameMonthOffsets(y: int, z: int, m: int)
    requires 1 <= m <= 12 && IsLeap(y) == IsLeap(z)
    ensures DaysBeforeMonth(y, m) == DaysBeforeMonth(z, m)
    ensures DaysInMonth(y, m) == DaysInMonth(z, m)
  {
    if m > 1 { SameMonthOffsets(y, z, m - 1); }
  }

  lemma LeapPeriod(y: int)
    ensures IsLeap(y + 400) == IsLeap(y)
    ensures DaysBeforeYear(y + 400) == DaysBeforeYear(y) + DAYS_PER_400_YEARS
  {
    var p := y - 1;
    assert (p + 400) / 4 == p / 4 + 100;
    assert (p + 400) / 100 == p / 100 + 4;
    assert (p + 400) / 400 == p / 400 + 1;
  }

  lemma ShiftedDate(d: Date)
    requires ValidDate(d)
    ensures ValidDate(d.(year := d.year + 400))
    ensures DayNumber(d.(year := d.year + 400)) == DayNumber(d) + DAYS_PER_400_YEARS
  {
    LeapPeriod(d.year);
    SameMonthOffsets(d.year, d.year + 400, d.month);
  }

  lemma WeekdayPeriod(n: nat)
    ensures Weekday(n + DAYS_PER_400_YEARS) == Weekday(n)
  {
    assert n + 146097 == n + 7 * 20871;
  }

  /** Dates and weekdays repeat after 400 years. */
  lemma FourCenturies(n: nat)
    ensures DateAt(n + DAYS_PER_400_YEARS) == DateAt(n).(year := DateAt(n).year + 400)
    ensures Weekday(n + DAYS_PER_400_YEARS) == Weekday(n)
  {
    WeekdayPeriod(n);
    DayNumberOfDateAt(n);
    ShiftedDate(DateAt(n));
    DateAtOfDayNumber(DateAt(n).(year := DateAt(n).year + 400));
  }
}
