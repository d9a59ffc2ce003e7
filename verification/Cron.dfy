/** Cron specs and the bounded search for their next minute (`automation/cron.py`).
    A time is a count of minutes since the start of year 1; `after` is in microseconds. */
module Cron {
  import opened Calendar

  const MINUTES_PER_DAY := 1440
  const MICROS_PER_MINUTE := 60_000_000
  const HORIZON := 60 * 24 * 366 * 4
  /** 31 December 9999, 23:59: the last minute a `datetime` can hold. */
  const LAST_MINUTE := 3652059 * 1440 - 1

  /** An element of a list, after `int(...)`. */
  datatype Element = Number(n: int) | NotANumber
  datatype Field = Absent | One(n: int) | Many(items: seq<Element>) | OtherType
  datatype Spec = Spec(minute: Field, hour: Field, day: Field, month: Field, weekday: Field)

  datatype Parsed = Accepted(values: set<int>) | Rejected

  datatype Fields = Fields(minutes: set<int>, hours: set<int>, days: set<int>, months: set<int>, weekdays: set<int>)
  datatype ParsedSpec = Usable(fields: Fields) | Unusable

  /** What a call ends with; the last four are exceptions. */
  datatype RunResult = Next(minute: nat) | InvalidSpec | NaiveTime | NoMatch | OutOfRange

  // ---- Fields -------------------------------------------------------------------------

  predicate Legal(v: int, lo: int, hi: int) {
    lo <= v < hi
  }

  function Range(lo: int, hi: int): set<int> {
    set v | lo <= v < hi && Legal(v, lo, hi)
  }

  predicate Fits(e: Element, lo: int, hi: int) {
    e.Number? && lo <= e.n < hi
  }

  /** The set a field denotes: everything when absent, else exactly the listed values; a
      wrong type, an empty list or one bad element rejects the field. */
  function FieldSet(f: Field, lo: int, hi: int): Parsed {
    match f
    case Absent => Accepted(Range(lo, hi))
    case OtherType => Rejected
    case One(n) => if lo <= n < hi then Accepted({n}) else Rejected
    case Many(items) =>
      if items != [] && forall e :: e in items ==> Fits(e, lo, hi)
      then Accepted(Values(items))
      else Rejected
  }

  function Values(items: seq<Element>): set<int> {
    set e | e in items && e.Number? :: e.n
  }

  lemma NonEmptyValues(items: seq<Element>, lo: int, hi: int)
    requires forall e :: e in items ==> Fits(e, lo, hi)
    ensures Values(items) == {} ==> items == []
  {
    if 0 < |items| {
      assert items[0] in items;
      assert items[0].n in Values(items);
    }
  }

  method AsSet(f: Field, lo: int, hi: int) returns (p: Parsed)
    ensures p == FieldSet(f, lo, hi)
  {
    if f.Absent? { return Accepted(Range(lo, hi)); }
    if f.OtherType? { return Rejected; }
    var items := if f.One? then [Number(f.n)] else f.items;
    if NotANumber in items {
      assert f.Many? && !Fits(NotANumber, lo, hi);
      return Rejected;
    }
    var out: set<int> := {};
    var i := 0;
    while i < |items|
      invariant 0 <= i <= |items|
      invariant forall k :: 0 <= k < i ==> Fits(items[k], lo, hi)
      invariant out == Values(items[..i])
    {
      if !Fits(items[i], lo, hi) {
        assert items[i] in items;
        return Rejected;
      }
      assert items[..i + 1] == items[..i] + [items[i]];
      out := out + {items[i].n};
      i := i + 1;
    }
    assert items[..i] == items;
    if out == {} {
      NonEmptyValues(items, lo, hi);
      return Rejected;
    }
    return Accepted(out);
  }

  /** What a field admits: everything legal when absent, else exactly what it lists; and when it
      is refused. */
  lemma FieldMeans(f: Field, lo: int, hi: int, v: int)
    ensures f.Absent? ==> FieldSet(f, lo, hi).Accepted? && (v in FieldSet(f, lo, hi).values <==> lo <= v < hi)
    ensures f.One? ==>
              && (FieldSet(f, lo, hi).Accepted? <==> lo <= f.n < hi)
              && (FieldSet(f, lo, hi).Accepted? ==> (v in FieldSet(f, lo, hi).values <==> v == f.n))
    ensures f.Many? ==>
              && (FieldSet(f, lo, hi).Accepted? <==>
                    f.items != [] && NotANumber !in f.items && forall n :: Number(n) in f.items ==> lo <= n < hi)
              && (FieldSet(f, lo, hi).Accepted? ==> (v in FieldSet(f, lo, hi).values <==> Number(v) in f.items))
    ensures f.OtherType? ==> FieldSet(f, lo, hi).Rejected?
  {
    if f.Many? {
      if Number(v) in f.items { assert v in Values(f.items); }
      forall e | e in f.items && NotANumber !in f.items && (forall n :: Number(n) in f.items ==> lo <= n < hi)
        ensures Fits(e, lo, hi)
      {
        if e.Number? { assert Number(e.n) in f.items; }
      }
      if FieldSet(f, lo, hi).Accepted? {
        assert Fits(NotANumber, lo, hi) ==> false;
        forall n | Number(n) in f.items ensures lo <= n < hi { assert Fits(Number(n), lo, hi); }
      }
    }
  }

  /** A value is admitted where its field admits it, and a spec is usable if all fields are. */
  lemma ParseMeans(s: Spec)
    ensures Parse(s).Usable? <==>
              FieldSet(s.minute, 0, 60).Accepted? && FieldSet(s.hour, 0, 24).Accepted? &&
              FieldSet(s.day, 1, 32).Accepted? && FieldSet(s.month, 1, 13).Accepted? &&
              FieldSet(s.weekday, 0, 7).Accepted?
    ensures Parse(s).Usable? ==>
              var f := Parse(s).fields;
              && FieldSet(s.minute, 0, 60) == Accepted(f.minutes) && FieldSet(s.hour, 0, 24) == Accepted(f.hours)
              && FieldSet(s.day, 1, 32) == Accepted(f.days) && FieldSet(s.month, 1, 13) == Accepted(f.months)
              && FieldSet(s.weekday, 0, 7) == Accepted(f.weekdays)
  {
  }

  function Parse(s: Spec): ParsedSpec {
    var mi, ho, da := FieldSet(s.minute, 0, 60), FieldSet(s.hour, 0, 24), FieldSet(s.day, 1, 32);
    var mo, we := FieldSet(s.month, 1, 13), FieldSet(s.weekday, 0, 7);
    if mi.Accepted? && ho.Accepted? && da.Accepted? && mo.Accepted? && we.Accepted?
    then Usable(Fields(mi.values, ho.values, da.values, mo.values, we.values))
    else Unusable
  }

  predicate WellFormed(f: Fields) {
    && f.minutes != {} && f.minutes <= Range(0, 60)
    && f.hours != {} && f.hours <= Range(0, 24)
    && f.days != {} && f.days <= Range(1, 32)
    && f.months != {} && f.months <= Range(1, 13)
    && f.weekdays != {} && f.weekdays <= Range(0, 7)
  }

  lemma AcceptedIsProper(f: Field, lo: int, hi: int)
    requires lo < hi && FieldSet(f, lo, hi).Accepted?
    ensures FieldSet(f, lo, hi).values != {} && FieldSet(f, lo, hi).values <= Range(lo, hi)
  {
    match f
    case Many(items) =>
      assert items[0] in items && items[0].n in FieldSet(f, lo, hi).values;
    case Absent => assert lo in Range(lo, hi);
    case _ =>
  }

  /** A spec that parses has five non-empty sets of legal values. */
  lemma ParsedIsWellFormed(s: Spec)
    requires Parse(s).Usable?
    ensures WellFormed(Parse(s).fields)
  {
    AcceptedIsProper(s.minute, 0, 60);
    AcceptedIsProper(s.hour, 0, 24);
    AcceptedIsProper(s.day, 1, 32);
    AcceptedIsProper(s.month, 1, 13);
    AcceptedIsProper(s.weekday, 0, 7);
  }

  // ---- The search ---------------------------------------------------------------------

  function DayOf(t: nat): nat {
    t / MINUTES_PER_DAY
  }

  predicate Matches(f: Fields, t: nat) {
    var d := DateAt(DayOf(t));
    && t % 60 in f.minutes
    && (t / 60) % 24 in f.hours
    && d.day in f.days
    && d.month in f.months
    && Weekday(DayOf(t)) in f.weekdays
  }

  ghost predicate NoMatchIn(f: Fields, lo: nat, hi: nat) {
    forall u: nat :: lo <= u < hi ==> !Matches(f, u)
  }

  /** The first minute the search looks at. */
  function FirstCandidate(after: nat): nat {
    after / MICROS_PER_MINUTE + 1
  }

  /** What the search promises about its answer. */
  ghost predicate Answers(f: Fields, after: nat, r: RunResult) {
    var c := FirstCandidate(after);
    match r
    case Next(t) => c <= t < c + HORIZON && t <= LAST_MINUTE && Matches(f, t) && NoMatchIn(f, c, t)
    case NoMatch => c + HORIZON <= LAST_MINUTE && NoMatchIn(f, c, c + HORIZON)
    case OutOfRange => c + HORIZON > LAST_MINUTE && NoMatchIn(f, c, LAST_MINUTE + 1)
    case _ => false
  }

  /** `next_run`. */
  method NextRun(s: Spec, aware: bool, after: nat) returns (r: RunResult)
    requires after < (LAST_MINUTE + 1) * MICROS_PER_MINUTE
    ensures !aware ==> r == NaiveTime
    ensures aware && Parse(s).Unusable? ==> r == InvalidSpec
    ensures aware && Parse(s).Usable? ==> Answers(Parse(s).fields, after, r)
  {
    if !aware { return NaiveTime; }
    var minutes := AsSet(s.minute, 0, 60);
    if minutes.Rejected? { return InvalidSpec; }
    var hours := AsSet(s.hour, 0, 24);
    if hours.Rejected? { return InvalidSpec; }
    var days := AsSet(s.day, 1, 32);
    if days.Rejected? { return InvalidSpec; }
    var months := AsSet(s.month, 1, 13);
    if months.Rejected? { return InvalidSpec; }
    var weekdays := AsSet(s.weekday, 0, 7);
    if weekdays.Rejected? { return InvalidSpec; }
    var f := Fields(minutes.values, hours.values, days.values, months.values, weekdays.values);
    r := Search(f, after);
  }

  method Search(f: Fields, after: nat) returns (r: RunResult)
    requires after < (LAST_MINUTE + 1) * MICROS_PER_MINUTE
    ensures Answers(f, after, r)
  {
    if after / MICROS_PER_MINUTE == LAST_MINUTE { return OutOfRange; }
    var candidate := after / MICROS_PER_MINUTE + 1;
    var k := 0;
    while k < HORIZON
      invariant 0 <= k <= HORIZON
      invariant candidate == FirstCandidate(after) + k <= LAST_MINUTE
      invariant NoMatchIn(f, FirstCandidate(after), candidate)
    {
      if Matches(f, candidate) { return Next(candidate); }
      if candidate == LAST_MINUTE { return OutOfRange; }
      candidate := candidate + 1;
      k := k + 1;
    }
    return NoMatch;
  }

  /** Exactly one answer fits, and it is a success just when a match lies in the window. */
  lemma AnswerIsDetermined(f: Fields, after: nat, r: RunResult, q: RunResult)
    requires Answers(f, after, r) && Answers(f, after, q)
    ensures r == q
    ensures r.Next? <==> exists t: nat :: FirstCandidate(after) <= t < FirstCandidate(after) + HORIZON &&
                                          t <= LAST_MINUTE && Matches(f, t)
  {
  }

  /** The answer is the least matching minute strictly after `after`: a start that is itself
      a match is passed over. */
  lemma LeastStrictlyAfter(f: Fields, after: nat, t: nat, u: nat)
    requires Answers(f, after, Next(t))
    requires Matches(f, u) && u * MICROS_PER_MINUTE > after
    ensures after < t * MICROS_PER_MINUTE && t <= u
  {
  }

  /** The documented promise, a least match at or after `after`, is met exactly when `after`
      is not itself a whole matching minute. */
  lemma LeastAtOrAfterExactly(f: Fields, after: nat, t: nat)
    requires Answers(f, after, Next(t))
    ensures (forall u: nat :: Matches(f, u) && InstantOf(u) >= after ==> t <= u) <==>
            !(after % MICROS_PER_MINUTE == 0 && Matches(f, after / MICROS_PER_MINUTE))
  {
    var u := after / MICROS_PER_MINUTE;
    if after % MICROS_PER_MINUTE == 0 && Matches(f, u) {
      assert InstantOf(u) >= after && u < t;
    } else {
      forall v: nat | Matches(f, v) && InstantOf(v) >= after ensures t <= v {
        if InstantOf(v) > after { LeastStrictlyAfter(f, after, t, v); }
      }
    }
  }

  /** Asked at midnight, a spec for every midnight answers with the next one. */
  lemma MidnightPassesOverItself(f: Fields, r: RunResult)
    requires f == Fields({0}, {0}, Range(1, 32), Range(1, 13), Range(0, 7))
    requires Answers(f, 0, r)
    ensures Matches(f, 0) && r == Next(1440)
  {
    assert DateAt(0) == Date(1, 1, 1);
    var d := DateAt(1);
    assert Matches(f, 1440) by { assert DayOf(1440) == 1; }
    AnswerIsDetermined(f, 0, r, r);
    RejoinMinute(r.minute);
  }

  // ---- Iterating ----------------------------------------------------------------------

  function InstantOf(t: nat): nat {
    t * MICROS_PER_MINUTE
  }

  /** The instant the next search starts from: that of the last minute found. */
  function Resume(after: nat, ms: seq<nat>): nat {
    if ms == [] then after else InstantOf(ms[|ms| - 1])
  }

  /** Each entry is the answer for the instant of the entry before it. */
  ghost predicate Iterated(f: Fields, after: nat, ms: seq<nat>) {
    ms == [] ||
    (var init := ms[..|ms| - 1];
     Iterated(f, after, init) && Answers(f, Resume(after, init), Next(ms[|ms| - 1])))
  }

  /** `ms` lists the matches from `c` up to its last entry: all of them, in order. */
  ghost predicate Listing(f: Fields, c: nat, ms: seq<nat>) {
    && (forall i, j :: 0 <= i < j < |ms| ==> ms[i] < ms[j])
    && (forall i :: 0 <= i < |ms| ==> c <= ms[i] && Matches(f, ms[i]))
    && (ms != [] ==> forall t: nat :: c <= t <= ms[|ms| - 1] && Matches(f, t) ==> t in ms)
  }

  lemma ListingAppend(f: Fields, after: nat, ms: seq<nat>, t: nat)
    requires Listing(f, FirstCandidate(after), ms)
    requires Answers(f, Resume(after, ms), Next(t))
    ensures Listing(f, FirstCandidate(after), ms + [t])
  {
    AnswerIsNext(f, Resume(after, ms), t);
    if ms != [] { InstantIsWhole(ms[|ms| - 1]); }
    hide Answers, Matches, FirstCandidate, InstantOf;
    var ns := ms + [t];
    forall u: nat | FirstCandidate(after) <= u <= t && Matches(f, u) ensures u in ns {
      if u == t { assert ns[|ms|] == t; }
      else { assert u in ms; }
    }
  }

  /** Iterating the search lists every matching minute up to the last one found, in order. */
  lemma {:induction false} IteratingEnumerates(f: Fields, after: nat, ms: seq<nat>)
    requires Iterated(f, after, ms)
    ensures Listing(f, FirstCandidate(after), ms)
  {
    if ms != [] {
      var init, t := ms[..|ms| - 1], ms[|ms| - 1];
      IteratingEnumerates(f, after, init);
      ListingAppend(f, after, init, t);
      assert ms == init + [t];
    }
  }

  lemma AnswerIsNext(f: Fields, after: nat, t: nat)
    requires Answers(f, after, Next(t))
    ensures FirstCandidate(after) <= t && Matches(f, t) && NoMatchIn(f, FirstCandidate(after), t)
  {
  }

  lemma InstantIsWhole(t: nat)
    ensures FirstCandidate(InstantOf(t)) == t + 1
  {
  }

  // ---- When the search succeeds -------------------------------------------------------

  const ANY_WEEKDAY: set<int> := Range(0, 7)

  /** Some admitted day and month fall in every year. */
  ghost predicate HasYearlyDate(f: Fields) {
    exists m, d :: m in f.months && d in f.days && 1 <= m <= 12 && 1 <= d <= DaysInMonth(1, m)
  }

  predicate AdmitsLeapDay(f: Fields) {
    2 in f.months && 29 in f.days
  }

  /** Minute `m` of hour `h` on day `n`. */
  function MinuteOn(n: nat, h: int, m: int): nat
    requires 0 <= h < 24 && 0 <= m < 60
  {
    n * MINUTES_PER_DAY + h * 60 + m
  }

  lemma SplitMinute(n: nat, h: int, m: int)
    requires 0 <= h < 24 && 0 <= m < 60
    ensures var t := MinuteOn(n, h, m); DayOf(t) == n && t % 60 == m && (t / 60) % 24 == h
  {
    var t := MinuteOn(n, h, m);
    assert t / 60 == n * 24 + h;
  }

  lemma RejoinMinute(t: nat)
    ensures t == MinuteOn(DayOf(t), (t / 60) % 24, t % 60)
  {
    assert t / 1440 == (t / 60) / 24;
  }

  /** What matching means on the calendar: every field admits its part of the date and time. */
  lemma MatchesMeans(f: Fields, d: Date, h: int, m: int)
    requires ValidDate(d) && 0 <= h < 24 && 0 <= m < 60
    ensures Matches(f, MinuteOn(DayIndex(d), h, m)) <==>
            m in f.minutes && h in f.hours && d.day in f.days && d.month in f.months &&
            Weekday(DayIndex(d)) in f.weekdays
  {
    hide DateAt, DayIndex, Weekday;
    var n := DayIndex(d);
    SplitMinute(n, h, m);
    hide MinuteOn;
  }

  lemma WeekdaysFollow(n: nat)
    ensures Weekday(n + 1) == if Weekday(n) == 6 then 0 else Weekday(n) + 1
  {
  }

  lemma NewYear2024()
    ensures DaysBeforeYear(2024) == 738885
  {
  }

  lemma FirstOfJanuary(y: int, n: nat)
    requires y >= 1 && n == DaysBeforeYear(y)
    ensures DateAt(n) == Date(y, 1, 1)
  {
    hide DaysBeforeYear, DateAt;
    DateAtOfDayNumber(Date(y, 1, 1));
  }

  /** 1 January 2024 was a Monday. */
  lemma MondayIn2024(n: nat)
    requires n == 738885
    ensures DateAt(n) == Date(2024, 1, 1) && Weekday(n) == 0
  {
    SevenTimes(n, 105555);
    NewYear2024();
    hide *;
    FirstOfJanuary(2024, n);
  }

  /** A day with admitted date and weekday has a matching minute. */
  lemma DayHasMinute(f: Fields, n: nat) returns (t: nat)
    requires WellFormed(f) && DateAt(n).day in f.days && DateAt(n).month in f.months && Weekday(n) in f.weekdays
    ensures Matches(f, t) && DayOf(t) == n
  {
    var h :| h in f.hours;
    var m :| m in f.minutes;
    t := MinuteOn(n, h, m);
    SplitMinute(n, h, m);
  }

  /** The year the search starts in. */
  function StartYear(after: nat): int {
    DateAt(DayOf(FirstCandidate(after))).year
  }

  lemma DayInNextYear(n: nat, d: Date)
    requires ValidDate(d) && d.year == DateAt(n).year + 1
    ensures n < DayNumber(d) < n + 732
  {
    hide DaysBeforeYear, DayNumber, DateAt;
    DayNumberOfDateAt(n);
    WithinYear(DateAt(n));
    WithinYear(d);
    YearLength(DateAt(n).year);
    YearLength(d.year);
  }

  lemma LastDay(d: Date)
    requires ValidDate(d) && d.year <= 9999
    ensures DayNumber(d) < 3652059
  {
    WithinYear(d);
    YearsMonotone(d.year + 1, 10000);
  }

  /** A later day inside the horizon with admitted date is enough. */
  lemma DayIsFound(f: Fields, after: nat, r: RunResult, n: nat)
    requires WellFormed(f) && Answers(f, after, r)
    requires DateAt(n).day in f.days && DateAt(n).month in f.months && Weekday(n) in f.weekdays
    requires DayOf(FirstCandidate(after)) < n < DayOf(FirstCandidate(after)) + 1463 && n < 3652059
    ensures r.Next?
  {
    var t := DayHasMinute(f, n);
  }

  lemma NextYearIsFound(f: Fields, after: nat, r: RunResult, d: Date)
    requires WellFormed(f) && Answers(f, after, r)
    requires ValidDate(d) && d.year == StartYear(after) + 1 <= 9999
    requires d.day in f.days && d.month in f.months
    requires DayNumber(d) >= 0 ==> Weekday(DayNumber(d)) in f.weekdays
    ensures r.Next?
  {
    DayInNextYear(DayOf(FirstCandidate(after)), d);
    LastDay(d);
    DateAtOfDayNumber(d);
    DayIsFound(f, after, r, DayNumber(d));
  }

  /** Without a weekday restriction, a date that occurs every year is always found. */
  lemma YearlyDateIsFound(f: Fields, after: nat, r: RunResult)
    requires WellFormed(f) && f.weekdays == ANY_WEEKDAY
    requires HasYearlyDate(f) && StartYear(after) <= 9998
    requires Answers(f, after, r)
    ensures r.Next?
  {
    var m, d :| m in f.months && d in f.days && 1 <= m <= 12 && 1 <= d <= DaysInMonth(1, m);
    NextYearIsFound(f, after, r, Date(StartYear(after) + 1, m, d));
  }

  lemma DaysToWeekday(n: nat, w: int) returns (k: nat)
    requires 0 <= w < 7
    ensures k < 7 && Weekday(n + k) == w
  {
    k := (w - n) % 7;
  }

  /** Every weekday occurs among the first seven days of a month. */
  lemma WeekdayInMonth(y: int, m: int, w: int) returns (d: Date)
    requires y >= 1 && 1 <= m <= 12 && 0 <= w < 7
    ensures ValidDate(d) && d.year == y && d.month == m && d.day <= 7
    ensures DayNumber(d) >= 0 && Weekday(DayNumber(d)) == w
  {
    hide DaysBeforeYear, DaysBeforeMonth, DateAt, IsLeap;
    DateAtOfDayNumber(Date(y, m, 1));
    var k := DaysToWeekday(DayNumber(Date(y, m, 1)), w);
    d := Date(y, m, 1 + k);
    assert DayNumber(d) == DayNumber(Date(y, m, 1)) + k;
  }

  /** With every day of the month admitted, any weekday restriction is always met. */
  lemma WeekdayIsFound(f: Fields, after: nat, r: RunResult)
    requires WellFormed(f) && f.days == Range(1, 32)
    requires StartYear(after) <= 9998
    requires Answers(f, after, r)
    ensures r.Next?
  {
    hide Answers, Weekday, DayNumber, DateAt;
    var m :| m in f.months;
    var w :| w in f.weekdays;
    var d := WeekdayInMonth(StartYear(after) + 1, m, w);
    NextYearIsFound(f, after, r, d);
  }

  lemma OnlyLeapDay(f: Fields, t: nat)
    requires !HasYearlyDate(f) && Matches(f, t)
    ensures AdmitsLeapDay(f)
    ensures var d := DateAt(DayOf(t)); d.month == 2 && d.day == 29 && IsLeap(d.year)
  {
    var d := DateAt(DayOf(t));
    assert d.day > DaysInMonth(1, d.month);
  }

  /** A spec with no possible date is never answered. */
  lemma ImpossibleDateRaises(f: Fields, after: nat, r: RunResult)
    requires !HasYearlyDate(f) && !AdmitsLeapDay(f)
    requires Answers(f, after, r)
    ensures !r.Next?
    ensures forall t: nat :: !Matches(f, t)
  {
    forall t: nat ensures !Matches(f, t) {
      if Matches(f, t) { OnlyLeapDay(f, t); }
    }
  }

  /** Which specs have any match at all: a weekday restriction never rules a date out for
      good. */
  lemma SatisfiableExactly(f: Fields)
    requires WellFormed(f)
    ensures (exists t: nat :: t <= LAST_MINUTE && Matches(f, t)) <==> HasYearlyDate(f) || AdmitsLeapDay(f)
    ensures (exists t: nat :: Matches(f, t)) <==> HasYearlyDate(f) || AdmitsLeapDay(f)
  {
    hide Weekday, DayNumber, DateAt, IsLeap, Matches;
    var w :| w in f.weekdays;
    if HasYearlyDate(f) {
      var m, d :| m in f.months && d in f.days && 1 <= m <= 12 && 1 <= d <= DaysInMonth(1, m);
      var y := YearWithWeekday(m, d, w);
      DateMatches(f, Date(y, m, d));
    } else if AdmitsLeapDay(f) {
      var y := LeapYearWithWeekday(w);
      DateMatches(f, Date(y, 2, 29));
    } else if t: nat :| Matches(f, t) {
      OnlyLeapDay(f, t);
    }
  }

  /** What giving up means: the spec is impossible, as the comment has it, exactly when it
      admits neither a yearly date nor 29 February. */
  lemma GivingUpMeansImpossibleExactly(f: Fields, after: nat, r: RunResult)
    requires WellFormed(f) && Answers(f, after, r) && !r.Next?
    ensures (forall t: nat :: !Matches(f, t)) <==> !HasYearlyDate(f) && !AdmitsLeapDay(f)
    ensures HasYearlyDate(f) || AdmitsLeapDay(f) ==>
              exists t: nat :: t >= FirstCandidate(after) && Matches(f, t)
  {
    SatisfiableExactly(f);
    if t: nat :| Matches(f, t) { MatchInEveryWindow(f, t, FirstCandidate(after)); }
  }

  lemma DateMatches(f: Fields, d: Date)
    requires WellFormed(f) && ValidDate(d) && d.year <= 9999 && d.day in f.days && d.month in f.months
    requires DayNumber(d) >= 0 ==> Weekday(DayNumber(d)) in f.weekdays
    ensures exists t: nat :: t <= LAST_MINUTE && Matches(f, t)
  {
    DateAtOfDayNumber(d);
    LastDay(d);
    var t := DayHasMinute(f, DayNumber(d));
  }

  lemma LeapShift(y: int, m: int)
    requires 1 <= m <= 12
    ensures DaysBeforeMonth(y, m) == DaysBeforeMonth(1, m) + if m > 2 && IsLeap(y) then 1 else 0
  {
    MonthOffsets(y);
    MonthOffsets(1);
  }

  /** How a date's weekday moves from year to year: by the days before the year, and past
      February by the leap day. */
  function YearShift(y: int, m: int): int {
    DaysBeforeYear(y) + if m > 2 && IsLeap(y) then 1 else 0
  }

  lemma YearWithShift(m: int, k: int) returns (y: int)
    requires 0 <= k < 7
    ensures 1 <= y <= 10 && YearShift(y, m) >= 0 && YearShift(y, m) % 7 == k
  {
    if m > 2 { return [1, 2, 3, 9, 4, 5, 6][k]; }
    return [1, 2, 3, 4, 10, 5, 6][k];
  }

  /** Every yearly date falls on every weekday within the first ten years. */
  lemma YearWithWeekday(m: int, d: int, w: int) returns (y: int)
    requires 1 <= m <= 12 && 1 <= d <= DaysInMonth(1, m) && 0 <= w < 7
    ensures 1 <= y <= 10 && ValidDate(Date(y, m, d))
    ensures DayNumber(Date(y, m, d)) >= 0 && Weekday(DayNumber(Date(y, m, d))) == w
  {
    hide DaysBeforeYear, DaysBeforeMonth, DateAt;
    var base := DaysBeforeMonth(1, m) + d - 1;
    y := YearWithShift(m, (w - base) % 7);
    LeapShift(y, m);
    assert DayNumber(Date(y, m, d)) == YearShift(y, m) + base;
    hide YearShift, IsLeap;
    DateAtOfDayNumber(Date(y, m, d));
  }

  lemma LeapYearWithShift(w: int) returns (y: int)
    requires 0 <= w < 7
    ensures 4 <= y <= 28 && IsLeap(y) && (DaysBeforeYear(y) + 59) % 7 == w
  {
    return [16, 28, 12, 24, 8, 20, 4][w];
  }

  /** 29 February falls on every weekday within the first 28 years. */
  lemma LeapYearWithWeekday(w: int) returns (y: int)
    requires 0 <= w < 7
    ensures 4 <= y <= 28 && ValidDate(Date(y, 2, 29))
    ensures DayNumber(Date(y, 2, 29)) >= 0 && Weekday(DayNumber(Date(y, 2, 29))) == w
  {
    y := LeapYearWithShift(w);
    hide IsLeap, DaysBeforeYear;
    MonthOffsets(y);
    DateAtOfDayNumber(Date(y, 2, 29));
  }

  function NextMultipleOf4(y: int): int {
    4 * (y / 4) + 4
  }

  /** The day of 29 February of year `y`. */
  function LeapDayNumber(y: int): (n: nat)
    requires y >= 1 && IsLeap(y)
    ensures DateAt(n) == Date(y, 2, 29)
    ensures n == DaysBeforeYear(y) + 59
  {
    MonthOffsets(y);
    DayIndex(Date(y, 2, 29))
  }

  /** `y` is a leap year whose 29 February has an admitted weekday and a matching minute inside
      the window. */
  ghost predicate LeapDayInWindow(f: Fields, after: nat, y: int) {
    && 1 <= y <= 9999 && IsLeap(y) && Weekday(LeapDayNumber(y)) in f.weekdays
    && exists h, m :: h in f.hours && m in f.minutes && 0 <= h < 24 && 0 <= m < 60 &&
         FirstCandidate(after) <= MinuteOn(LeapDayNumber(y), h, m) < FirstCandidate(after) + HORIZON
  }

  /** A spec that only 29 February can meet is answered exactly when that day of the start
      year, or of the next year divisible by four, is a leap day of an admitted weekday inside
      the window. */
  lemma LeapDayOnlyExactly(f: Fields, after: nat, r: RunResult)
    requires WellFormed(f) && !HasYearlyDate(f) && AdmitsLeapDay(f)
    requires Answers(f, after, r)
    ensures r.Next? <==> LeapDayInWindow(f, after, StartYear(after)) ||
                         LeapDayInWindow(f, after, NextMultipleOf4(StartYear(after)))
  {
    if r.Next? {
      LeapDayAnswer(f, after, r.minute);
    }
    forall y | LeapDayInWindow(f, after, y) ensures r.Next? {
      var h, m :| h in f.hours && m in f.minutes && 0 <= h < 24 && 0 <= m < 60 &&
        FirstCandidate(after) <= MinuteOn(LeapDayNumber(y), h, m) < FirstCandidate(after) + HORIZON;
      var n := LeapDayNumber(y);
      DayNumberOfDateAt(n);
      LastDay(Date(y, 2, 29));
      SplitMinute(n, h, m);
      assert Matches(f, MinuteOn(n, h, m));
    }
  }

  /** A matching day of a leap-day spec is that day of its year. */
  lemma LeapDayOf(f: Fields, t: nat)
    requires !HasYearlyDate(f) && Matches(f, t)
    ensures var y := DateAt(DayOf(t)).year; y >= 1 && IsLeap(y) && DayOf(t) == LeapDayNumber(y)
  {
    OnlyLeapDay(f, t);
    var y := DateAt(DayOf(t)).year;
    DayNumberOfDateAt(DayOf(t));
    DayNumberOfDateAt(LeapDayNumber(y));
  }

  lemma LeapDayAnswer(f: Fields, after: nat, t: nat)
    requires WellFormed(f) && !HasYearlyDate(f)
    requires Answers(f, after, Next(t))
    ensures var y := DateAt(DayOf(t)).year;
            LeapDayInWindow(f, after, y) && (y == StartYear(after) || y == NextMultipleOf4(StartYear(after)))
  {
    LeapDayOf(f, t);
    RejoinMinute(t);
    NotAfterLastYear(t);
    YearOfDay(DayOf(FirstCandidate(after)), DateAt(DayOf(FirstCandidate(after))));
    NextLeapDayAtMost(StartYear(after), DateAt(DayOf(t)).year, DayOf(FirstCandidate(after)), DayOf(t));
  }

  lemma NotAfterLastYear(t: nat)
    requires t <= LAST_MINUTE
    ensures DateAt(DayOf(t)).year <= 9999
  {
    var y := DateAt(DayOf(t)).year;
    YearOfDay(DayOf(t), DateAt(DayOf(t)));
    if y >= 10000 { YearsMonotone(10000, y); }
  }

  /** No leap day past the next multiple of four is within the horizon. */
  lemma NextLeapDayAtMost(y: int, z: int, n: int, l: int)
    requires DaysBeforeYear(y) <= n < DaysBeforeYear(y + 1)
    requires IsLeap(z) && l == DaysBeforeYear(z) + 59
    requires n <= l < n + 1465
    ensures z == y || z == NextMultipleOf4(y)
  {
    Multiples(y, z);
    hide *;
    if z < y {
      YearsMonotone(z, y);
    } else if z > NextMultipleOf4(y) {
      YearsMonotone(y + 1, NextMultipleOf4(y));
      YearsMonotone(NextMultipleOf4(y), z);
    }
  }

  lemma Multiples(y: int, z: int)
    requires IsLeap(z)
    ensures y < NextMultipleOf4(y)
    ensures z <= y || z == NextMultipleOf4(y) || z >= NextMultipleOf4(y) + 4
  {
  }

  /** From a day of year `y` the leap day of the next multiple of four is near. */
  lemma NextLeapDayIsNear(y: int, n: int)
    requires DaysBeforeYear(y) <= n < DaysBeforeYear(y + 1)
    requires y % 4 == 0 ==> IsLeap(y) && n >= DaysBeforeYear(y) + 59
    ensures n < DaysBeforeYear(NextMultipleOf4(y)) + 59 <= n + 1461
  {
    var z := NextMultipleOf4(y);
    YearsMonotone(y + 1, z);
    var leaps := if y % 4 == 0 then 1 else 0;
    YearLength(y);
    PlainYears(y + 1, z);
    assert DaysBeforeYear(z) == DaysBeforeYear(y) + 365 * (z - y) + leaps;
  }

  lemma NotAMultiple(a: int, c: int)
    requires a <= c < NextMultipleOf4(a - 1)
    ensures c % 4 != 0
  {
  }

  /** Years strictly between multiples of four have 365 days. */
  lemma {:induction false} PlainYears(a: int, b: int)
    requires a <= b <= NextMultipleOf4(a - 1)
    ensures DaysBeforeYear(b) == DaysBeforeYear(a) + 365 * (b - a)
    decreases b - a
  {
    if a < b {
      PlainYears(a, b - 1);
      YearLength(b - 1);
      NotAMultiple(a, b - 1);
    }
  }

  /** The year of the first 29 February from day `n` on, if it is not skipped. */
  function ComingLeapYear(n: nat): int {
    var y := DateAt(n).year;
    if y % 4 == 0 && n < DaysBeforeYear(y) + 59 then y else NextMultipleOf4(y)
  }

  /** Away from a skipped leap year, a 29 February spec is answered if the coming leap day has
      an admitted weekday; so it always is without a weekday restriction. */
  lemma LeapDayFoundAwayFromCentury(f: Fields, after: nat, r: RunResult, z: int)
    requires WellFormed(f) && AdmitsLeapDay(f)
    requires Answers(f, after, r)
    requires z == ComingLeapYear(DayOf(FirstCandidate(after))) <= 9999
    requires StartYear(after) % 4 == 0 ==> IsLeap(StartYear(after))
    requires IsLeap(z)
    requires z >= 1 ==> Weekday(LeapDayNumber(z)) in f.weekdays
    ensures r.Next?
  {
    hide Answers, IsLeap, DaysBeforeYear, ComingLeapYear;
    var n := DayOf(FirstCandidate(after));
    ComingLeapDayIsNear(n, z);
    DayNumberOfDateAt(LeapDayNumber(z));
    LastDay(Date(z, 2, 29));
    DayIsFound(f, after, r, LeapDayNumber(z));
  }

  lemma ComingLeapDayIsNear(n: nat, z: int)
    requires z == ComingLeapYear(n)
    requires DateAt(n).year % 4 == 0 ==> IsLeap(DateAt(n).year)
    ensures z >= 1 && n < DaysBeforeYear(z) + 59 <= n + 1461
  {
    hide DaysBeforeYear, IsLeap, DateAt;
    var y := DateAt(n).year;
    YearOfDay(n, DateAt(n));
    if z == NextMultipleOf4(y) { NextLeapDayIsNear(y, n); }
  }

  /** The comment that no match in four years means no match at all is wrong: from March
      2096 the search for 29 February gives up, and 29 February 2104 matches. */
  lemma GivesUpBefore2104(f: Fields, n: nat, m: nat, r: RunResult)
    requires f == Fields({0}, {0}, {29}, {2}, ANY_WEEKDAY)
    requires n == 765243 && m == 768163
    requires Answers(f, InstantOf(MinuteOn(n, 0, 0)), r)
    ensures r == NoMatch
    ensures DateAt(n) == Date(2096, 3, 1) && DateAt(m) == Date(2104, 2, 29)
    ensures Matches(f, MinuteOn(m, 0, 0))
  {
    InstantIsWhole(MinuteOn(n, 0, 0));
    if r.Next? { LeapDayMinute(f, r.minute); }
    KnownDates(Date(2096, 3, 1), n, Date(2104, 2, 29), m);
    MatchesAtMidnight(f, m);
  }

  lemma KnownDates(d: Date, n: nat, e: Date, m: nat)
    requires ValidDate(d) && ValidDate(e)
    requires n == DaysBeforeYear(d.year) + DaysBeforeMonth(d.year, d.month) + d.day - 1
    requires m == DaysBeforeYear(e.year) + DaysBeforeMonth(e.year, e.month) + e.day - 1
    ensures DateAt(n) == d && DateAt(m) == e
  {
    DateAtOfDayNumber(d);
    DateAtOfDayNumber(e);
  }

  lemma MatchesAtMidnight(f: Fields, n: nat)
    requires 0 in f.minutes && 0 in f.hours
    requires DateAt(n).day in f.days && DateAt(n).month in f.months && Weekday(n) in f.weekdays
    ensures Matches(f, MinuteOn(n, 0, 0))
  {
    SplitMinute(n, 0, 0);
  }

  lemma LeapDayMinute(f: Fields, u: nat)
    requires !HasYearlyDate(f) && Matches(f, u)
    ensures !(765243 * 1440 < u < 765243 * 1440 + 1 + HORIZON)
  {
    LeapDayOf(f, u);
    NoLeapDayUntil2104(DateAt(DayOf(u)).year, DayOf(u));
  }

  lemma NoLeapDayUntil2104(y: int, n: nat)
    requires IsLeap(y) && n == DaysBeforeYear(y) + 59
    ensures !(765243 <= n < 765243 + 1465)
  {
    if y <= 2096 { YearsMonotone(y, 2096); }
    else {
      assert !IsLeap(2100);
      YearsMonotone(2104, y);
    }
  }

  /** With a weekday restriction it is wrong for ordinary dates too: from 1 January 2035 the
      search for a Monday 1 January gives up, and 1 January 2046 matches. */
  lemma GivesUpBefore2046(f: Fields, n: nat, m: nat, r: RunResult)
    requires f == Fields({0}, {0}, {1}, {1}, {0})
    requires n == 742903 && m == 746921
    requires Answers(f, InstantOf(MinuteOn(n, 0, 0)), r)
    ensures r == NoMatch
    ensures DateAt(n) == Date(2035, 1, 1) && DateAt(m) == Date(2046, 1, 1)
    ensures Matches(f, MinuteOn(m, 0, 0))
  {
    InstantIsWhole(MinuteOn(n, 0, 0));
    if r.Next? { MondayNewYearMinute(f, r.minute); }
    KnownDates(Date(2035, 1, 1), n, Date(2046, 1, 1), m);
    SevenTimes(m, 106703);
    MatchesAtMidnight(f, m);
  }

  lemma SevenTimes(m: nat, k: nat)
    requires m == 7 * k
    ensures Weekday(m) == 0
  {
  }

  lemma MondayNewYearMinute(f: Fields, u: nat)
    requires f == Fields({0}, {0}, {1}, {1}, {0}) && Matches(f, u)
    ensures !(742903 * 1440 < u < 742903 * 1440 + 1 + HORIZON)
  {
    var n := DayOf(u);
    DayNumberOfDateAt(n);
    RejoinMinute(u);
    assert u == n * 1440 && n == DaysBeforeYear(DateAt(n).year);
    NoMondayNewYear(DateAt(n).year, n);
  }

  lemma NoMondayNewYear(y: int, n: nat)
    requires n == DaysBeforeYear(y) && Weekday(n) == 0
    ensures !(742903 < n < 742903 + 1465)
  {
    NewYears();
    if y <= 2035 { YearsMonotone(y, 2035); }
    else if y >= 2040 { YearsMonotone(2040, y); }
  }

  lemma NewYears()
    ensures DaysBeforeYear(2035) == 742903 && DaysBeforeYear(2036) == 743268 && DaysBeforeYear(2037) == 743634
    ensures DaysBeforeYear(2038) == 743999 && DaysBeforeYear(2039) == 744364 && DaysBeforeYear(2040) == 744729
  {
  }

  const PERIOD := DAYS_PER_400_YEARS * MINUTES_PER_DAY

  /** Matches repeat after 400 years. */
  lemma MatchesRepeat(f: Fields, t: nat)
    ensures Matches(f, t + PERIOD) <==> Matches(f, t)
  {
    ShiftDays(t);
    FourCenturies(DayOf(t));
  }

  lemma {:induction false} MatchesRepeatOften(f: Fields, t: nat, k: nat)
    ensures Matches(f, t + k * PERIOD) <==> Matches(f, t)
  {
    if k > 0 {
      MatchesRepeatOften(f, t, k - 1);
      MatchesRepeat(f, t + (k - 1) * PERIOD);
      assert t + (k - 1) * PERIOD + PERIOD == t + k * PERIOD;
    }
  }

  /** A spec that matches at all matches in every window of 400 years. */
  lemma MatchInEveryWindow(f: Fields, t: nat, c: nat)
    requires Matches(f, t)
    ensures exists u: nat :: c <= u < c + PERIOD && Matches(f, u)
  {
    hide Matches;
    var u := c + (t - c) % PERIOD;
    if t <= u {
      Multiple(t, u, c);
      MatchesRepeatOften(f, t, (u - t) / PERIOD);
    } else {
      Multiple(u, t, c);
      MatchesRepeatOften(f, u, (t - u) / PERIOD);
    }
  }

  lemma Multiple(a: nat, b: nat, c: nat)
    requires a <= b && (a == c + (b - c) % PERIOD || b == c + (a - c) % PERIOD)
    ensures b == a + (b - a) / PERIOD * PERIOD
  {
    if a == c + (b - c) % PERIOD {
      assert b - a == (b - c) / PERIOD * PERIOD;
    } else {
      assert b - a == -((a - c) / PERIOD) * PERIOD;
    }
  }

  lemma ShiftDays(t: nat)
    ensures var u := t + PERIOD;
            DayOf(u) == DayOf(t) + DAYS_PER_400_YEARS && u % 60 == t % 60 && (u / 60) % 24 == (t / 60) % 24
  {
    var u := t + 210379680;
    assert u / 60 == t / 60 + 3506328;
  }
}
