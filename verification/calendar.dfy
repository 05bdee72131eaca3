/**
  Naive (time-zone free) pandas timestamps on the proleptic Gregorian calendar,
  their order, and the three offsets the dashboard subtracts from the latest
  booking: `Timedelta(days=7)`, `DateOffset(months=1)` and `DateOffset(years=1)`.
  The two calendar offsets keep the time of day and clamp the day of month to
  the length of the target month.
 */
module Calendar {
  import opened Ordering

  /** A pandas timestamp resolves to the nanosecond. */
  const NanosPerDay: nat := 86_400_000_000_000

  predicate IsLeapYear(year: int) {
    year % 4 == 0 && (year % 100 != 0 || year % 400 == 0)
  }

  function DaysInYear(year: int): nat {
    if IsLeapYear(year) then 366 else 365
  }

  function DaysInMonth(year: int, month: int): nat
    requires 1 <= month <= 12
  {
    if month == 2 then (if IsLeapYear(year) then 29 else 28)
    else if month == 4 || month == 6 || month == 9 || month == 11 then 30
    else 31
  }

  /** Days of `year` that lie before the first of `month`; month 13 stands for
      the first of the following year. */
  function DaysBeforeMonth(year: int, month: int): nat
    requires 1 <= month <= 13
  {
    var common := [0, 31, 59, 90, 120, 151, 181, 212, 243, 273, 304, 334, 365][month - 1];
    if month > 2 && IsLeapYear(year) then common + 1 else common
  }

  /** The cumulative month table is the running sum of the month lengths, and
      its last entry is the length of the year. */
  lemma MonthTable(year: int, month: int)
    requires 1 <= month <= 12
    ensures DaysBeforeMonth(year, month + 1) == DaysBeforeMonth(year, month) + DaysInMonth(year, month)
    ensures DaysBeforeMonth(year, 13) == DaysInYear(year)
  {
  }

  /** Days from 0000-01-01 to the first of `year` (negative before year 0). */
  function DaysBeforeYear(year: int): int
    decreases if year < 0 then -year else year
  {
    if year == 0 then 0
    else if year > 0 then DaysBeforeYear(year - 1) + DaysInYear(year - 1)
    else DaysBeforeYear(year + 1) - DaysInYear(year)
  }

  lemma YearStep(year: int)
    ensures DaysBeforeYear(year + 1) == DaysBeforeYear(year) + DaysInYear(year)
  {
  }

  lemma {:induction false} YearsAdvance(y: int, z: int)
    requires y < z
    ensures DaysBeforeYear(y) + DaysInYear(y) <= DaysBeforeYear(z)
    decreases z - y
  {
    YearStep(y);
    if y + 1 < z {
      YearsAdvance(y + 1, z);
      YearStep(y + 1);
    }
  }

  datatype Timestamp = Timestamp(year: int, month: int, day: int, nanos: int)

  /** A real calendar date with a time of day inside that day. */
  predicate Valid(t: Timestamp) {
    && 1 <= t.month <= 12
    && 1 <= t.day <= DaysInMonth(t.year, t.month)
    && 0 <= t.nanos < NanosPerDay
  }

  type Instant = t: Timestamp | Valid(t) witness Timestamp(1970, 1, 1, 0)

  /** Chronological `<` on timestamps: year, then month, day and time of day. */
  predicate Before(a: Timestamp, b: Timestamp) {
    || a.year < b.year
    || (a.year == b.year && a.month < b.month)
    || (a.year == b.year && a.month == b.month && a.day < b.day)
    || (a.year == b.year && a.month == b.month && a.day == b.day && a.nanos < b.nanos)
  }

  lemma BeforeIsStrictTotal()
    ensures StrictTotalOrder(Before)
  {
  }

  /** Day number of the calendar date of `t`, counted from 0000-01-01. */
  function Ordinal(t: Instant): int {
    DaysBeforeYear(t.year) + DaysBeforeMonth(t.year, t.month) + t.day - 1
  }

  predicate SameDate(a: Timestamp, b: Timestamp) {
    a.year == b.year && a.month == b.month && a.day == b.day
  }

  /** A later calendar date has a larger day number. */
  lemma {:induction false} OrdinalIncreasing(a: Instant, b: Instant)
    requires Before(a, b) && !SameDate(a, b)
    ensures Ordinal(a) < Ordinal(b)
  {
    if a.year < b.year {
      MonthTable(a.year, a.month);
      MonthsAdvance(a.year, a.month, 13);
      YearsAdvance(a.year, b.year);
    } else if a.month < b.month {
      MonthTable(a.year, a.month);
      MonthsAdvance(a.year, a.month + 1, b.month);
    }
  }

  lemma {:induction false} MonthsAdvance(year: int, m: int, n: int)
    requires 1 <= m <= n <= 13
    ensures DaysBeforeMonth(year, m) <= DaysBeforeMonth(year, n)
  {
  }

  /** `Before` is the order of instants on the time line: first by day number,
      then by time of day. */
  lemma BeforeIsChronological(a: Instant, b: Instant)
    ensures Before(a, b) <==> Ordinal(a) < Ordinal(b) || (Ordinal(a) == Ordinal(b) && a.nanos < b.nanos)
  {
    if !SameDate(a, b) {
      if Before(a, b) {
        OrdinalIncreasing(a, b);
      } else {
        OrdinalIncreasing(b, a);
      }
    }
  }

  /** The day number determines the calendar date. */
  lemma OrdinalInjective(a: Instant, b: Instant)
    requires Ordinal(a) == Ordinal(b)
    ensures SameDate(a, b)
  {
    if !SameDate(a, b) {
      if Before(a, b) {
        OrdinalIncreasing(a, b);
      } else {
        OrdinalIncreasing(b, a);
      }
    }
  }

  /** The same time of day on the previous calendar date. */
  function PrevDay(t: Instant): (p: Instant)
    ensures Ordinal(p) == Ordinal(t) - 1
    ensures p.nanos == t.nanos
  {
    if t.day > 1 then
      t.(day := t.day - 1)
    else if t.month > 1 then
      MonthTable(t.year, t.month - 1);
      Timestamp(t.year, t.month - 1, DaysInMonth(t.year, t.month - 1), t.nanos)
    else
      MonthTable(t.year - 1, 12);
      YearStep(t.year - 1);
      Timestamp(t.year - 1, 12, 31, t.nanos)
  }

  /** `t - Timedelta(days=n)`: exactly `n` whole days earlier. */
  function MinusDays(t: Instant, n: nat): (r: Instant)
    ensures Ordinal(r) == Ordinal(t) - n
    ensures r.nanos == t.nanos
    decreases n
  {
    if n == 0 then t else MinusDays(PrevDay(t), n - 1)
  }

  function Min(a: int, b: int): int {
    if a <= b then a else b
  }

  /** `t - DateOffset(months=n)`: step the month back, carrying into the year,
      keep the time of day, and clamp the day to the target month's length. */
  function MinusMonths(t: Instant, n: nat): (r: Instant)
    ensures r.year * 12 + r.month == t.year * 12 + t.month - n
    ensures r.day == Min(t.day, DaysInMonth(r.year, r.month))
    ensures r.nanos == t.nanos
  {
    var index := t.year * 12 + (t.month - 1) - n;
    var year := index / 12;
    var month := index % 12 + 1;
    Timestamp(year, month, Min(t.day, DaysInMonth(year, month)), t.nanos)
  }

  /** `t - DateOffset(years=n)`: same month, clamped day (29 February becomes
      28 February in a common year). */
  function MinusYears(t: Instant, n: nat): (r: Instant)
    ensures r.year == t.year - n && r.month == t.month && r.nanos == t.nanos
    ensures r.day == Min(t.day, DaysInMonth(r.year, r.month))
  {
    var year := t.year - n;
    Timestamp(year, t.month, Min(t.day, DaysInMonth(year, t.month)), t.nanos)
  }

  /** Going back `n` years is going back `12 * n` months. */
  lemma YearsAreTwelveMonths(t: Instant, n: nat)
    ensures MinusYears(t, n) == MinusMonths(t, 12 * n)
  {
  }

  /** One calendar month back lands between 28 and 31 days earlier, at the same
      time of day. */
  lemma MonthBackSpan(t: Instant)
    ensures Ordinal(t) - 31 <= Ordinal(MinusMonths(t, 1)) <= Ordinal(t) - 28
    ensures Before(MinusMonths(t, 1), t)
  {
    var r := MinusMonths(t, 1);
    if t.month > 1 {
      assert r.year == t.year && r.month == t.month - 1;
      MonthTable(t.year, t.month - 1);
    } else {
      assert r.year == t.year - 1 && r.month == 12;
      MonthTable(t.year - 1, 12);
      YearStep(t.year - 1);
    }
  }

  lemma LeapYearsApart(year: int)
    ensures !(IsLeapYear(year) && IsLeapYear(year - 1))
  {
  }

  /** One calendar year back lands 365 or 366 days earlier, at the same time
      of day. */
  lemma YearBackSpan(t: Instant)
    ensures Ordinal(t) - 366 <= Ordinal(MinusYears(t, 1)) <= Ordinal(t) - 365
    ensures Before(MinusYears(t, 1), t)
  {
    YearStep(t.year - 1);
    LeapYearsApart(t.year);
  }

  /** The calendar-aware offsets on concrete dates: a plain year step, a month
      step clamped into February in a leap and in a common year, the leap day
      clamped to 28 February, and a month step across a year end. */
  lemma OffsetExamples()
    ensures MinusYears(Timestamp(2024, 3, 10, 0), 1) == Timestamp(2023, 3, 10, 0)
    ensures MinusMonths(Timestamp(2024, 3, 31, 0), 1) == Timestamp(2024, 2, 29, 0)
    ensures MinusMonths(Timestamp(2023, 3, 31, 0), 1) == Timestamp(2023, 2, 28, 0)
    ensures MinusYears(Timestamp(2024, 2, 29, 0), 1) == Timestamp(2023, 2, 28, 0)
    ensures MinusMonths(Timestamp(2024, 1, 15, 0), 1) == Timestamp(2023, 12, 15, 0)
  {
  }

  /** Seven days back crosses a month end as the calendar says. */
  lemma WeekBackExample()
    ensures MinusDays(Timestamp(2024, 3, 3, 3_600_000_000_000), 7) == Timestamp(2024, 2, 25, 3_600_000_000_000)
  {
    var t := Timestamp(2024, 3, 3, 3_600_000_000_000);
    var r := MinusDays(t, 7);
    var e := Timestamp(2024, 2, 25, 3_600_000_000_000);
    assert Ordinal(r) == Ordinal(e) by {
      YearStep(2023);
    }
    OrdinalInjective(r, e);
  }
}
