/**
  The data side of the `update_dashboard` callback: resolve the period token
  to a cutoff anchored at the latest booking in the table, keep the rows
  booked at or after it, and derive the three group-by tables and the scatter
  rows the four charts are drawn from.
 */
module Dashboard {
  import opened Wrappers
  import opened Ordering
  import opened Calendar
  import opened Grouping
  import opened Bookings

  /** The three options of the time-period dropdown. */
  datatype Period = LastWeek | LastMonth | LastYear

  /** The callback assigns no start date for any other dropdown value, nor for
      a cleared dropdown (`None`), and then fails on the unbound name. */
  datatype DashboardError = UnknownPeriod(value: Option<string>)

  /** The value each dropdown option sends to the callback. */
  function Token(p: Period): string {
    match p
    case LastWeek => "7D"
    case LastMonth => "1M"
    case LastYear => "1Y"
  }

  /** The if/elif chain on the dropdown value; `None` is a cleared dropdown. */
  function ParsePeriod(value: Option<string>): (r: Result<Period, DashboardError>)
    ensures r.Ok? ==> value == Some(Token(r.value))
    ensures r.Err? ==> r.error == UnknownPeriod(value) && forall p: Period :: value != Some(Token(p))
  {
    if value == Some("7D") then Ok(LastWeek)
    else if value == Some("1M") then Ok(LastMonth)
    else if value == Some("1Y") then Ok(LastYear)
    else Err(UnknownPeriod(value))
  }

  /** Every dropdown option is recognised as itself. */
  lemma TokenRoundTrip(p: Period)
    ensures ParsePeriod(Some(Token(p))) == Ok(p)
  {
  }

  /** `data['Booking Date'].max()`; `None` (NaT) for an empty table. */
  function LatestBooking(table: Table): (m: Option<Instant>)
    ensures m.None? <==> |table| == 0
    ensures m.Some? ==> exists i :: 0 <= i < |table| && table[i].booked == m.value
    ensures m.Some? ==> forall i :: 0 <= i < |table| ==> !Before(m.value, table[i].booked)
  {
    if |table| == 0 then None
    else
      match LatestBooking(table[1..])
      case None => Some(table[0].booked)
      case Some(rest) =>
        if Before(table[0].booked, rest) then
          assert table[1..][0] == table[1];
          Some(rest)
        else Some(table[0].booked)
  }

  /** The start date: the latest booking moved back by the period. It is
      strictly earlier than the latest booking, at the same time of day. */
  function Cutoff(p: Period, latest: Instant): (c: Instant)
    ensures Before(c, latest)
    ensures c.nanos == latest.nanos
    ensures p == LastWeek ==> Ordinal(c) == Ordinal(latest) - 7
    ensures p == LastMonth ==> Ordinal(latest) - 31 <= Ordinal(c) <= Ordinal(latest) - 28
    ensures p == LastMonth ==> c.year * 12 + c.month == latest.year * 12 + latest.month - 1
    ensures p == LastYear ==> Ordinal(latest) - 366 <= Ordinal(c) <= Ordinal(latest) - 365
    ensures p == LastYear ==> c.year == latest.year - 1 && c.month == latest.month
    ensures p != LastWeek ==> c.day == Min(latest.day, DaysInMonth(c.year, c.month))
  {
    match p
    case LastWeek =>
      var c := MinusDays(latest, 7);
      BeforeIsChronological(c, latest);
      c
    case LastMonth =>
      MonthBackSpan(latest);
      MinusMonths(latest, 1)
    case LastYear =>
      YearBackSpan(latest);
      MinusYears(latest, 1)
  }

  /** `xs` is `ys` with some rows dropped and the rest in their order. */
  ghost predicate IsSubsequence<T>(xs: seq<T>, ys: seq<T>)
    decreases |ys|
  {
    if |xs| == 0 then true
    else if |ys| == 0 then false
    else (xs[0] == ys[0] && IsSubsequence(xs[1..], ys[1..])) || IsSubsequence(xs, ys[1..])
  }

  /** `data[data['Booking Date'] >= start_date]`: exactly the rows booked at
      or after the cutoff (the bound is inclusive and there is no upper
      bound), each as often as in the table, in table order. */
  function BookedSince(table: Table, cutoff: Instant): (rows: Table)
    ensures forall b :: multiset(rows)[b] == if b.booked == cutoff || Before(cutoff, b.booked) then multiset(table)[b] else 0
    ensures IsSubsequence(rows, table)
  {
    if |table| == 0 then []
    else
      assert table == [table[0]] + table[1..];
      var rest := BookedSince(table[1..], cutoff);
      if !Before(table[0].booked, cutoff) then
        var rows := [table[0]] + rest;
        assert rows[1..] == rest;
        rows
      else
        rest
  }

  /** The rows the charts are drawn from. For an empty table the maximum is
      NaT, every comparison with NaT is false, and no row is kept. */
  function Selected(table: Table, p: Period): (rows: Table)
    ensures |table| == 0 ==> rows == []
    ensures forall b :: b in rows ==> b in table
  {
    match LatestBooking(table)
    case None => []
    case Some(latest) =>
      var cutoff := Cutoff(p, latest);
      KeptFromTable(table, cutoff);
      BookedSince(table, cutoff)
  }

  /** Every row holding the latest booking survives the filter, whatever the
      period, so a non-empty table never yields an empty selection. */
  lemma LatestRowsKept(table: Table, p: Period)
    ensures forall i :: 0 <= i < |table| && LatestBooking(table) == Some(table[i].booked) ==> table[i] in Selected(table, p)
    ensures |table| > 0 <==> |Selected(table, p)| > 0
  {
    match LatestBooking(table)
    case None =>
    case Some(latest) =>
      var c := Cutoff(p, latest);
      var rows := BookedSince(table, c);
      forall i | 0 <= i < |table| && latest == table[i].booked
        ensures table[i] in rows
      {
        assert table[i] in multiset(table);
        assert multiset(rows)[table[i]] == multiset(table)[table[i]];
      }
      var j :| 0 <= j < |table| && table[j].booked == latest;
      assert table[j] in rows;
  }

  /** The data handed to the four charts. */
  datatype Views = Views(
    byClass: seq<Group<string>>,
    byGender: seq<Group<string>>,
    trend: seq<Group<Timestamp>>,
    scatter: Table)

  /** Bar chart: `groupby('Travel Class')['PassengerID'].count()`. */
  function ByClass(rows: Table): (gs: seq<Group<string>>)
    ensures Ascending(gs, StrLess) && GroupKeys(gs) == RowKeys(rows, TravelClass)
    ensures forall k :: Lookup(gs, k) == Hits(rows, TravelClass, HasPassengerId, k)
    ensures Total(gs) == CountWhere(rows, HasPassengerId)
  {
    StrLessIsStrictTotal();
    GroupCount(rows, TravelClass, HasPassengerId, StrLess)
  }

  /** Pie chart: `groupby('Gender')['PassengerID'].count()`. */
  function ByGender(rows: Table): (gs: seq<Group<string>>)
    ensures Ascending(gs, StrLess) && GroupKeys(gs) == RowKeys(rows, Gender)
    ensures forall k :: Lookup(gs, k) == Hits(rows, Gender, HasPassengerId, k)
    ensures Total(gs) == CountWhere(rows, HasPassengerId)
  {
    StrLessIsStrictTotal();
    GroupCount(rows, Gender, HasPassengerId, StrLess)
  }

  /** Line chart: `groupby('Booking Date').size()`, keyed by the full booking
      timestamp (not its date), in ascending time order. */
  function BookingTrend(rows: Table): (gs: seq<Group<Timestamp>>)
    ensures Ascending(gs, Before) && GroupKeys(gs) == RowKeys(rows, BookedAt)
    ensures forall k :: Lookup(gs, k) == Hits(rows, BookedAt, Always, k)
    ensures Total(gs) == |rows|
  {
    BeforeIsStrictTotal();
    CountWhereAll(rows, Always);
    GroupCount(rows, BookedAt, Always, Before)
  }

  /** Every booking-trend point stands for at least one booking. */
  lemma TrendCountsPositive(rows: Table)
    ensures forall i :: 0 <= i < |BookingTrend(rows)| ==> BookingTrend(rows)[i].count >= 1
  {
    BeforeIsStrictTotal();
    GroupsNonEmpty(rows, BookedAt, Always, Before);
    assert BookingTrend(rows) == GroupCount(rows, BookedAt, Always, Before);
  }

  /** The four chart inputs; the scatter chart gets the selected rows as they
      are. */
  function Aggregate(rows: Table): (v: Views)
    ensures v.scatter == rows
    ensures Total(v.byClass) == CountWhere(rows, HasPassengerId)
    ensures Total(v.byGender) == CountWhere(rows, HasPassengerId)
    ensures Total(v.trend) == |rows|
  {
    Views(ByClass(rows), ByGender(rows), BookingTrend(rows), rows)
  }

  /** The callback: an unrecognised token is an error; otherwise the views of
      the selected rows. */
  function UpdateDashboard(table: Table, value: Option<string>): (r: Result<Views, DashboardError>)
    ensures r.Err? <==> value !in {Some("7D"), Some("1M"), Some("1Y")}
    ensures r.Err? ==> r.error == UnknownPeriod(value)
    ensures r.Ok? ==> exists p: Period :: value == Some(Token(p)) && r.value == Aggregate(Selected(table, p))
  {
    match ParsePeriod(value)
    case Err(e) => Err(e)
    case Ok(p) => Ok(Aggregate(Selected(table, p)))
  }

  lemma {:induction false} KeptFromTable(table: Table, cutoff: Instant)
    ensures forall b :: b in BookedSince(table, cutoff) ==> b in table
  {
    if |table| > 0 {
      KeptFromTable(table[1..], cutoff);
    }
  }

  /** With every PassengerID present, the class and gender counts are
      positive and each adds up to the number of selected rows. */
  lemma CountsCoverSelection(table: Table, p: Period)
    requires IdsPresent(table)
    ensures var rows := Selected(table, p);
      var v := Aggregate(rows);
      && Total(v.byClass) == |rows| && Total(v.byGender) == |rows|
      && (forall i :: 0 <= i < |v.byClass| ==> v.byClass[i].count >= 1)
      && (forall i :: 0 <= i < |v.byGender| ==> v.byGender[i].count >= 1)
  {
    var rows := Selected(table, p);
    StrLessIsStrictTotal();
    CountWhereAll(rows, HasPassengerId);
    GroupsNonEmpty(rows, TravelClass, HasPassengerId, StrLess);
    GroupsNonEmpty(rows, Gender, HasPassengerId, StrLess);
    assert ByClass(rows) == GroupCount(rows, TravelClass, HasPassengerId, StrLess);
    assert ByGender(rows) == GroupCount(rows, Gender, HasPassengerId, StrLess);
  }
}
