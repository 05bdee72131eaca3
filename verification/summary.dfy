/**
  The two figures computed once at start-up over the whole table: the number
  of distinct (Origin, Destination) pairs and the passenger count per flight
  year.
 */
module Summary {
  import opened Ordering
  import opened Grouping
  import opened Bookings

  function Route(b: Booking): (string, string) {
    (b.origin, b.destination)
  }

  /** `data[['Origin', 'Destination']]`. */
  function Routes(table: Table): seq<(string, string)> {
    seq(|table|, i requires 0 <= i < |table| => Route(table[i]))
  }

  /** The set of (Origin, Destination) pairs that occur in the table. */
  function RouteSet(table: Table): set<(string, string)> {
    set b | b in table :: Route(b)
  }

  ghost predicate NoDuplicates<T>(xs: seq<T>) {
    forall i, j :: 0 <= i < j < |xs| ==> xs[i] != xs[j]
  }

  /** `drop_duplicates()`: keep the first occurrence of every value. */
  function DropDuplicates<T(==)>(xs: seq<T>): (ys: seq<T>)
    ensures NoDuplicates(ys)
    ensures forall i :: 0 <= i < |ys| ==> ys[i] in xs
    ensures forall i :: 0 <= i < |xs| ==> xs[i] in ys
    ensures |ys| <= |xs|
  {
    if |xs| == 0 then []
    else
      var kept := DropDuplicates(xs[..|xs| - 1]);
      assert xs == xs[..|xs| - 1] + [xs[|xs| - 1]];
      if xs[|xs| - 1] in kept then kept else kept + [xs[|xs| - 1]]
  }

  /** A sequence without repeats has as many elements as distinct values. */
  lemma {:induction false} DistinctCardinality<T>(ys: seq<T>)
    requires NoDuplicates(ys)
    ensures |set x | x in ys| == |ys|
  {
    if |ys| > 0 {
      var init := ys[..|ys| - 1];
      var last := ys[|ys| - 1];
      DistinctCardinality(init);
      assert (set x | x in ys) == (set x | x in init) + {last} by {
        assert ys == init + [last];
      }
      assert last !in init;
    }
  }

  /** `total_flights`: the number of distinct routes. Each pair is counted
      once however often it is flown, so never more than there are rows. */
  function TotalFlights(table: Table): (n: nat)
    ensures n == |RouteSet(table)|
    ensures n <= |table|
    ensures |table| > 0 ==> n >= 1
  {
    var unique := DropDuplicates(Routes(table));
    DistinctCardinality(unique);
    assert (set x | x in unique) == RouteSet(table) by {
      forall x | x in RouteSet(table) ensures x in unique {
        var b :| b in table && Route(b) == x;
        var i :| 0 <= i < |table| && table[i] == b;
        assert Routes(table)[i] == x;
      }
    }
    if |table| > 0 then
      assert Route(table[0]) in RouteSet(table);
      |unique|
    else
      |unique|
  }

  /** A row whose route is already present leaves the route count unchanged;
      a row with a new route raises it by exactly one. */
  lemma RouteCountedOnce(table: Table, b: Booking)
    ensures Route(b) in RouteSet(table) ==> TotalFlights(table + [b]) == TotalFlights(table)
    ensures Route(b) !in RouteSet(table) ==> TotalFlights(table + [b]) == TotalFlights(table) + 1
  {
    assert RouteSet(table + [b]) == RouteSet(table) + {Route(b)};
    if Route(b) in RouteSet(table) {
      assert RouteSet(table + [b]) == RouteSet(table);
    }
  }

  /** `annual_passengers`: one entry per distinct flight year, ascending,
      each counting the rows of that year with a non-null PassengerID. */
  function AnnualPassengers(table: Table): (years: seq<Group<int>>)
    ensures Ascending(years, IntLess)
    ensures GroupKeys(years) == RowKeys(table, FlightYear)
    ensures forall y :: Lookup(years, y) == Hits(table, FlightYear, HasPassengerId, y)
    ensures Total(years) == CountWhere(table, HasPassengerId)
  {
    IntLessIsStrictTotal();
    GroupCount(table, FlightYear, HasPassengerId, IntLess)
  }

  /** With every PassengerID present, the yearly counts are positive and add
      up to the number of rows. */
  lemma AnnualPassengersCoverTable(table: Table)
    requires IdsPresent(table)
    ensures var years := AnnualPassengers(table);
      Total(years) == |table| && forall i :: 0 <= i < |years| ==> years[i].count >= 1
  {
    IntLessIsStrictTotal();
    CountWhereAll(table, HasPassengerId);
    GroupsNonEmpty(table, FlightYear, HasPassengerId, IntLess);
    assert AnnualPassengers(table) == GroupCount(table, FlightYear, HasPassengerId, IntLess);
  }
}
