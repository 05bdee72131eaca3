# Airline passenger dashboard — data model

This project models the data logic of a single-file Dash dashboard over a table of
airline bookings. It covers two things:

- the two figures computed once at start-up:
  - `total_flights`, the number of distinct (Origin, Destination) pairs;
  - `annual_passengers`, the PassengerID count per flight year;
- the pure part of the `update_dashboard` callback:
  - map the period token `7D` / `1M` / `1Y` to a start date, anchored at the latest
    booking in the table;
  - keep the rows booked at or after that date;
  - build the three group-by tables (by travel class, by gender, by booking timestamp);
  - pass the kept rows on to the scatter chart unchanged.

Modules:

- `Wrappers`: `Option` (pandas NaN/NaT) and `Result` (rejected input).
- `Ordering`: strict total orders, plus the key orders pandas sorts group keys by: integer
  order, and Python's code-point order on strings (`StrLess`).
- `Calendar`: timestamps as year, month, day and nanoseconds of the day. It has the
  Gregorian leap-year rule and a day ordinal, and models the three offsets the callback
  subtracts: `Timedelta(days=7)` (`MinusDays`), `DateOffset(months=1)` (`MinusMonths`) and
  `DateOffset(years=1)` (`MinusYears`). The two calendar offsets keep the time of day and
  clamp the day to the length of the target month.
- `Grouping`: `groupby(key)[col].count()` and `groupby(key).size()` as one generic
  function, `GroupCount`. It returns a key-sorted list of (key, count) pairs and is specified
  against a reference count, `Hits`.
- `Bookings`: the booking record and the table.
- `Summary`: `total_flights` and `annual_passengers`.
- `Dashboard`: the period token, the cutoff, the filter, the three group-bys and the
  callback as a whole.

Design decisions:

- **PassengerID may be null.** It is `Option<string>`. `count()` tallies only the rows
  with an id, so a group can hold 0. `size()` tallies every row.
  `Grouping.CountIsSizeWithoutNulls` proves the two agree when no id is missing.
- **Trend key.** The booking trend is keyed by the full `Booking Date` value
  (DashBoard.py:92), not by its calendar date.
- **Unrecognised token.** The code has no `else` branch, so `start_date` stays unbound
  and the callback raises. This also happens when the dropdown is cleared, which sends
  `None`. The dropdown value is an `Option<string>`, with `None` for a cleared dropdown,
  and the model returns `Err(UnknownPeriod(value))` for anything but the three option
  values.
- **Empty table.** `max()` of an empty column is NaT, and every comparison with NaT is
  false. So the selection is empty and every view is empty, not an error.
  `Dashboard.LatestRowsKept` proves the selection is empty exactly when the table is.
  So a non-empty table never yields an empty selection: the latest booking is always kept.
- **Purity.** Every operation is a pure function of the table and the token. So calling
  the callback twice with the same token gives the same views by construction.

## Model

| member | source | states |
|---|---|---|
| `Summary.DropDuplicates` | DashBoard.py:13 | the result has no repeated pair and holds exactly the pairs of the input, so it is never longer than the input |
| `Summary.DistinctCardinality` | DashBoard.py:13 | a sequence without repeats has as many elements as it has distinct values |
| `Summary.TotalFlights` | DashBoard.py:13 | the route count equals the number of distinct (Origin, Destination) pairs in the table; it is at most the row count and at least 1 for a non-empty table |
| `Summary.RouteCountedOnce` | DashBoard.py:13 | adding a row on a route already present leaves the count unchanged; adding a row on a new route raises it by exactly one |
| `Summary.AnnualPassengers` | DashBoard.py:14 | one entry per distinct flight year, in strictly ascending year order; each entry counts that year's rows with a non-null PassengerID; the counts sum to the number of such rows |
| `Summary.AnnualPassengersCoverTable` | DashBoard.py:14 | when no PassengerID is null, every yearly count is at least 1 and the counts sum to the number of rows |
| `Dashboard.ParsePeriod` | DashBoard.py:73-78 | a dropdown value is accepted only if it is the value of a dropdown option; any other value, a cleared dropdown included, is rejected with an error naming it |
| `Dashboard.TokenRoundTrip` | DashBoard.py:44-48 | every dropdown option's value is recognised as that option |
| `Dashboard.LatestBooking` | DashBoard.py:74 | `None` exactly for an empty table; otherwise a booking timestamp of some row that no row's booking timestamp exceeds |
| `Dashboard.Cutoff` | DashBoard.py:73-78 | the start date is strictly before the latest booking, at the same time of day: exactly 7 days earlier for `7D`; the previous month (28 to 31 days earlier) for `1M` and the same month of the previous year (365 or 366 days earlier) for `1Y`, both with the day clamped to the target month's length |
| `Calendar.PrevDay` | DashBoard.py:74 | the previous day is one day number earlier at the same time of day, across month and year ends |
| `Calendar.MinusMonths` | DashBoard.py:76 | n months back lands on the month whose index (12·year + month) is n lower, at the same time of day, with the day clamped to that month's length; its day-count consequence is in `Calendar.MonthBackSpan` |
| `Calendar.MinusYears` | DashBoard.py:78 | its own contract only names the target year, month and clamped day; the content is in `Calendar.YearBackSpan` (365 or 366 days back, strictly earlier) and `Calendar.YearsAreTwelveMonths` (the same as 12·n months back) |
| `Calendar.MinusDays` | DashBoard.py:74 | subtracting n days lands exactly n day numbers earlier at the same time of day |
| `Calendar.WeekBackExample` | DashBoard.py:74 | 7 days before 3 March 2024 01:00 is 25 February 2024 01:00 |
| `Calendar.MonthBackSpan` | DashBoard.py:76 | one calendar month back is 28 to 31 days earlier and strictly before the start |
| `Calendar.YearBackSpan` | DashBoard.py:78 | one calendar year back is 365 or 366 days earlier and strictly before the start |
| `Calendar.YearsAreTwelveMonths` | DashBoard.py:76-78 | subtracting n years gives the same timestamp as subtracting 12·n months, with the same day clamping |
| `Calendar.OffsetExamples` | DashBoard.py:76-78 | 10 Mar 2024 minus a year is 10 Mar 2023; 31 Mar minus a month is 29 Feb in 2024 and 28 Feb in 2023; 29 Feb 2024 minus a year is 28 Feb 2023; January minus a month is December of the previous year |
| `Calendar.BeforeIsChronological` | DashBoard.py:80 | the timestamp order used by the filter is time-line order: by day number, then by time of day |
| `Calendar.OrdinalInjective` | DashBoard.py:74 | two valid timestamps with the same day number fall on the same calendar date, so the 7-day cutoff is a unique date |
| `Ordering.StrLess` | DashBoard.py:83-92 | the string key order pandas sorts class and gender groups by never relates a string to itself |
| `Ordering.ProperPrefixFirst` | DashBoard.py:83-92 | in that order a proper prefix sorts before the longer string |
| `Ordering.StrLessIsStrictTotal` | DashBoard.py:83-88 | the string key order used to sort class and gender groups is a strict total order |
| `Dashboard.BookedSince` | DashBoard.py:80 | the kept rows are exactly the rows booked at or after the cutoff: inclusive bound, no upper bound, each kept as often as in the table, in table order |
| `Dashboard.Selected` | DashBoard.py:74-80 | an empty table (maximum NaT) selects nothing, and every selected row is a row of the table |
| `Dashboard.LatestRowsKept` | DashBoard.py:73-80 | every row holding the latest booking is selected whatever the period, so the selection is non-empty exactly when the table is |
| `Grouping.GroupCount` | DashBoard.py:83-92 | groups are in strictly ascending key order; the group keys are exactly the keys present in the rows; each key's count is the number of its tallied rows; the counts sum to the number of tallied rows |
| `Grouping.GroupsMatchRows` | DashBoard.py:83-92 | every group's key occurs in the rows, and its count is that key's tallied-row count |
| `Grouping.AscendingDistinct` | DashBoard.py:83-92 | a key-sorted group table never lists a key twice |
| `Grouping.GroupsNonEmpty` | DashBoard.py:92 | when every row is tallied, no group has count 0 |
| `Grouping.CountIsSizeWithoutNulls` | DashBoard.py:83-92 | with no null PassengerID, `count()` gives the same table as `size()` |
| `Dashboard.ByClass` | DashBoard.py:83 | one group per travel class present, in ascending string order; an absent class has no group; counts are non-null-id rows per class and sum to the non-null-id row count |
| `Dashboard.ByGender` | DashBoard.py:88 | one group per gender present, in ascending string order; counts are non-null-id rows per gender and sum to the non-null-id row count |
| `Dashboard.BookingTrend` | DashBoard.py:92 | one point per distinct full booking timestamp, in strictly ascending time order; each point counts the rows with that timestamp; the counts sum to the number of selected rows |
| `Dashboard.TrendCountsPositive` | DashBoard.py:92 | every trend point stands for at least one booking |
| `Dashboard.CountsCoverSelection` | DashBoard.py:83-88 | when no PassengerID is null, the class counts and the gender counts are each at least 1 and each sum to the number of selected rows |
| `Dashboard.Aggregate` | DashBoard.py:83-96 | the scatter input is the selected rows unchanged; the class and gender tables sum to the non-null-id row count; the trend sums to the row count |
| `Dashboard.UpdateDashboard` | DashBoard.py:71-100 | the callback fails exactly for dropdown values other than `7D`, `1M`, `1Y` (a cleared dropdown included), with an error naming the value; otherwise it yields the views of the selection for the period the value names |

## Left out

- Reading the CSV and `pd.to_datetime` format inference (DashBoard.py:8-10): file I/O and
  library parsing. The table is taken as already parsed. Rows whose dates would fail to
  parse are not modelled.
- The Dash app, layout, dropdown component and callback wiring (DashBoard.py:17-70,
  102-104): UI and server plumbing. Only the dropdown's option values are modelled
  (`Dashboard.Token`).
- Plotly figure construction and styling (DashBoard.py:84-85, 89, 93, 96-98): foreign
  rendering calls. Only the data handed to them is modelled.
- Summary string formatting in the layout (DashBoard.py:26-30): presentation only.
- The fare is a float in the source. Here it is a `real` carried through to the scatter
  rows with no arithmetic on it.
- pandas timestamps only cover roughly the years 1677 to 2262; subtracting an offset
  outside that range raises there. The model's years are unbounded integers on the
  proleptic Gregorian calendar, so that overflow is not modelled.
- Null values outside PassengerID: `groupby` drops rows whose Travel Class, Gender,
  Flight Date or Booking Date is missing, and `drop_duplicates` treats missing values as
  equal. A missing Booking Date is also skipped by `max()` (DashBoard.py:74) and fails the
  `>=` test (DashBoard.py:80). In the model those columns always hold a value; only
  PassengerID may be null.
- Time zones: the booking timestamps are naive, as the CSV parse yields them.
- `Summary.DropDuplicates`: keeps first occurrences in order, as pandas does, but its
  contract states only no repeats and the same set of pairs. Only the length is used
  (`.shape[0]`).
- `Calendar.MinusMonths`, `Calendar.MinusYears`: their own contracts state the target
  month and the clamped day. The day-count consequences are stated by
  `Calendar.MonthBackSpan` and `Calendar.YearBackSpan`.
