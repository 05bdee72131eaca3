/**
  One row of the airline passenger table, after the two date columns have
  been parsed into timestamps.
 */
module Bookings {
  import opened Wrappers
  import opened Calendar

  /** `passengerId` is `None` where the CSV cell is empty (pandas NaN); the
      fare is carried to the scatter view and never computed on. */
  datatype Booking = Booking(
    passengerId: Option<string>,
    origin: string,
    destination: string,
    booked: Instant,
    flight: Instant,
    gender: string,
    travelClass: string,
    fare: real)

  /** The whole table, loaded once and never changed. */
  type Table = seq<Booking>

  /** The test `['PassengerID'].count()` applies to a row. */
  predicate HasPassengerId(b: Booking) {
    b.passengerId.Some?
  }

  /** No PassengerID cell is empty. */
  predicate IdsPresent(table: Table) {
    forall i :: 0 <= i < |table| ==> HasPassengerId(table[i])
  }

  function TravelClass(b: Booking): string {
    b.travelClass
  }

  function Gender(b: Booking): string {
    b.gender
  }

  function BookedAt(b: Booking): Timestamp {
    b.booked
  }

  /** `Flight Date.dt.year`. */
  function FlightYear(b: Booking): int {
    b.flight.year
  }
}
