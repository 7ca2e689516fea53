/** The record shapes of the booking service: one row of the trains table and one
    row of the bookings table, with the integers the database stores. */
module Records {

  datatype Option<T> = None | Some(value: T)

  /** A row of the trains table. `availableSeats` is the only column that ever
      changes after the row is inserted. */
  datatype Train = Train(
    id: int,
    name: string,
    source: string,
    destination: string,
    totalSeats: int,
    availableSeats: int)

  /** A row of the bookings table (its own key and wall-clock timestamp omitted). */
  datatype Booking = Booking(userId: int, trainId: int, seatNumber: int)

  /** How many seats of `t` have been handed out so far. */
  function SeatsSold(t: Train): int
  {
    t.totalSeats - t.availableSeats
  }
}
