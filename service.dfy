/** The service as an object: the two tables and the id counter are fields, and
    each state-changing handler is a method that updates them in one step. */
module Service {
  import opened Records
  import opened Catalog
  import opened Ledger
  import opened Reservation

  class Railway {
    var trains: seq<Train>
    var bookings: seq<Booking>
    var nextId: int

    function State(): Db
      reads this
    {
      Db(trains, bookings, nextId)
    }

    ghost predicate Valid()
      reads this
    {
      Consistent(State())
    }

    constructor ()
      ensures Valid() && State() == Empty()
    {
      trains, bookings, nextId := [], [], 1;
      EmptyConsistent();
    }

    /** Registers a train when the key matches; the new row's free seats start
        at its capacity and its id is the next fresh one. */
    method AddTrain(apiKey: string, name: string, source: string, destination: string, totalSeats: int)
      returns (r: AddOutcome)
      requires Valid()
      modifies this
      ensures Valid()
      ensures (State(), r) == AddTrainStep(old(State()), apiKey, name, source, destination, totalSeats)
      ensures r == Unauthorized ==> State() == old(State())
      ensures r.Added? ==>
        bookings == old(bookings) && nextId == old(nextId) + 1 &&
        trains == old(trains) + [Train(r.trainId, name, source, destination, totalSeats, totalSeats)]
    {
      ghost var before := State();
      AddTrainPreservesConsistent(before, apiKey, name, source, destination, totalSeats);
      if apiKey != AdminApiKey {
        return Unauthorized;
      }
      var id := nextId;
      trains := trains + [Train(id, name, source, destination, totalSeats, totalSeats)];
      nextId := nextId + 1;
      r := Added(id);
    }

    /** Reserves the next seat of a train for `userId`: refused for a missing or
        sold-out train, otherwise the counter is decremented and a booking with
        seat number capacity minus the new counter is appended. */
    method BookSeat(trainId: int, userId: int) returns (r: BookOutcome)
      requires Valid()
      modifies this
      ensures Valid()
      ensures (State(), r) == BookSeatStep(old(State()), trainId, userId)
      ensures r == NoSeatsAvailable ==> State() == old(State())
    {
      ghost var before := State();
      ghost var after := BookSeatStep(before, trainId, userId);
      BookSeatPreservesConsistent(before, trainId, userId);
      var found := FindTrain(trains, trainId);
      if found.None? || trains[found.value].availableSeats <= 0 {
        assert after == (before, NoSeatsAvailable);
        return NoSeatsAvailable;
      }
      var i := found.value;
      var train := trains[i];
      train := train.(availableSeats := train.availableSeats - 1);
      var seat := train.totalSeats - train.availableSeats;
      trains := trains[i := train];
      bookings := bookings + [Booking(userId, train.id, seat)];
      r := Booked(seat);
      assert after.0 == State() && after.1 == r;
    }
  }
}
