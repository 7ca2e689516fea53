/** Sequences of requests, each handled as one atomic step in arrival order:
    what holds in every reachable state, and what a run of booking requests for
    one train hands out. */
module History {
  import opened Records
  import opened Catalog
  import opened Ledger
  import opened Reservation

  datatype Request =
    | AddTrainRequest(apiKey: string, name: string, source: string, destination: string, totalSeats: int)
    | BookSeatRequest(trainId: int, userId: int)

  function Apply(db: Db, r: Request): Db
  {
    match r
    case AddTrainRequest(key, name, source, destination, total) =>
      AddTrainStep(db, key, name, source, destination, total).0
    case BookSeatRequest(trainId, userId) => BookSeatStep(db, trainId, userId).0
  }

  function Run(db: Db, requests: seq<Request>): Db
    decreases |requests|
  {
    if |requests| == 0 then db else Run(Apply(db, requests[0]), requests[1..])
  }

  lemma {:induction false} RunPreservesConsistent(db: Db, requests: seq<Request>)
    requires Consistent(db)
    ensures Consistent(Run(db, requests))
    decreases |requests|
  {
    if |requests| > 0 {
      match requests[0] {
      case AddTrainRequest(key, name, source, destination, total) =>
        AddTrainPreservesConsistent(db, key, name, source, destination, total);
      case BookSeatRequest(trainId, userId) =>
        BookSeatPreservesConsistent(db, trainId, userId);
      }
      RunPreservesConsistent(Apply(db, requests[0]), requests[1..]);
    }
  }

  /** Every state the service can reach from empty tables is consistent. */
  lemma ReachableStatesConsistent(requests: seq<Request>)
    ensures Consistent(Run(Empty(), requests))
  {
    EmptyConsistent();
    RunPreservesConsistent(Empty(), requests);
  }

  /** Booking requests for one train from `users`, served first come, first served. */
  function BookAll(db: Db, trainId: int, users: seq<int>): (Db, seq<BookOutcome>)
    decreases |users|
  {
    if |users| == 0 then (db, [])
    else
      var first := BookSeatStep(db, trainId, users[0]);
      var rest := BookAll(first.0, trainId, users[1..]);
      (rest.0, [first.1] + rest.1)
  }

  /** How many of `requests` booking requests a train with `available` free seats grants. */
  function Granted(available: int, requests: nat): nat
  {
    if available <= 0 then 0 else if available < requests then available else requests
  }

  /** The part of the invariant that one train's run of requests relies on. */
  predicate TrainAccounted(db: Db, trainId: int, i: nat)
  {
    FindTrain(db.trains, trainId) == Some(i) && SeatBounds(db.trains[i]) && Accounted(db.bookings, db.trains[i])
  }

  /** One request for the train at row `i`, granted or refused: it keeps that
      train accounted for and hands out the seat after those already issued. */
  lemma NextRequest(db: Db, trainId: int, userId: int, i: nat)
    requires TrainAccounted(db, trainId, i)
    ensures var next := BookSeatStep(db, trainId, userId);
      var t := db.trains[i];
      && next.1 == (if 0 < t.availableSeats then Booked(SeatsSold(t) + 1) else NoSeatsAvailable)
      && TrainAccounted(next.0, trainId, i)
      && |next.0.trains| == |db.trains|
      && next.0.trains[i]
         == t.(availableSeats := if 0 < t.availableSeats then t.availableSeats - 1 else t.availableSeats)
  {
    var t := db.trains[i];
    if t.availableSeats > 0 {
      var next := BookSeatStep(db, trainId, userId);
      var b := Booking(userId, trainId, SeatsSold(t) + 1);
      assert next.0.bookings == db.bookings + [b];
      FindTrainIgnoresOtherColumns(db.trains, next.0.trains, trainId);
      AccountedAfterSale(db.bookings, t, b);
    }
  }

  /** What the j-th of a run of requests gets from a train that had `available`
      free seats and `sold` seats issued when the run began. */
  function Expected(j: int, available: int, sold: int): BookOutcome
  {
    if j < available then Booked(sold + j + 1) else NoSeatsAvailable
  }

  /** Prepending the first request's outcome to the outcomes of the rest of the
      run, which started from `available'` free seats and `sold'` issued ones. */
  lemma ExpectedShift(outs: seq<BookOutcome>, rest: seq<BookOutcome>, available: int, sold: int,
                      available': int, sold': int)
    requires |outs| == |rest| + 1 && outs[1..] == rest
    requires outs[0] == Expected(0, available, sold)
    requires available' == (if 0 < available then available - 1 else available)
    requires sold' == (if 0 < available then sold + 1 else sold)
    requires forall j :: 0 <= j < |rest| ==> rest[j] == Expected(j, available', sold')
    ensures forall j :: 0 <= j < |outs| ==> outs[j] == Expected(j, available, sold)
  {
    forall j | 0 < j < |outs| ensures outs[j] == Expected(j, available, sold) {
      assert outs[j] == rest[j - 1];
    }
  }

  /** Successive requests for one train receive the seats after the ones already
      issued, one each, with no gap and no repeat, until the train is sold out;
      every later request is refused. */
  lemma {:induction false} RepeatedBooking(db: Db, trainId: int, users: seq<int>, i: nat)
    requires TrainAccounted(db, trainId, i)
    ensures var outs := BookAll(db, trainId, users).1;
      && |outs| == |users|
      && forall j :: 0 <= j < |users| ==>
           outs[j] == Expected(j, db.trains[i].availableSeats, SeatsSold(db.trains[i]))
    decreases |users|
  {
    if |users| > 0 {
      var first := BookSeatStep(db, trainId, users[0]);
      var next := first.0;
      NextRequest(db, trainId, users[0], i);
      RepeatedBooking(next, trainId, users[1..], i);
      var outs := BookAll(db, trainId, users).1;
      var rest := BookAll(next, trainId, users[1..]).1;
      assert outs == [first.1] + rest;
      ExpectedShift(outs, rest, db.trains[i].availableSeats, SeatsSold(db.trains[i]),
                    next.trains[i].availableSeats, SeatsSold(next.trains[i]));
    }
  }

  /** A run of requests for one train keeps the invariant. */
  lemma {:induction false} BookAllPreservesConsistent(db: Db, trainId: int, users: seq<int>)
    requires Consistent(db)
    ensures Consistent(BookAll(db, trainId, users).0)
    decreases |users|
  {
    if |users| > 0 {
      BookSeatPreservesConsistent(db, trainId, users[0]);
      BookAllPreservesConsistent(BookSeatStep(db, trainId, users[0]).0, trainId, users[1..]);
    }
  }

  /** After a run of requests for one train the train keeps its row and its
      counter has dropped by the number of requests granted. */
  lemma {:induction false} RepeatedBookingCounter(db: Db, trainId: int, users: seq<int>, i: nat)
    requires TrainAccounted(db, trainId, i)
    ensures var db' := BookAll(db, trainId, users).0;
      && |db'.trains| == |db.trains|
      && TrainAccounted(db', trainId, i)
      && db'.trains[i]
         == db.trains[i].(availableSeats := db.trains[i].availableSeats - Granted(db.trains[i].availableSeats, |users|))
    decreases |users|
  {
    if |users| > 0 {
      var next := BookSeatStep(db, trainId, users[0]).0;
      NextRequest(db, trainId, users[0], i);
      RepeatedBookingCounter(next, trainId, users[1..], i);
      assert BookAll(db, trainId, users).0 == BookAll(next, trainId, users[1..]).0;
      GrantedStep(db.trains[i].availableSeats, |users|);
    }
  }

  lemma GrantedStep(available: int, requests: nat)
    requires 0 < requests
    ensures Granted(available, requests)
         == if 0 < available then 1 + Granted(available - 1, requests - 1) else Granted(available, requests - 1)
  {
  }

  /** From a newly added train with capacity `total`, successive requests receive
      seats 1, 2, 3, ... up to `total`, and every request after that is refused. */
  lemma FreshTrainSeats(db: Db, name: string, source: string, destination: string, total: int,
                        users: seq<int>)
    requires Consistent(db)
    ensures AddTrainStep(db, AdminApiKey, name, source, destination, total).1 == Added(db.nextId)
    ensures var outs := BookAll(AddTrainStep(db, AdminApiKey, name, source, destination, total).0, db.nextId, users).1;
      && |outs| == |users|
      && forall j :: 0 <= j < |users| ==> outs[j] == if j < total then Booked(j + 1) else NoSeatsAvailable
  {
    var t := Train(db.nextId, name, source, destination, total, total);
    var db1 := AddTrainStep(db, AdminApiKey, name, source, destination, total).0;
    assert db1 == db.(trains := db.trains + [t], nextId := db.nextId + 1);
    InsertPreservesConsistent(db, t);
    assert FindTrain(db.trains, db.nextId).None?;
    FindTrainAppend(db.trains, t, db.nextId);
    assert db1.trains[|db.trains|] == t;
    assert TrainAccounted(db1, db.nextId, |db.trains|);
    RepeatedBooking(db1, db.nextId, users, |db.trains|);
  }

  /** A train of capacity 2 and three requests for it: seats 1 and 2 are handed
      out, the third request is refused, and no seat is left. */
  lemma CapacityTwoScenario(name: string, source: string, destination: string, users: seq<int>)
    requires |users| == 3
    ensures var db1 := AddTrainStep(Empty(), AdminApiKey, name, source, destination, 2).0;
      var (db', outs) := BookAll(db1, 1, users);
      && outs == [Booked(1), Booked(2), NoSeatsAvailable]
      && |db'.trains| == 1 && db'.trains[0].availableSeats == 0
  {
    EmptyConsistent();
    FreshTrainSeats(Empty(), name, source, destination, 2, users);
    var db1 := AddTrainStep(Empty(), AdminApiKey, name, source, destination, 2).0;
    assert TrainAccounted(db1, 1, 0);
    RepeatedBookingCounter(db1, 1, users, 0);
  }
}
