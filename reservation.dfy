/** The two request handlers that change state, each one atomic step on a
    snapshot of both tables, and the invariant that ties the tables together. */
module Reservation {
  import opened Records
  import opened Catalog
  import opened Ledger

  /** The administrator key the add-train handler compares the request header with. */
  const AdminApiKey: string := "your_admin_api_key"

  /** Both tables and the next primary key the trains table hands out. */
  datatype Db = Db(trains: seq<Train>, bookings: seq<Booking>, nextId: int)

  datatype AddOutcome = Added(trainId: int) | Unauthorized

  /** The handler answers with one message for a missing train and for a sold-out one. */
  datatype BookOutcome = Booked(seatNumber: int) | NoSeatsAvailable

  function Empty(): Db
  {
    Db([], [], 1)
  }

  /** The free-seat counter never exceeds the capacity and never goes below zero
      once a seat has been sold (a train registered with a negative capacity
      keeps its counter equal to it, since it can never be booked). */
  predicate SeatBounds(t: Train)
  {
    t.availableSeats <= t.totalSeats && (t.availableSeats < t.totalSeats ==> 0 <= t.availableSeats)
  }

  /** The ledger accounts for the train: it holds exactly `SeatsSold(t)` bookings
      for it, numbered 1, 2, 3, ... in ledger order. */
  predicate Accounted(bookings: seq<Booking>, t: Train)
  {
    |BookingsFor(bookings, t.id)| == SeatsSold(t) && NumberedFromOne(BookingsFor(bookings, t.id))
  }

  /** Primary keys increase along the table and stay below the next fresh one. */
  predicate FreshIds(trains: seq<Train>, nextId: int)
  {
    && (forall i, j :: 0 <= i < j < |trains| ==> trains[i].id < trains[j].id)
    && (forall i :: 0 <= i < |trains| ==> trains[i].id < nextId)
  }

  predicate HasTrain(trains: seq<Train>, id: int)
  {
    exists j :: 0 <= j < |trains| && trains[j].id == id
  }

  /** Every booking refers to a train in the table. */
  predicate KnownTrains(trains: seq<Train>, bookings: seq<Booking>)
  {
    forall k :: 0 <= k < |bookings| ==> HasTrain(trains, bookings[k].trainId)
  }

  predicate AllAccounted(trains: seq<Train>, bookings: seq<Booking>)
  {
    forall i :: 0 <= i < |trains| ==> SeatBounds(trains[i]) && Accounted(bookings, trains[i])
  }

  predicate Consistent(db: Db)
  {
    FreshIds(db.trains, db.nextId) && AllAccounted(db.trains, db.bookings) && KnownTrains(db.trains, db.bookings)
  }

  /** A train id that is not in the table has no bookings. */
  lemma NoBookingsForUnknownTrain(trains: seq<Train>, bookings: seq<Booking>, id: int)
    requires KnownTrains(trains, bookings)
    requires FindTrain(trains, id).None?
    ensures BookingsFor(bookings, id) == []
  {
    assert forall b :: b in bookings ==> b.trainId != id by {
      forall b | b in bookings ensures b.trainId != id {
        var k :| 0 <= k < |bookings| && bookings[k] == b;
        assert HasTrain(trains, bookings[k].trainId);
      }
    }
    BookingsForMembers(bookings, id);
    var f := BookingsFor(bookings, id);
    assert forall b :: b !in f;
  }

  lemma EmptyConsistent()
    ensures Consistent(Empty())
  {
  }

  /** In a consistent state the availability answer lists every matching train
      once, in increasing id order. */
  lemma AvailabilityInIdOrder(db: Db, source: string, destination: string)
    requires Consistent(db)
    ensures Increasing(CheckAvailability(db.trains, source, destination))
  {
    AnswerIdsIncrease(db.trains, source, destination);
  }

  /** The add-train handler: with the right key, insert a row under a fresh id
      whose free seats start equal to its capacity. The capacity is not checked. */
  function AddTrainStep(db: Db, apiKey: string, name: string, source: string, destination: string,
                        totalSeats: int): (r: (Db, AddOutcome))
    ensures r.1 == Unauthorized <==> apiKey != AdminApiKey
    ensures r.1 == Unauthorized ==> r.0 == db
    ensures r.1.Added? ==>
      && r.1.trainId == db.nextId
      && r.0.nextId == db.nextId + 1
      && r.0.bookings == db.bookings
      && |r.0.trains| == |db.trains| + 1
      && r.0.trains[..|db.trains|] == db.trains
      && r.0.trains[|db.trains|] == Train(db.nextId, name, source, destination, totalSeats, totalSeats)
  {
    if apiKey != AdminApiKey then (db, Unauthorized)
    else
      var t := Train(db.nextId, name, source, destination, totalSeats, totalSeats);
      (db.(trains := db.trains + [t], nextId := db.nextId + 1), Added(db.nextId))
  }

  /** The book-seat handler: refuse a missing or sold-out train; otherwise
      decrement its counter and record a booking whose seat number is the
      capacity minus the counter after the decrement. */
  function BookSeatStep(db: Db, trainId: int, userId: int): (r: (Db, BookOutcome))
    ensures r.1 == NoSeatsAvailable <==>
      FindTrain(db.trains, trainId).None? || db.trains[FindTrain(db.trains, trainId).value].availableSeats <= 0
    ensures r.1 == NoSeatsAvailable ==> r.0 == db
    ensures r.0.nextId == db.nextId && |r.0.trains| == |db.trains|
    ensures r.1.Booked? ==>
      && FindTrain(db.trains, trainId).Some?
      && r.1.seatNumber == SeatsSold(db.trains[FindTrain(db.trains, trainId).value]) + 1
      && r.0.bookings == db.bookings + [Booking(userId, trainId, r.1.seatNumber)]
  {
    match FindTrain(db.trains, trainId)
    case None => (db, NoSeatsAvailable)
    case Some(i) =>
      var t := db.trains[i];
      if t.availableSeats <= 0 then (db, NoSeatsAvailable)
      else
        var t' := t.(availableSeats := t.availableSeats - 1);
        var seat := t'.totalSeats - t'.availableSeats;
        (db.(trains := db.trains[i := t'], bookings := db.bookings + [Booking(userId, t.id, seat)]),
         Booked(seat))
  }

  /** A rejected key changes nothing; an accepted one appends exactly one train,
      with a fresh id, full availability and no bookings, and keeps every older
      train and every booking. */
  lemma AddTrainEffect(db: Db, apiKey: string, name: string, source: string, destination: string,
                       totalSeats: int)
    requires Consistent(db)
    ensures var (db', out) := AddTrainStep(db, apiKey, name, source, destination, totalSeats);
      && (out == Unauthorized <==> apiKey != AdminApiKey)
      && (out == Unauthorized ==> db' == db)
      && (out.Added? ==>
            && out.trainId == db.nextId
            && FindTrain(db.trains, out.trainId).None?
            && db'.trains == db.trains + [Train(out.trainId, name, source, destination, totalSeats, totalSeats)]
            && db'.bookings == db.bookings
            && db'.nextId == db.nextId + 1
            && BookingsFor(db'.bookings, out.trainId) == [])
  {
    if apiKey == AdminApiKey {
      NoBookingsForUnknownTrain(db.trains, db.bookings, db.nextId);
    }
  }

  lemma {:induction false} AddTrainPreservesConsistent(db: Db, apiKey: string, name: string, source: string,
                                   destination: string, totalSeats: int)
    requires Consistent(db)
    ensures Consistent(AddTrainStep(db, apiKey, name, source, destination, totalSeats).0)
  {
    if apiKey == AdminApiKey {
      var t := Train(db.nextId, name, source, destination, totalSeats, totalSeats);
      InsertPreservesConsistent(db, t);
    }
  }

  /** Inserting a full, unbooked train under the fresh id keeps the invariant. */
  lemma InsertPreservesConsistent(db: Db, t: Train)
    requires Consistent(db)
    requires t.id == db.nextId && t.availableSeats == t.totalSeats
    ensures Consistent(db.(trains := db.trains + [t], nextId := db.nextId + 1))
  {
    var trains' := db.trains + [t];
    assert FreshIds(trains', db.nextId + 1);
    NoBookingsForUnknownTrain(db.trains, db.bookings, t.id);
    assert AllAccounted(trains', db.bookings) by {
      forall i | 0 <= i < |trains'| ensures SeatBounds(trains'[i]) && Accounted(db.bookings, trains'[i]) {
        if i < |db.trains| {
          assert trains'[i] == db.trains[i];
        }
      }
    }
    assert KnownTrains(trains', db.bookings) by {
      forall k | 0 <= k < |db.bookings| ensures HasTrain(trains', db.bookings[k].trainId) {
        var j :| 0 <= j < |db.trains| && db.trains[j].id == db.bookings[k].trainId;
        assert trains'[j] == db.trains[j];
      }
    }
  }

  /** What a booking request does, stated against the invariant: it fails exactly
      when the train is missing or has no free seat, and then nothing changes;
      otherwise the counter drops by one, exactly one booking is appended, and
      its seat is the one after the seats already issued for that train, so it
      lies in 1 .. capacity. Every other train and every older booking is kept. */
  lemma BookSeatEffect(db: Db, trainId: int, userId: int)
    requires Consistent(db)
    ensures var (db', out) := BookSeatStep(db, trainId, userId);
      && (out == NoSeatsAvailable <==>
            FindTrain(db.trains, trainId).None? || db.trains[FindTrain(db.trains, trainId).value].availableSeats <= 0)
      && (out == NoSeatsAvailable ==> db' == db)
      && (out.Booked? ==>
            var i := FindTrain(db.trains, trainId).value;
            && out.seatNumber == |BookingsFor(db.bookings, trainId)| + 1
            && 1 <= out.seatNumber <= db.trains[i].totalSeats
            && |db'.trains| == |db.trains|
            && db'.trains[i] == db.trains[i].(availableSeats := db.trains[i].availableSeats - 1)
            && (forall j :: 0 <= j < |db.trains| && j != i ==> db'.trains[j] == db.trains[j])
            && db'.bookings == db.bookings + [Booking(userId, trainId, out.seatNumber)]
            && db'.nextId == db.nextId)
  {
    match FindTrain(db.trains, trainId)
    case None =>
    case Some(i) =>
      assert Accounted(db.bookings, db.trains[i]);
  }

  lemma {:induction false} BookSeatPreservesConsistent(db: Db, trainId: int, userId: int)
    requires Consistent(db)
    ensures Consistent(BookSeatStep(db, trainId, userId).0)
  {
    match FindTrain(db.trains, trainId)
    case None =>
    case Some(i) =>
      if db.trains[i].availableSeats > 0 {
        SellPreservesConsistent(db, i, userId);
      }
  }

  /** Selling the next seat of the train at row `i` keeps the invariant. */
  lemma SellPreservesConsistent(db: Db, i: nat, userId: int)
    requires Consistent(db)
    requires i < |db.trains| && db.trains[i].availableSeats > 0
    ensures var t := db.trains[i];
            var t' := t.(availableSeats := t.availableSeats - 1);
            Consistent(db.(trains := db.trains[i := t'],
                           bookings := db.bookings + [Booking(userId, t.id, t'.totalSeats - t'.availableSeats)]))
  {
    var t := db.trains[i];
    var t' := t.(availableSeats := t.availableSeats - 1);
    var b := Booking(userId, t.id, t'.totalSeats - t'.availableSeats);
    SellKeepsFreshIds(db.trains, db.nextId, i, t');
    SellKeepsKnownTrains(db.trains, db.bookings, i, t', b);
    SellKeepsAllAccounted(db.trains, db.bookings, i, b);
  }

  lemma SellKeepsFreshIds(trains: seq<Train>, nextId: int, i: nat, t': Train)
    requires FreshIds(trains, nextId) && i < |trains| && t'.id == trains[i].id
    ensures FreshIds(trains[i := t'], nextId)
  {
    var trains' := trains[i := t'];
    assert forall j :: 0 <= j < |trains'| ==> trains'[j].id == trains[j].id;
  }

  lemma SellKeepsKnownTrains(trains: seq<Train>, bookings: seq<Booking>, i: nat, t': Train, b: Booking)
    requires KnownTrains(trains, bookings) && i < |trains| && t'.id == trains[i].id && b.trainId == t'.id
    ensures KnownTrains(trains[i := t'], bookings + [b])
  {
    var trains' := trains[i := t'];
    var bookings' := bookings + [b];
    forall k | 0 <= k < |bookings'| ensures HasTrain(trains', bookings'[k].trainId) {
      if k == |bookings| {
        assert trains'[i].id == bookings'[k].trainId;
      } else {
        assert bookings'[k] == bookings[k];
        assert HasTrain(trains, bookings[k].trainId);
        var j :| 0 <= j < |trains| && trains[j].id == bookings[k].trainId;
        assert trains'[j].id == trains[j].id;
      }
    }
  }

  lemma SellKeepsAllAccounted(trains: seq<Train>, bookings: seq<Booking>, i: nat, b: Booking)
    requires forall j, k :: 0 <= j < k < |trains| ==> trains[j].id < trains[k].id
    requires AllAccounted(trains, bookings)
    requires i < |trains| && trains[i].availableSeats > 0
    requires b.trainId == trains[i].id && b.seatNumber == SeatsSold(trains[i]) + 1
    ensures var t := trains[i];
            AllAccounted(trains[i := t.(availableSeats := t.availableSeats - 1)], bookings + [b])
  {
    var t := trains[i];
    var trains' := trains[i := t.(availableSeats := t.availableSeats - 1)];
    forall j | 0 <= j < |trains'| ensures SeatBounds(trains'[j]) && Accounted(bookings + [b], trains'[j]) {
      if j == i {
        AccountedAfterSale(bookings, t, b);
      } else {
        assert SeatBounds(trains[j]) && Accounted(bookings, trains[j]);
        assert trains[j].id != b.trainId by {
          if j < i { assert trains[j].id < trains[i].id; }
          else { assert trains[i].id < trains[j].id; }
        }
        BookingsForAppend(bookings, b, trains[j].id);
        assert trains'[j] == trains[j];
      }
    }
  }

  /** Selling the next seat of `t` keeps it within bounds and accounted for. */
  lemma AccountedAfterSale(bookings: seq<Booking>, t: Train, b: Booking)
    requires SeatBounds(t) && Accounted(bookings, t) && t.availableSeats > 0
    requires b.trainId == t.id && b.seatNumber == SeatsSold(t) + 1
    ensures var t' := t.(availableSeats := t.availableSeats - 1);
            SeatBounds(t') && Accounted(bookings + [b], t')
  {
    BookingsForAppend(bookings, b, t.id);
    var before := BookingsFor(bookings, t.id);
    var f := BookingsFor(bookings + [b], t.id);
    assert f == before + [b];
    forall k | 0 <= k < |f| ensures f[k].seatNumber == k + 1 {
      if k < |before| {
        assert f[k] == before[k];
      }
    }
  }

  /** A booking request for one train leaves the row and the bookings of every
      other train untouched. */
  lemma BookSeatLeavesOtherTrains(db: Db, trainId: int, userId: int, j: nat)
    requires j < |db.trains| && db.trains[j].id != trainId
    ensures var db' := BookSeatStep(db, trainId, userId).0;
      |db'.trains| == |db.trains| && db'.trains[j] == db.trains[j]
      && BookingsFor(db'.bookings, db.trains[j].id) == BookingsFor(db.bookings, db.trains[j].id)
  {
    match FindTrain(db.trains, trainId)
    case None =>
    case Some(i) =>
      if db.trains[i].availableSeats > 0 {
        var t' := db.trains[i].(availableSeats := db.trains[i].availableSeats - 1);
        BookingsForAppend(db.bookings, Booking(userId, trainId, t'.totalSeats - t'.availableSeats), db.trains[j].id);
      }
  }

  /** In a consistent state every booking's seat lies within its train's
      capacity, and no two bookings of one train share a seat. */
  lemma SeatsUniquePerTrain(db: Db, k: nat, l: nat)
    requires Consistent(db)
    requires k < |db.bookings| && l < |db.bookings| && k != l
    requires db.bookings[k].trainId == db.bookings[l].trainId
    ensures db.bookings[k].seatNumber != db.bookings[l].seatNumber
  {
    assert HasTrain(db.trains, db.bookings[k].trainId);
    var i := FindTrain(db.trains, db.bookings[k].trainId).value;
    assert Accounted(db.bookings, db.trains[i]);
    if k < l {
      SeatsIncreaseAlongLedger(db.bookings, db.trains[i].id, k, l);
    } else {
      SeatsIncreaseAlongLedger(db.bookings, db.trains[i].id, l, k);
    }
  }

  /** In a consistent state the seats issued for a train are exactly
      1 .. (capacity - free seats), and there are exactly that many bookings. */
  lemma IssuedSeatsAreExactRange(db: Db, i: nat)
    requires Consistent(db) && i < |db.trains|
    ensures var t := db.trains[i];
      && |BookingsFor(db.bookings, t.id)| == SeatsSold(t)
      && 0 <= SeatsSold(t)
      && (0 <= t.totalSeats ==> 0 <= t.availableSeats <= t.totalSeats)
      && (forall n :: n in SeatSet(db.bookings, t.id) <==> 1 <= n <= SeatsSold(t))
  {
    var t := db.trains[i];
    assert Accounted(db.bookings, t) && SeatBounds(t);
    SeatSetIsRange(db.bookings, t.id);
  }

  /** Every issued seat lies in 1 .. the capacity of its train. */
  lemma SeatWithinCapacity(db: Db, k: nat)
    requires Consistent(db) && k < |db.bookings|
    ensures var i := FindTrain(db.trains, db.bookings[k].trainId);
      i.Some? && 1 <= db.bookings[k].seatNumber <= db.trains[i.value].totalSeats
  {
    var b := db.bookings[k];
    assert HasTrain(db.trains, b.trainId);
    var i := FindTrain(db.trains, b.trainId).value;
    IssuedSeatsAreExactRange(db, i);
    assert b.seatNumber in SeatSet(db.bookings, b.trainId);
  }
}
