/** The append-only bookings table and the queries over it. */
module Ledger {
  import opened Records

  /** The bookings of one train, kept in ledger order. */
  function BookingsFor(bookings: seq<Booking>, trainId: int): (r: seq<Booking>)
    ensures |r| <= |bookings|
  {
    if |bookings| == 0 then []
    else
      (if bookings[0].trainId == trainId then [bookings[0]] else []) + BookingsFor(bookings[1..], trainId)
  }

  /** A booking is listed for a train exactly when it is in the ledger and names that train. */
  lemma {:induction false} BookingsForMembers(bookings: seq<Booking>, trainId: int)
    ensures forall b :: b in BookingsFor(bookings, trainId) <==> b in bookings && b.trainId == trainId
  {
    if |bookings| > 0 {
      assert bookings == [bookings[0]] + bookings[1..];
      BookingsForMembers(bookings[1..], trainId);
    }
  }

  /** Appending a booking extends the list of its own train by that booking and
      leaves the list of every other train as it was. */
  lemma {:induction false} BookingsForAppend(bookings: seq<Booking>, b: Booking, trainId: int)
    ensures BookingsFor(bookings + [b], trainId)
         == BookingsFor(bookings, trainId) + if b.trainId == trainId then [b] else []
  {
    if |bookings| > 0 {
      assert (bookings + [b])[0] == bookings[0];
      assert (bookings + [b])[1..] == bookings[1..] + [b];
      BookingsForAppend(bookings[1..], b, trainId);
    }
  }

  /** The k-th booking of a train (counting from 0) holds seat k + 1. */
  predicate NumberedFromOne(ofTrain: seq<Booking>)
  {
    forall k :: 0 <= k < |ofTrain| ==> ofTrain[k].seatNumber == k + 1
  }

  /** The seat numbers handed out for one train. */
  function SeatSet(bookings: seq<Booking>, trainId: int): set<int>
  {
    set b | b in bookings && b.trainId == trainId :: b.seatNumber
  }

  /** When a train's bookings are numbered from one, its seats are exactly
      1 .. (number of its bookings), and along the ledger they strictly increase,
      so no seat of that train was handed out twice. */
  lemma {:induction false} SeatsIncreaseAlongLedger(bookings: seq<Booking>, trainId: int, k: int, l: int)
    requires NumberedFromOne(BookingsFor(bookings, trainId))
    requires 0 <= k < l < |bookings|
    requires bookings[k].trainId == trainId && bookings[l].trainId == trainId
    ensures bookings[k].seatNumber < bookings[l].seatNumber
  {
    var n := |bookings|;
    var older := bookings[..n - 1];
    var last := bookings[n - 1];
    assert bookings == older + [last];
    BookingsForAppend(older, last, trainId);
    var prefix := BookingsFor(older, trainId);
    var full := BookingsFor(bookings, trainId);
    BookingsForMembers(older, trainId);
    forall j | 0 <= j < |prefix| ensures prefix[j].seatNumber == j + 1 {
      assert prefix[j] == full[j];
    }
    if l < n - 1 {
      SeatsIncreaseAlongLedger(older, trainId, k, l);
    } else {
      assert bookings[k] in older;
      assert bookings[k] in prefix;
      var p :| 0 <= p < |prefix| && prefix[p] == bookings[k];
      assert full[|prefix|] == last;
    }
  }

  lemma SeatSetIsRange(bookings: seq<Booking>, trainId: int)
    requires NumberedFromOne(BookingsFor(bookings, trainId))
    ensures forall n :: n in SeatSet(bookings, trainId) <==> 1 <= n <= |BookingsFor(bookings, trainId)|
  {
    var f := BookingsFor(bookings, trainId);
    BookingsForMembers(bookings, trainId);
    forall n | 1 <= n <= |f| ensures n in SeatSet(bookings, trainId) {
      assert f[n - 1] in f;
    }
    forall s | s in SeatSet(bookings, trainId) ensures 1 <= s <= |f| {
      var b :| b in bookings && b.trainId == trainId && b.seatNumber == s;
      assert b in f;
      var p :| 0 <= p < |f| && f[p] == b;
    }
  }

  /** One entry of the booking-details answer (the timestamp column omitted). */
  datatype Detail = Detail(trainId: int, seatNumber: int)

  /** The booking-details query: every booking made by `userId`, in ledger
      order (the database returns them with no ORDER BY; the model fixes this one). */
  function BookingDetails(bookings: seq<Booking>, userId: int): (r: seq<Detail>)
    ensures |r| <= |bookings|
    ensures forall d :: d in r <==>
      exists b :: b in bookings && b.userId == userId && d == Detail(b.trainId, b.seatNumber)
    ensures r == [] <==> forall b :: b in bookings ==> b.userId != userId
  {
    if |bookings| == 0 then []
    else
      var first := bookings[0];
      assert forall b :: b in bookings <==> b == first || b in bookings[1..];
      (if first.userId == userId then [Detail(first.trainId, first.seatNumber)] else [])
        + BookingDetails(bookings[1..], userId)
  }

  /** A new booking is reported last to its owner and to nobody else. */
  lemma {:induction false} BookingDetailsAppend(bookings: seq<Booking>, b: Booking, userId: int)
    ensures BookingDetails(bookings + [b], userId)
         == BookingDetails(bookings, userId)
            + if b.userId == userId then [Detail(b.trainId, b.seatNumber)] else []
  {
    if |bookings| > 0 {
      assert (bookings + [b])[0] == bookings[0];
      assert (bookings + [b])[1..] == bookings[1..] + [b];
      BookingDetailsAppend(bookings[1..], b, userId);
    }
  }

  /** The positions in the ledger of the bookings made by `userId`. */
  function UserPositions(bookings: seq<Booking>, userId: int): set<int>
  {
    set k | 0 <= k < |bookings| && bookings[k].userId == userId
  }

  /** The answer has one entry per booking of the user: none is dropped or repeated. */
  lemma {:induction false} BookingDetailsCount(bookings: seq<Booking>, userId: int)
    ensures |BookingDetails(bookings, userId)| == |UserPositions(bookings, userId)|
  {
    if |bookings| > 0 {
      var n := |bookings| - 1;
      var older := bookings[..n];
      var last := bookings[n];
      assert bookings == older + [last];
      BookingDetailsAppend(older, last, userId);
      BookingDetailsCount(older, userId);
      var before := UserPositions(older, userId);
      var after := UserPositions(bookings, userId);
      if last.userId == userId {
        assert after == before + {n};
        assert n !in before;
      } else {
        assert after == before;
      }
    }
  }
}
