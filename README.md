# Seat inventory and booking for a railway reservation service

This project models the seat-inventory and booking core of a small railway
reservation web service, and proves properties of the model in Dafny.

The service keeps two tables:

- a trains table. Each row has an id, a name, a source station, a destination
  station, a total seat capacity and a count of available seats;
- an append-only bookings table. Each row records a user id, a train id and a
  seat number.

Four request handlers touch these tables. Add train and book seat each change
the tables and end in a single commit, so each is modelled as one atomic step.
Check availability and booking details only read, so each is modelled as a
function of the tables:

- **add train**: with the right administrator key, insert a train whose
  available seats start equal to its capacity (`Reservation.AddTrainStep`);
- **book seat**: refuse a train that does not exist or has no seat left;
  otherwise decrement its counter, give the booking seat number
  `total_seats - available_seats` (read after the decrement) and append it
  (`Reservation.BookSeatStep`);
- **check availability**: list the trains whose source and destination both
  match exactly (`Catalog.CheckAvailability`);
- **booking details**: list the bookings of one user (`Ledger.BookingDetails`).

The tables are values: `Db` holds the trains in primary-key order, the bookings
in the order they were inserted, and the next fresh train id. The class
`Service.Railway` holds the same state as mutable fields. Its `AddTrain` and
`BookSeat` methods update those fields in place, and their postconditions say
the new state is what the step function computes from the old one.

The state invariant `Reservation.Consistent` has three parts:

- train ids increase along the table and stay below the next fresh id;
- every booking names a train in the table;
- every train obeys `SeatBounds` and `Accounted`. `SeatBounds` says
  available seats never exceed capacity, and never drop below zero once a seat
  has been sold. `Accounted` says the ledger holds exactly
  `total_seats - available_seats` bookings for the train, with seats 1, 2, 3,
  ... in ledger order.

`History.Run` processes any sequence of requests one after another, first come,
first served. `History.BookAll` processes a run of booking requests for one
train.

Files: `records.dfy` (row shapes), `catalog.dfy` (trains-table queries),
`ledger.dfy` (bookings-table queries), `reservation.dfy` (the state-changing
steps and the invariant), `history.dfy` (runs of requests), `service.dfy` (the
stateful object).

## Model

| member | source | states |
|---|---|---|
| Catalog.FindTrain | index.py:103 | The lookup by primary key returns the position of the first row with that id, and returns None exactly when no row has it. |
| Catalog.FindTrainIgnoresOtherColumns | index.py:103-108 | Changing a row's seat counter without changing its id leaves every lookup by id unchanged. |
| Catalog.FindTrainAppend | index.py:86-88 | Inserting a train keeps every earlier lookup. The new id becomes findable at the new last row. |
| Catalog.CheckAvailability | index.py:95-96 | The answer holds exactly the id, name and available seats of the trains whose source and destination both match. It is empty exactly when no train matches. |
| Catalog.CheckAvailabilityAppend | index.py:95-96 | The answer is built from the oldest row forward; proved by induction, a newly inserted train appears at the end of the answer if it is on the route, and the answer for the older rows is unchanged. |
| Catalog.AnswerIdsIncrease | index.py:95-96 | If ids strictly increase along the table, they strictly increase along the answer. So no train is listed twice and the answer keeps table order. |
| Ledger.BookingsFor | index.py:109-110 | The bookings of one train. The list is never longer than the ledger. Which bookings it holds is stated by `Ledger.BookingsForMembers`. |
| Ledger.BookingsForMembers | index.py:109-110 | A booking is listed for a train exactly when it is in the ledger and carries that train id. |
| Ledger.BookingsForAppend | index.py:110-111 | The list is built from the oldest booking forward; proved by induction, appending a booking adds it at the end of its own train's list and leaves every other train's list unchanged. |
| Ledger.SeatsIncreaseAlongLedger | index.py:108-109 | If a train's bookings are numbered from one, then its seat numbers strictly increase along the ledger, so no seat number repeats. |
| Ledger.SeatSetIsRange | index.py:108-109 | If a train's bookings are numbered from one, then its set of seat numbers is exactly 1 .. (its number of bookings). |
| Ledger.BookingDetails | index.py:117-118 | The answer holds exactly the train id and seat number of every booking whose user id matches. It is empty exactly when the user has no booking. |
| Ledger.BookingDetailsAppend | index.py:117-118 | The answer is built from the oldest booking forward; proved by induction, a new booking is reported last, to its owner only. |
| Ledger.BookingDetailsCount | index.py:117-118 | The answer has exactly as many entries as the ledger has bookings of that user: none is dropped and none is repeated. |
| Reservation.EmptyConsistent | index.py:122 | Empty tables satisfy the invariant. |
| Reservation.AvailabilityInIdOrder | index.py:95-96 | In a consistent state, train ids strictly increase along the availability answer. |
| Reservation.AddTrainStep | index.py:79-89 | Without any invariant: the request is refused exactly when the key differs from the administrator key, and then the state is unchanged. Otherwise the id handed out is the fresh one, the counter moves on by one, the bookings are kept, and one train row (available equal to total) is appended after the old rows. |
| Reservation.BookSeatStep | index.py:99-112 | Without any invariant: the request is refused exactly when no row has the id or the row has `available_seats <= 0`, and then the state is unchanged. The id counter and the number of trains never change. A granted seat is one more than the seats already sold on that train, and exactly that booking is appended to the ledger. |
| Reservation.NoBookingsForUnknownTrain | index.py:103-110 | In a consistent state, a train id that is not in the table has no bookings. |
| Reservation.AddTrainEffect | index.py:81-88 | A wrong key is refused and nothing changes. With the right key, exactly one train is appended. It gets the fresh id, which no existing row has, available equal to total, and no bookings. The id counter moves on by one. Nothing else changes. |
| Reservation.AddTrainPreservesConsistent | index.py:86-88 | Adding a train keeps the invariant. |
| Reservation.InsertPreservesConsistent | index.py:86 | Inserting an unbooked train whose counter equals its capacity, under the fresh id, keeps the invariant. |
| Reservation.BookSeatEffect | index.py:103-111 | A booking request fails exactly when the train is missing or has `available_seats <= 0`, and then nothing changes. On success: the train's counter drops by exactly 1; exactly one booking is appended; its seat number is one more than the number of seats already issued for that train and lies in 1 .. total; all other trains and all existing bookings are unchanged. |
| Reservation.BookSeatPreservesConsistent | index.py:103-111 | Every booking request keeps the invariant: counters stay in bounds and the ledger still accounts for every train. |
| Reservation.SellPreservesConsistent | index.py:108-111 | Selling the next seat of a train that has one keeps the invariant. |
| Reservation.SellKeepsFreshIds | index.py:108 | Decrementing a counter does not disturb the ordering or freshness of ids. |
| Reservation.SellKeepsKnownTrains | index.py:109-110 | The new booking names an existing train, and every older booking still does. |
| Reservation.SellKeepsAllAccounted | index.py:108-110 | After a sale every train is still in bounds and accounted for. This needs distinct ids so that the sale affects no other train. |
| Reservation.AccountedAfterSale | index.py:108-109 | Selling seat `sold + 1` of a train with a free seat keeps it in bounds and keeps its bookings numbered 1 .. sold. |
| Reservation.BookSeatLeavesOtherTrains | index.py:103-111 | A booking request for one train leaves every other train's row and its bookings unchanged. |
| Reservation.SeatsUniquePerTrain | index.py:108-109 | In a consistent state, no two bookings of the same train share a seat number. |
| Reservation.IssuedSeatsAreExactRange | index.py:86-111 | In a consistent state, each train has exactly `total - available` bookings. Its seat numbers are exactly 1 .. (total - available). A train with non-negative capacity has `0 <= available <= total`. |
| Reservation.SeatWithinCapacity | index.py:105-109 | In a consistent state, every booking's seat lies in 1 .. the capacity of its train. |
| History.RunPreservesConsistent | index.py:79-112 | Any sequence of add-train and book-seat requests keeps the invariant. |
| History.ReachableStatesConsistent | index.py:79-112 | Every state reachable from empty tables is consistent. |
| History.NextRequest | index.py:103-111 | One request for a train either gets the seat after those already issued, when it has a free seat, or is refused. Either way the train stays accounted for. |
| History.RepeatedBooking | index.py:105-109 | Successive requests for one train get seats sold+1, sold+2, ... with no gap and no repeat, until seats run out. Every later request is refused. |
| History.BookAllPreservesConsistent | index.py:99-111 | A run of booking requests for one train keeps the invariant. |
| History.RepeatedBookingCounter | index.py:105-108 | After a run of requests, the train's counter has dropped by exactly the number of requests granted, and nothing else in its row has changed. |
| History.FreshTrainSeats | index.py:86-109 | On a newly added train of capacity n, successive requests get seats 1, 2, ..., n. Every request after that is refused. |
| History.CapacityTwoScenario | index.py:86-109 | A train of capacity 2 and three requests give seats 1 and 2, one refusal, and 0 seats left. |
| Service.Railway.constructor | index.py:122 | The service starts with empty tables, which are consistent. |
| Service.Railway.AddTrain | index.py:79-89 | The fields are updated exactly as the add-train step says. A wrong key changes nothing. Otherwise one train is appended and the invariant is kept. |
| Service.Railway.BookSeat | index.py:99-112 | The fields are updated exactly as the book-seat step says. A refusal changes nothing, and the invariant is kept. |

## Left out

- Flask routing, JSON request parsing, response messages and HTTP status codes are not modelled. Each handler's result becomes an outcome value (`Added`, `Unauthorized`, `Booked(seat)`, `NoSeatsAvailable`).
- SQLAlchemy and SQLite persistence are replaced by in-memory sequences. Auto-increment train ids are replaced by a fresh-id counter that starts at 1.
- The booking row's own primary key is not modelled: a booking is identified by its position in the ledger.
- The booking timestamp is not modelled, because it comes from the wall clock. `Ledger.BookingDetails` therefore returns the train id and seat number only.
- Check availability: the database returns rows with no ORDER BY. The model fixes the order to primary-key order.
- Booking details: the query has no ORDER BY either. The model fixes the order to ledger (insertion) order.
- The add-train response carries only a message, not the new train's id. The model's `Added(trainId)` outcome exposes the id so that contracts can name the new row.
- Check availability: a missing query parameter (which matches no train, because the columns are non-null) is not modelled. Source and destination are always strings.
- User registration, login, password hashing and JWT tokens (issue, verify, one-hour expiry) are not modelled. The authenticated user id is an input to the book-seat step.
- A valid token whose user no longer exists raises an error inside the book-seat handler, before the commit, so nothing is stored. This case is not modelled.
- The administrator key is compared with the hard-coded constant. No other authentication is modelled.
- Concurrency is not modelled: each handler is one sequential, atomic step. The source has no locking of its own, so the per-train serialisation a concurrent deployment would need is outside this model.
- Integers are unbounded. The database's 64-bit integer columns cannot be reached by seat counts in practice.
- The source validates neither the type nor the sign of `total_seats`. The model takes any integer, as the code does, and does not impose a capacity of at least 1. The invariant `SeatBounds` therefore also covers trains registered with capacity zero or less: such a train can never be booked and its counter stays equal to its capacity.
- The source gives one answer for a missing train and for a sold-out train. The model therefore has a single refusal outcome, not separate "train not found" and "sold out" errors.
