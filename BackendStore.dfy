/** The booking manager of the backend (Nishit/flight_booking_backend.py) as values: its two
    dicts and its list of booking rows form a `Store`, and each operation is a function from
    a store to the new store and the message the manager returns. The class-based model in
    module Backend is proved to follow these functions. */
module BackendStore {
  import opened Collections
  import opened Text
  import opened OrderedDicts
  import opened Records

  /** A row of the bookings list or file, as `csv.reader` yields it. */
  type Row = seq<string>

  /** `Passenger.add_flight`: the id is appended unless the passenger already holds it. */
  function WithFlight(booked: seq<string>, fid: string): (r: seq<string>)
    ensures fid in r
    ensures fid in booked ==> r == booked
    ensures forall x :: x in r <==> x in booked || x == fid
    ensures |booked| <= |r| <= |booked| + 1 && r[..|booked|] == booked
    ensures NoDuplicates(booked) ==> NoDuplicates(r)
  {
    if fid in booked then booked else booked + [fid]
  }

  /** `Passenger.remove_flight`: the first occurrence of the id is removed if there is one. */
  function WithoutFlight(booked: seq<string>, fid: string): (r: seq<string>)
    ensures fid !in booked ==> r == booked
    ensures fid in booked ==> var i := IndexOf(booked, fid).value; r == booked[..i] + booked[i + 1..]
    ensures multiset(r) == multiset(booked) - multiset{fid}
    ensures NoDuplicates(booked) ==> NoDuplicates(r) && fid !in r
  {
    if NoDuplicates(booked) then RemoveFirstNoDuplicates(booked, fid); RemoveFirst(booked, fid)
    else RemoveFirst(booked, fid)
  }

  lemma WithFlightIdempotent(booked: seq<string>, fid: string)
    ensures WithFlight(WithFlight(booked, fid), fid) == WithFlight(booked, fid)
  {
  }

  /** Removing a flight the passenger did not hold before adding it restores the list. */
  lemma WithoutFlightUndoesWithFlight(booked: seq<string>, fid: string)
    requires fid !in booked
    ensures WithoutFlight(WithFlight(booked, fid), fid) == booked
  {
    RemoveFirstAfterAppend(booked, fid);
  }

  /** The two dicts and the booking rows of a `BookingManager`. */
  datatype Store = Store(
    flights: Dict<FlightRow>,
    passengers: Dict<PassengerRecord>,
    bookings: seq<Row>)
  {
    /** Both dicts are well formed and file every record under its own id. */
    ghost predicate Valid() {
      && flights.Valid()
      && passengers.Valid()
      && (forall id :: id in flights.items ==> flights.items[id].flightId == id)
      && (forall id :: id in passengers.items ==> passengers.items[id].passengerId == id)
    }

    /** What booking and cancelling maintain: no flight has a negative seat count and no
        passenger holds a flight id twice. (Loading does not check either.) */
    ghost predicate Consistent() {
      && (forall id :: id in flights.items ==> flights.items[id].seatsAvailable >= 0)
      && (forall id :: id in passengers.items ==> NoDuplicates(passengers.items[id].bookedFlights))
    }
  }

  /** The store after an operation and the message the operation returns. */
  datatype Outcome = Outcome(store: Store, message: string)

  const BookFailed := "Booking failed: "
  const BookNotFound := BookFailed + "Flight or passenger not found."
  const BookRefused := BookFailed + "No seats available or duplicate booking."
  const CancelFailed := "Cancellation failed: "
  const CancelNotFound := CancelFailed + "Flight or passenger not found."
  const CancelNoBooking := CancelFailed + "Booking not found."

  function BookedMessage(fid: string, pid: string): string {
    "Flight " + fid + " booked successfully for passenger " + pid + "."
  }

  function CanceledMessage(fid: string, pid: string): string {
    "Booking for flight " + fid + " canceled for passenger " + pid + "."
  }

  /** Every message tells its case apart from the others. */
  lemma MessagesDiffer(fid: string, pid: string)
    ensures BookedMessage(fid, pid) != BookNotFound && BookedMessage(fid, pid) != BookRefused
    ensures BookNotFound != BookRefused
    ensures CanceledMessage(fid, pid) != CancelNotFound
    ensures CanceledMessage(fid, pid) != CancelNoBooking
    ensures CancelNotFound != CancelNoBooking
  {
    assert BookedMessage(fid, pid)[0] == 'F' && BookNotFound[0] == 'B' && BookRefused[0] == 'B';
    assert BookNotFound[16] == 'F' && BookRefused[16] == 'N';
    assert CanceledMessage(fid, pid)[0] == 'B' && CancelNotFound[0] == 'C';
    assert CancelNoBooking[0] == 'C';
    assert |CancelNotFound| != |CancelNoBooking|;
  }

  /** `book_flight(flight_id, passenger_id)` */
  function Book(s: Store, fid: string, pid: string): (o: Outcome)
    requires s.Valid()
    ensures o.store.Valid()
    ensures o.message == BookNotFound <==> fid !in s.flights.items || pid !in s.passengers.items
    ensures o.message == BookRefused <==>
      && fid in s.flights.items && pid in s.passengers.items
      && (s.flights.items[fid].seatsAvailable <= 0 || fid in s.passengers.items[pid].bookedFlights)
    ensures o.message == BookedMessage(fid, pid) <==>
      && fid in s.flights.items && pid in s.passengers.items
      && s.flights.items[fid].seatsAvailable > 0 && fid !in s.passengers.items[pid].bookedFlights
    ensures o.message != BookedMessage(fid, pid) ==> o.store == s
    ensures o.message == BookedMessage(fid, pid) ==>
      var f := s.flights.items[fid];
      var p := s.passengers.items[pid];
      && o.store.flights.keys == s.flights.keys
      && o.store.flights.items == s.flights.items[fid := f.(seatsAvailable := f.seatsAvailable - 1)]
      && o.store.passengers.keys == s.passengers.keys
      && o.store.passengers.items == s.passengers.items[pid := p.(bookedFlights := p.bookedFlights + [fid])]
      && o.store.bookings == s.bookings + [["BOOK", fid, pid, f.date]]
  {
    MessagesDiffer(fid, pid);
    if fid in s.flights.items && pid in s.passengers.items then
      var f := s.flights.items[fid];
      var p := s.passengers.items[pid];
      if f.seatsAvailable > 0 && fid !in p.bookedFlights then
        Outcome(Booked(s, fid, pid), BookedMessage(fid, pid))
      else
        Outcome(s, BookRefused)
    else
      Outcome(s, BookNotFound)
  }

  /** `cancel_booking(flight_id, passenger_id)` */
  function Cancel(s: Store, fid: string, pid: string): (o: Outcome)
    requires s.Valid()
    ensures o.store.Valid()
    ensures o.message == CancelNotFound <==> fid !in s.flights.items || pid !in s.passengers.items
    ensures o.message == CancelNoBooking <==>
      fid in s.flights.items && pid in s.passengers.items && fid !in s.passengers.items[pid].bookedFlights
    ensures o.message == CanceledMessage(fid, pid) <==>
      fid in s.flights.items && pid in s.passengers.items && fid in s.passengers.items[pid].bookedFlights
    ensures o.message != CanceledMessage(fid, pid) ==> o.store == s
    ensures o.message == CanceledMessage(fid, pid) ==>
      var f := s.flights.items[fid];
      var p := s.passengers.items[pid];
      && o.store.flights.keys == s.flights.keys
      && o.store.flights.items == s.flights.items[fid := f.(seatsAvailable := f.seatsAvailable + 1)]
      && o.store.passengers.keys == s.passengers.keys
      && o.store.passengers.items == s.passengers.items[pid := p.(bookedFlights := WithoutFlight(p.bookedFlights, fid))]
      && o.store.bookings == s.bookings + [["CANCEL", fid, pid, f.date]]
  {
    MessagesDiffer(fid, pid);
    if fid in s.flights.items && pid in s.passengers.items then
      var f := s.flights.items[fid];
      var p := s.passengers.items[pid];
      if fid in p.bookedFlights then
        Outcome(Canceled(s, fid, pid), CanceledMessage(fid, pid))
      else
        Outcome(s, CancelNoBooking)
    else
      Outcome(s, CancelNotFound)
  }

  /** `flight.seats_available += delta` on the flight filed under `fid`. */
  function SeatsAdjusted(s: Store, fid: string, delta: int): (r: Store)
    requires s.Valid() && fid in s.flights.items
    ensures r.Valid()
    ensures var f := s.flights.items[fid];
      && r.flights.keys == s.flights.keys
      && r.flights.items == s.flights.items[fid := f.(seatsAvailable := f.seatsAvailable + delta)]
    ensures r.passengers == s.passengers && r.bookings == s.bookings
  {
    var f := s.flights.items[fid];
    s.(flights := s.flights.Put(fid, f.(seatsAvailable := f.seatsAvailable + delta)))
  }

  /** `passenger.add_flight(fid)` on the passenger filed under `pid`. */
  function FlightAdded(s: Store, pid: string, fid: string): (r: Store)
    requires s.Valid() && pid in s.passengers.items
    ensures r.Valid()
    ensures var p := s.passengers.items[pid];
      && r.passengers.keys == s.passengers.keys
      && r.passengers.items == s.passengers.items[pid := p.(bookedFlights := WithFlight(p.bookedFlights, fid))]
    ensures r.flights == s.flights && r.bookings == s.bookings
  {
    var p := s.passengers.items[pid];
    s.(passengers := s.passengers.Put(pid, p.(bookedFlights := WithFlight(p.bookedFlights, fid))))
  }

  /** `passenger.remove_flight(fid)` on the passenger filed under `pid`. */
  function FlightRemoved(s: Store, pid: string, fid: string): (r: Store)
    requires s.Valid() && pid in s.passengers.items
    ensures r.Valid()
    ensures var p := s.passengers.items[pid];
      && r.passengers.keys == s.passengers.keys
      && r.passengers.items == s.passengers.items[pid := p.(bookedFlights := WithoutFlight(p.bookedFlights, fid))]
    ensures r.flights == s.flights && r.bookings == s.bookings
  {
    var p := s.passengers.items[pid];
    s.(passengers := s.passengers.Put(pid, p.(bookedFlights := WithoutFlight(p.bookedFlights, fid))))
  }

  /** `self.bookings.append([kind, fid, pid, flight.date])` */
  function Logged(s: Store, kind: string, fid: string, pid: string): (r: Store)
    requires fid in s.flights.items
    ensures r.flights == s.flights && r.passengers == s.passengers
    ensures r.bookings == s.bookings + [[kind, fid, pid, s.flights.items[fid].date]]
  {
    s.(bookings := s.bookings + [[kind, fid, pid, s.flights.items[fid].date]])
  }

  /** The store after a booking goes through, in the order `book_flight` makes the changes:
      one seat fewer on the flight, the flight added to the passenger's list, a BOOK row. */
  function Booked(s: Store, fid: string, pid: string): Store
    requires s.Valid() && fid in s.flights.items && pid in s.passengers.items
  {
    Logged(FlightAdded(SeatsAdjusted(s, fid, -1), pid, fid), "BOOK", fid, pid)
  }

  /** The store after a cancellation goes through, in the order `cancel_booking` makes the
      changes: one seat more on the flight, the flight removed from the passenger's list, a
      CANCEL row. */
  function Canceled(s: Store, fid: string, pid: string): Store
    requires s.Valid() && fid in s.flights.items && pid in s.passengers.items
  {
    Logged(FlightRemoved(SeatsAdjusted(s, fid, 1), pid, fid), "CANCEL", fid, pid)
  }

  /** Booking keeps every seat count non-negative and every passenger's list free of
      duplicates. */
  lemma BookPreservesConsistency(s: Store, fid: string, pid: string)
    requires s.Valid() && s.Consistent()
    ensures Book(s, fid, pid).store.Consistent()
  {
    var o := Book(s, fid, pid);
    if o.message == BookedMessage(fid, pid) {
      var p := s.passengers.items[pid];
      NoDuplicatesAppend(p.bookedFlights, fid);
    }
  }

  /** Cancelling keeps every seat count non-negative and every passenger's list free of
      duplicates; the cancelled id is then gone from the passenger's list. */
  lemma CancelPreservesConsistency(s: Store, fid: string, pid: string)
    requires s.Valid() && s.Consistent()
    ensures Cancel(s, fid, pid).store.Consistent()
    ensures fid in s.flights.items && pid in s.passengers.items ==>
      fid !in Cancel(s, fid, pid).store.passengers.items[pid].bookedFlights
  {
    var o := Cancel(s, fid, pid);
    if o.message == CanceledMessage(fid, pid) {
      RemoveFirstNoDuplicates(s.passengers.items[pid].bookedFlights, fid);
    }
  }

  /** Booking the same flight again for the same passenger is refused and changes nothing. */
  lemma BookTwiceRefused(s: Store, fid: string, pid: string)
    requires s.Valid()
    requires Book(s, fid, pid).message == BookedMessage(fid, pid)
    ensures Book(Book(s, fid, pid).store, fid, pid) == Outcome(Book(s, fid, pid).store, BookRefused)
  {
  }

  /** Cancelling right after a successful booking restores every flight and passenger; only
      the two booking rows remain. */
  lemma CancelUndoesBook(s: Store, fid: string, pid: string)
    requires s.Valid()
    requires Book(s, fid, pid).message == BookedMessage(fid, pid)
    ensures var o := Cancel(Book(s, fid, pid).store, fid, pid);
      && o.message == CanceledMessage(fid, pid)
      && o.store.flights == s.flights
      && o.store.passengers == s.passengers
      && o.store.bookings == s.bookings + [["BOOK", fid, pid, s.flights.items[fid].date]]
                                        + [["CANCEL", fid, pid, s.flights.items[fid].date]]
  {
    var t := Booked(s, fid, pid);
    assert Book(s, fid, pid).store == t;
    assert fid in t.passengers.items[pid].bookedFlights;
    assert Cancel(t, fid, pid).store == Canceled(t, fid, pid);
    CanceledBooked(s, fid, pid);
  }

  /** The three updates of a cancellation undo those of the booking before it. */
  lemma CanceledBooked(s: Store, fid: string, pid: string)
    requires s.Valid() && fid in s.flights.items && pid in s.passengers.items
    requires fid !in s.passengers.items[pid].bookedFlights
    ensures var o := Canceled(Booked(s, fid, pid), fid, pid);
      && o.flights == s.flights
      && o.passengers == s.passengers
      && o.bookings == s.bookings + [["BOOK", fid, pid, s.flights.items[fid].date]]
                                  + [["CANCEL", fid, pid, s.flights.items[fid].date]]
  {
    var f := s.flights.items[fid];
    var p := s.passengers.items[pid];
    var f1 := f.(seatsAvailable := f.seatsAvailable - 1);
    var p1 := p.(bookedFlights := WithFlight(p.bookedFlights, fid));
    var s1 := SeatsAdjusted(s, fid, -1);
    var s2 := FlightAdded(s1, pid, fid);
    var t := Logged(s2, "BOOK", fid, pid);
    assert t == Booked(s, fid, pid);
    assert s1.passengers.items[pid] == p;
    assert t.flights == s.flights.Put(fid, f1);
    assert t.passengers == s.passengers.Put(pid, p1);
    assert t.bookings == s.bookings + [["BOOK", fid, pid, f.date]];
    var o := Canceled(t, fid, pid);
    WithoutFlightUndoesWithFlight(p.bookedFlights, fid);
    assert f1.(seatsAvailable := f1.seatsAvailable + 1) == f;
    assert p1.(bookedFlights := WithoutFlight(p1.bookedFlights, fid)) == p;
    assert o.flights == s.flights.Put(fid, f1).Put(fid, f);
    PutPut(s.flights, fid, f1, f);
    PutSame(s.flights, fid);
    assert o.passengers == s.passengers.Put(pid, p1).Put(pid, p);
    PutPut(s.passengers, pid, p1, p);
    PutSame(s.passengers, pid);
    assert o.bookings == t.bookings + [["CANCEL", fid, pid, f.date]];
  }

  /** A flight with one seat: the first booking takes the seat, the
      second is refused. */
  lemma SingleSeatScenario()
    ensures
      var s := Store(
        Dict(map["F1" := FlightRow("F1", "A", "B", "D", "T", 1)], ["F1"]),
        Dict(map["P1" := PassengerRecord("P1", "N", "C", [])], ["P1"]),
        []);
      var first := Book(s, "F1", "P1");
      var second := Book(first.store, "F1", "P1");
      && first.message == BookedMessage("F1", "P1")
      && first.store.flights.items["F1"].seatsAvailable == 0
      && first.store.passengers.items["P1"].bookedFlights == ["F1"]
      && second.message == BookRefused
      && second.store == first.store
  {
    var s := Store(
      Dict(map["F1" := FlightRow("F1", "A", "B", "D", "T", 1)], ["F1"]),
      Dict(map["P1" := PassengerRecord("P1", "N", "C", [])], ["P1"]),
      []);
    assert s.Valid();
    BookTwiceRefused(s, "F1", "P1");
  }

  // ---------------------------------------------------------------------------------------
  // Listing and searching

  /** `view_schedule()`: every flight, in dict order; also the rows `save_flights` writes. */
  function Schedule(s: Store): (r: seq<FlightRow>)
    requires s.Valid()
    ensures |r| == |s.flights.keys|
    ensures forall i :: 0 <= i < |r| ==> r[i].flightId == s.flights.keys[i] && s.flights.items[r[i].flightId] == r[i]
    ensures forall id :: id in s.flights.items ==> s.flights.items[id] in r
  {
    s.flights.Values()
  }

  /** The passenger rows in dict order, as `search_passenger` and `save_passengers` see them. */
  function PassengerRows(s: Store): (r: seq<PassengerRow>)
    requires s.Valid()
    ensures |r| == |s.passengers.keys|
    ensures forall i :: 0 <= i < |r| ==>
      r[i].passengerId == s.passengers.keys[i] && PassengerToRow(s.passengers.items[r[i].passengerId]) == r[i]
  {
    MapSeq(s.passengers.Values(), PassengerToRow)
  }

  /** `query.lower() in (flight_id + departure + arrival).lower()` */
  predicate FlightMatches(f: FlightRow, query: string) {
    Contains(Lower(f.flightId + f.departure + f.arrival), Lower(query))
  }

  /** `query.lower() in (passenger_id + name + contact_details).lower()` */
  predicate PassengerMatches(p: PassengerRow, query: string) {
    Contains(Lower(p.passengerId + p.name + p.contactDetails), Lower(query))
  }

  function MatchingFlights(rows: seq<FlightRow>, query: string): seq<FlightRow> {
    Filter(rows, f => FlightMatches(f, query))
  }

  function MatchingPassengers(rows: seq<PassengerRow>, query: string): seq<PassengerRow> {
    Filter(rows, p => PassengerMatches(p, query))
  }

  /** `search_flight(query)` */
  function SearchFlight(s: Store, query: string): (r: seq<FlightRow>)
    requires s.Valid()
    ensures |r| <= |s.flights.keys|
    ensures forall i :: 0 <= i < |r| ==>
      && r[i].flightId in s.flights.items && s.flights.items[r[i].flightId] == r[i]
      && FlightMatches(r[i], query)
  {
    MatchingFlights(Schedule(s), query)
  }

  /** `search_passenger(query)` */
  function SearchPassenger(s: Store, query: string): (r: seq<PassengerRow>)
    requires s.Valid()
    ensures |r| <= |s.passengers.keys|
    ensures forall i :: 0 <= i < |r| ==>
      && r[i].passengerId in s.passengers.items && PassengerToRow(s.passengers.items[r[i].passengerId]) == r[i]
      && PassengerMatches(r[i], query)
  {
    MatchingPassengers(PassengerRows(s), query)
  }

  /** The flight search returns exactly the listed flights whose text contains the query,
      ignoring ASCII case. */
  lemma SearchFlightExact(s: Store, query: string, f: FlightRow)
    requires s.Valid()
    ensures f in SearchFlight(s, query) <==> f in Schedule(s) && FlightMatches(f, query)
  {
    FilterMembership(Schedule(s), g => FlightMatches(g, query), f);
  }

  /** The passenger search returns exactly the passenger rows whose text contains the query,
      ignoring ASCII case. */
  lemma SearchPassengerExact(s: Store, query: string, p: PassengerRow)
    requires s.Valid()
    ensures p in SearchPassenger(s, query) <==> p in PassengerRows(s) && PassengerMatches(p, query)
  {
    FilterMembership(PassengerRows(s), q => PassengerMatches(q, query), p);
  }

  /** The search keeps the dict order: searching two consecutive parts of the listing gives
      the two results one after the other. */
  lemma MatchingFlightsInOrder(a: seq<FlightRow>, b: seq<FlightRow>, query: string)
    ensures MatchingFlights(a + b, query) == MatchingFlights(a, query) + MatchingFlights(b, query)
  {
    FilterConcat(a, b, f => FlightMatches(f, query));
  }

  lemma MatchingPassengersInOrder(a: seq<PassengerRow>, b: seq<PassengerRow>, query: string)
    ensures MatchingPassengers(a + b, query) == MatchingPassengers(a, query) + MatchingPassengers(b, query)
  {
    FilterConcat(a, b, p => PassengerMatches(p, query));
  }

  /** An empty query matches every flight: the search is then the whole schedule. */
  lemma SearchFlightEmptyQuery(s: Store)
    requires s.Valid()
    ensures SearchFlight(s, "") == Schedule(s)
  {
    var rows := Schedule(s);
    forall i | 0 <= i < |rows| ensures FlightMatches(rows[i], "") {
      assert Lower("") == "";
      ContainsEmpty(Lower(rows[i].flightId + rows[i].departure + rows[i].arrival));
    }
    FilterKeepsAll(rows, f => FlightMatches(f, ""));
  }

  /** An empty query matches every passenger. */
  lemma SearchPassengerEmptyQuery(s: Store)
    requires s.Valid()
    ensures SearchPassenger(s, "") == PassengerRows(s)
  {
    var rows := PassengerRows(s);
    forall i | 0 <= i < |rows| ensures PassengerMatches(rows[i], "") {
      assert Lower("") == "";
      ContainsEmpty(Lower(rows[i].passengerId + rows[i].name + rows[i].contactDetails));
    }
    FilterKeepsAll(rows, p => PassengerMatches(p, ""));
  }

  /** Queries that differ only in ASCII case give the same results. */
  lemma SearchFlightIgnoresCase(s: Store, q1: string, q2: string)
    requires s.Valid()
    requires Lower(q1) == Lower(q2)
    ensures SearchFlight(s, q1) == SearchFlight(s, q2)
  {
    FilterCongruent(Schedule(s), f => FlightMatches(f, q1), f => FlightMatches(f, q2));
  }

  lemma SearchPassengerIgnoresCase(s: Store, q1: string, q2: string)
    requires s.Valid()
    requires Lower(q1) == Lower(q2)
    ensures SearchPassenger(s, q1) == SearchPassenger(s, q2)
  {
    FilterCongruent(PassengerRows(s), p => PassengerMatches(p, q1), p => PassengerMatches(p, q2));
  }

  /** Searching for a flight's own id finds that flight. */
  lemma SearchFlightFindsId(s: Store, fid: string)
    requires s.Valid() && fid in s.flights.items
    ensures s.flights.items[fid] in SearchFlight(s, fid)
  {
    var f := s.flights.items[fid];
    var text := Lower(f.flightId + f.departure + f.arrival);
    assert text[0..|fid|] == Lower(fid);
    ContainsIffOccurs(text, Lower(fid));
    assert OccursAt(text, Lower(fid), 0);
    var i :| 0 <= i < |s.flights.keys| && s.flights.keys[i] == fid;
    assert Schedule(s)[i] == f;
    SearchFlightExact(s, fid, f);
  }

  // ---------------------------------------------------------------------------------------
  // Loading, saving and the booking-row filter

  /** A passenger row as the loader turns it into a record (the Booked Flights rule of the
      loader). */
  function LoadPassenger(row: PassengerRow): PassengerRecord {
    PassengerRecord(row.passengerId, row.name, row.contactDetails, ParseBookedFlights(row.bookedFlights))
  }

  /** `load_data` on already-read rows: each flight and passenger goes into its dict under its
      id, and the booking rows are kept as they are. */
  function Load(flightRows: seq<FlightRow>, passengerRows: seq<PassengerRow>, bookingRows: seq<Row>): (s: Store)
    ensures s.Valid()
    ensures s.bookings == bookingRows
    ensures s.flights.keys == Distinct(MapSeq(flightRows, FlightKey))
    ensures s.passengers.keys == Distinct(MapSeq(passengerRows, RowKey))
    ensures forall id :: id in s.flights.items <==> exists i :: 0 <= i < |flightRows| && flightRows[i].flightId == id
    ensures forall id :: id in s.passengers.items <==>
      exists i :: 0 <= i < |passengerRows| && passengerRows[i].passengerId == id
    ensures forall i :: 0 <= i < |flightRows| && LastWithKey(MapSeq(flightRows, FlightKey), i) ==>
      s.flights.items[flightRows[i].flightId] == flightRows[i]
    ensures forall i :: 0 <= i < |passengerRows| && LastWithKey(MapSeq(passengerRows, RowKey), i) ==>
      s.passengers.items[passengerRows[i].passengerId] == LoadPassenger(passengerRows[i])
  {
    LoadKeys(flightRows, passengerRows);
    LoadDomain(flightRows, passengerRows);
    LoadLastWins(flightRows, passengerRows);
    Store(FromSeq(flightRows, FlightKey), FromSeq(MapSeq(passengerRows, LoadPassenger), PassengerKey), bookingRows)
  }

  lemma LoadKeys(flightRows: seq<FlightRow>, passengerRows: seq<PassengerRow>)
    ensures FromSeq(flightRows, FlightKey).keys == Distinct(MapSeq(flightRows, FlightKey))
    ensures FromSeq(MapSeq(passengerRows, LoadPassenger), PassengerKey).keys == Distinct(MapSeq(passengerRows, RowKey))
  {
    var records := MapSeq(passengerRows, LoadPassenger);
    FromSeqKeys(flightRows, FlightKey);
    FromSeqKeys(records, PassengerKey);
    assert MapSeq(records, PassengerKey) == MapSeq(passengerRows, RowKey);
  }

  lemma LoadDomain(flightRows: seq<FlightRow>, passengerRows: seq<PassengerRow>)
    ensures forall id :: id in FromSeq(flightRows, FlightKey).items <==>
      exists i :: 0 <= i < |flightRows| && flightRows[i].flightId == id
    ensures forall id :: id in FromSeq(MapSeq(passengerRows, LoadPassenger), PassengerKey).items <==>
      exists i :: 0 <= i < |passengerRows| && passengerRows[i].passengerId == id
  {
    var records := MapSeq(passengerRows, LoadPassenger);
    FromSeqOnlyGivenKeys(flightRows, FlightKey);
    FromSeqOnlyGivenKeys(records, PassengerKey);
    assert forall i :: 0 <= i < |passengerRows| ==> PassengerKey(records[i]) == passengerRows[i].passengerId;
  }

  function RowKey(p: PassengerRow): string { p.passengerId }

  /** No later id in `ids` equals the one at `i`. */
  predicate LastWithKey(ids: seq<string>, i: int)
    requires 0 <= i < |ids|
  {
    forall j :: i < j < |ids| ==> ids[j] != ids[i]
  }

  lemma LoadLastWins(flightRows: seq<FlightRow>, passengerRows: seq<PassengerRow>)
    ensures forall i :: 0 <= i < |flightRows| && LastWithKey(MapSeq(flightRows, FlightKey), i) ==>
      FromSeq(flightRows, FlightKey).items[flightRows[i].flightId] == flightRows[i]
    ensures forall i :: 0 <= i < |passengerRows| && LastWithKey(MapSeq(passengerRows, RowKey), i) ==>
      FromSeq(MapSeq(passengerRows, LoadPassenger), PassengerKey).items[passengerRows[i].passengerId] ==
        LoadPassenger(passengerRows[i])
  {
    forall i | 0 <= i < |flightRows| && LastWithKey(MapSeq(flightRows, FlightKey), i)
      ensures FromSeq(flightRows, FlightKey).items[flightRows[i].flightId] == flightRows[i]
    {
      assert forall j :: i < j < |flightRows| ==> MapSeq(flightRows, FlightKey)[j] == FlightKey(flightRows[j]);
      FromSeqLastWins(flightRows, FlightKey, i);
    }
    var records := MapSeq(passengerRows, LoadPassenger);
    forall i | 0 <= i < |passengerRows| && LastWithKey(MapSeq(passengerRows, RowKey), i)
      ensures FromSeq(records, PassengerKey).items[passengerRows[i].passengerId] == LoadPassenger(passengerRows[i])
    {
      assert forall j :: i < j < |passengerRows| ==> MapSeq(passengerRows, RowKey)[j] == PassengerKey(records[j]);
      FromSeqLastWins(records, PassengerKey, i);
    }
  }

  /** Saving a store and loading what was saved gives the same store, provided no booked id
      holds a comma, exactly when no passenger holds the list `[""]` (which is saved as an
      empty field and read back as no bookings). */
  lemma SaveLoadRoundTrip(s: Store)
    requires s.Valid()
    requires forall id :: id in s.passengers.items ==> CommaFree(s.passengers.items[id].bookedFlights)
    ensures Load(Schedule(s), PassengerRows(s), s.bookings) == s <==>
      forall id :: id in s.passengers.items ==> s.passengers.items[id].bookedFlights != [""]
  {
    FromSeqValues(s.flights, FlightKey);
    var reloaded := ReloadPassengers(s.passengers);
    var t := Load(Schedule(s), PassengerRows(s), s.bookings);
    assert t == Store(s.flights, reloaded, s.bookings);
    ReloadedPassengersSame(s.passengers);
  }

  /** Each passenger record comes back from its saved row exactly when it does not hold
      `[""]`. */
  lemma ReloadedPassengersSame(d: Dict<PassengerRecord>)
    requires forall id :: id in d.items ==> CommaFree(d.items[id].bookedFlights)
    ensures (map id | id in d.items :: LoadPassenger(PassengerToRow(d.items[id]))) == d.items <==>
      forall id :: id in d.items ==> d.items[id].bookedFlights != [""]
  {
    var reloaded := map id | id in d.items :: LoadPassenger(PassengerToRow(d.items[id]));
    if forall id :: id in d.items ==> d.items[id].bookedFlights != [""] {
      forall id | id in d.items ensures reloaded[id] == d.items[id] {
        BookedFlightsRoundTrip(d.items[id].bookedFlights);
      }
      assert reloaded == d.items;
    } else {
      var id :| id in d.items && d.items[id].bookedFlights == [""];
      assert Join([""], Comma) == "";
      assert reloaded[id] != d.items[id];
    }
  }

  /** Loading the saved rows of a passenger dict rebuilds the dict record by record. */
  lemma ReloadPassengers(d: Dict<PassengerRecord>) returns (reloaded: Dict<PassengerRecord>)
    requires d.Valid()
    requires forall id :: id in d.items ==> d.items[id].passengerId == id
    ensures reloaded == Dict(map id | id in d.items :: LoadPassenger(PassengerToRow(d.items[id])), d.keys)
    ensures FromSeq(MapSeq(MapSeq(d.Values(), PassengerToRow), LoadPassenger), PassengerKey) == reloaded
  {
    reloaded := Dict(map id | id in d.items :: LoadPassenger(PassengerToRow(d.items[id])), d.keys);
    assert MapSeq(MapSeq(d.Values(), PassengerToRow), LoadPassenger) == reloaded.Values();
    FromSeqValues(reloaded, PassengerKey);
  }

  /** `row[0] == 'CANCEL' and row[1] == flight_id and row[2] == passenger_id` holds. */
  predicate IsCancelOf(row: Row, fid: string, pid: string) {
    |row| >= 3 && row[0] == "CANCEL" && row[1] == fid && row[2] == pid
  }

  /** Evaluating that condition left to right indexes past the end of the row (an
      `IndexError`): the row is empty, or a short row gets past the earlier comparisons. */
  predicate RaisesIndexError(row: Row, fid: string, pid: string) {
    || |row| == 0
    || (row[0] == "CANCEL" && (|row| == 1 || (row[1] == fid && |row| == 2)))
  }

  /** The rows `delete_booking` keeps: all but the CANCEL rows of this flight and passenger. */
  function KeptRows(rows: seq<Row>, fid: string, pid: string): (r: seq<Row>)
    ensures |r| <= |rows|
    ensures forall i :: 0 <= i < |r| ==> r[i] in rows && !IsCancelOf(r[i], fid, pid)
  {
    Filter(rows, row => !IsCancelOf(row, fid, pid))
  }

  /** `delete_booking` keeps exactly the rows that are not a CANCEL row of this flight and
      passenger, in their original order. */
  lemma KeptRowsExact(rows: seq<Row>, fid: string, pid: string, row: Row)
    ensures row in KeptRows(rows, fid, pid) <==> row in rows && !IsCancelOf(row, fid, pid)
  {
    FilterMembership(rows, r => !IsCancelOf(r, fid, pid), row);
  }

  lemma KeptRowsInOrder(a: seq<Row>, b: seq<Row>, fid: string, pid: string)
    ensures KeptRows(a + b, fid, pid) == KeptRows(a, fid, pid) + KeptRows(b, fid, pid)
  {
    FilterConcat(a, b, row => !IsCancelOf(row, fid, pid));
  }
}
