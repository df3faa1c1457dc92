/** The older, list-based booking manager (main.py) as values: the flight list and the passenger
    list form a `Store`, and booking and cancelling are functions from a store to the new store
    and the message the manager returns. The class-based model in module ListManager is proved
    to follow these functions. */
module ListStore {
  import opened Collections
  import opened Text
  import opened Records

  /** `self.flights` and `self.passengers`, as the records their objects hold. */
  datatype Store = Store(flights: seq<FlightRow>, passengers: seq<PassengerRecord>)
  {
    /** What booking and cancelling maintain: no flight has a negative seat count and no
        passenger holds a flight id twice. (Loading does not check either.) */
    ghost predicate Consistent() {
      && (forall k :: 0 <= k < |flights| ==> flights[k].seatsAvailable >= 0)
      && (forall k :: 0 <= k < |passengers| ==> NoDuplicates(passengers[k].bookedFlights))
    }
  }

  /** The store after an operation and the message the operation returns. */
  datatype Outcome = Outcome(store: Store, message: string)

  const NotFound := "Flight or Passenger not found."
  const NoSeats := "No seats available."
  const AlreadyBooked := "Passenger already booked this flight."
  const BookingSuccessful := "Booking successful."
  const NoBookingFound := "No booking found for this flight."
  const CancelSuccessful := "Booking canceled successfully."

  /** Every message tells its case apart from the others. */
  lemma MessagesDiffer()
    ensures NotFound != NoSeats && NotFound != AlreadyBooked && NotFound != BookingSuccessful
    ensures NoSeats != AlreadyBooked && NoSeats != BookingSuccessful
    ensures AlreadyBooked != BookingSuccessful
    ensures NotFound != NoBookingFound && NotFound != CancelSuccessful
    ensures NoBookingFound != CancelSuccessful
  {
    assert NotFound[0] == 'F' && NoSeats[0] == 'N' && AlreadyBooked[0] == 'P';
    assert BookingSuccessful[0] == 'B' && NoBookingFound[0] == 'N' && CancelSuccessful[0] == 'B';
  }

  /** The index of the first element of `s` whose id is `x`, or None when no id matches: the
      loop of `find_flight` / `find_passenger`, which returns at the first match. */
  function FindFirst<T>(s: seq<T>, id: T -> string, x: string): (r: Option<nat>)
    ensures r.None? <==> forall k :: 0 <= k < |s| ==> id(s[k]) != x
    ensures r.Some? ==> r.value < |s| && id(s[r.value]) == x
    ensures r.Some? ==> forall k :: 0 <= k < r.value ==> id(s[k]) != x
  {
    if s == [] then None
    else if id(s[0]) == x then Some(0)
    else
      match FindFirst(s[1..], id, x)
      case None => None
      case Some(i) => Some(i + 1)
  }

  /** `find_flight(flight_id)`, as an index into the flight list. */
  function FindFlight(s: Store, fid: string): Option<nat> {
    FindFirst(s.flights, FlightKey, fid)
  }

  /** `find_passenger(passenger_id)`, as an index into the passenger list. */
  function FindPassenger(s: Store, pid: string): Option<nat> {
    FindFirst(s.passengers, PassengerKey, pid)
  }

  /** `find_flight` returns the first flight whose id matches, and None only when none does. */
  lemma FindFlightFirstMatch(s: Store, fid: string)
    ensures FindFlight(s, fid).None? <==> forall k :: 0 <= k < |s.flights| ==> s.flights[k].flightId != fid
    ensures FindFlight(s, fid).Some? ==>
      var i := FindFlight(s, fid).value;
      && i < |s.flights| && s.flights[i].flightId == fid
      && forall k :: 0 <= k < i ==> s.flights[k].flightId != fid
  {
    assert forall k :: 0 <= k < |s.flights| ==> FlightKey(s.flights[k]) == s.flights[k].flightId;
  }

  /** `find_passenger` returns the first passenger whose id matches, and None only when none
      does. */
  lemma FindPassengerFirstMatch(s: Store, pid: string)
    ensures FindPassenger(s, pid).None? <==> forall k :: 0 <= k < |s.passengers| ==> s.passengers[k].passengerId != pid
    ensures FindPassenger(s, pid).Some? ==>
      var j := FindPassenger(s, pid).value;
      && j < |s.passengers| && s.passengers[j].passengerId == pid
      && forall k :: 0 <= k < j ==> s.passengers[k].passengerId != pid
  {
    assert forall k :: 0 <= k < |s.passengers| ==> PassengerKey(s.passengers[k]) == s.passengers[k].passengerId;
  }

  /** `Passenger.can_book(flight_id)` */
  predicate CanBook(p: PassengerRecord, fid: string): (b: bool)
    ensures b <==> multiset(p.bookedFlights)[fid] == 0
    ensures b && NoDuplicates(p.bookedFlights) ==> NoDuplicates(p.bookedFlights + [fid])
  {
    if fid !in p.bookedFlights && NoDuplicates(p.bookedFlights) then
      NoDuplicatesAppend(p.bookedFlights, fid);
      true
    else
      fid !in p.bookedFlights
  }

  /** `flight.seats_available += delta` on the flight at index `i`. */
  function SeatsAdjusted(s: Store, i: nat, delta: int): (r: Store)
    requires i < |s.flights|
    ensures var f := s.flights[i]; r.flights == s.flights[i := f.(seatsAvailable := f.seatsAvailable + delta)]
    ensures r.passengers == s.passengers
  {
    s.(flights := s.flights[i := s.flights[i].(seatsAvailable := s.flights[i].seatsAvailable + delta)])
  }

  /** `passenger.booked_flights.append(fid)` on the passenger at index `j`. */
  function FlightAppended(s: Store, j: nat, fid: string): (r: Store)
    requires j < |s.passengers|
    ensures var p := s.passengers[j]; r.passengers == s.passengers[j := p.(bookedFlights := p.bookedFlights + [fid])]
    ensures r.flights == s.flights
  {
    s.(passengers := s.passengers[j := s.passengers[j].(bookedFlights := s.passengers[j].bookedFlights + [fid])])
  }

  /** `passenger.booked_flights.remove(fid)` on the passenger at index `j`. */
  function FlightRemoved(s: Store, j: nat, fid: string): (r: Store)
    requires j < |s.passengers|
    ensures var p := s.passengers[j]; r.passengers == s.passengers[j := p.(bookedFlights := RemoveFirst(p.bookedFlights, fid))]
    ensures r.flights == s.flights
  {
    s.(passengers := s.passengers[j := s.passengers[j].(bookedFlights := RemoveFirst(s.passengers[j].bookedFlights, fid))])
  }

  /** The store after a booking of the flight at `i` by the passenger at `j` goes through. */
  function Booked(s: Store, i: nat, j: nat, fid: string): Store
    requires i < |s.flights| && j < |s.passengers|
  {
    FlightAppended(SeatsAdjusted(s, i, -1), j, fid)
  }

  /** The store after a cancellation of the flight at `i` by the passenger at `j` goes through. */
  function Canceled(s: Store, i: nat, j: nat, fid: string): Store
    requires i < |s.flights| && j < |s.passengers|
  {
    FlightRemoved(SeatsAdjusted(s, i, 1), j, fid)
  }

  /** `book_flight(flight_id, passenger_id)`: three failures checked in this order, each
      leaving the store as it was, and otherwise one seat fewer on the first flight with the
      id and the id appended to the first passenger with the id; nothing else changes. */
  function Book(s: Store, fid: string, pid: string): (o: Outcome)
    ensures var fi, pj := FindFlight(s, fid), FindPassenger(s, pid);
      && (o.message == NotFound <==> fi.None? || pj.None?)
      && (o.message == NoSeats <==>
            fi.Some? && pj.Some? && s.flights[fi.value].seatsAvailable <= 0)
      && (o.message == AlreadyBooked <==>
            && fi.Some? && pj.Some? && s.flights[fi.value].seatsAvailable > 0
            && fid in s.passengers[pj.value].bookedFlights)
      && (o.message == BookingSuccessful <==>
            && fi.Some? && pj.Some? && s.flights[fi.value].seatsAvailable > 0
            && fid !in s.passengers[pj.value].bookedFlights)
    ensures o.message != BookingSuccessful ==> o.store == s
    ensures o.message == BookingSuccessful ==>
      var i, j := FindFlight(s, fid).value, FindPassenger(s, pid).value;
      var f, p := s.flights[i], s.passengers[j];
      && o.store.flights == s.flights[i := f.(seatsAvailable := f.seatsAvailable - 1)]
      && o.store.passengers == s.passengers[j := p.(bookedFlights := p.bookedFlights + [fid])]
  {
    MessagesDiffer();
    var fi, pj := FindFlight(s, fid), FindPassenger(s, pid);
    if fi.None? || pj.None? then Outcome(s, NotFound)
    else if s.flights[fi.value].seatsAvailable <= 0 then Outcome(s, NoSeats)
    else if !CanBook(s.passengers[pj.value], fid) then Outcome(s, AlreadyBooked)
    else Outcome(Booked(s, fi.value, pj.value, fid), BookingSuccessful)
  }

  /** `cancel_booking(flight_id, passenger_id)`: two failures checked in this order, each
      leaving the store as it was, and otherwise one seat more on the first flight with the id
      and the first occurrence of the id removed from the first passenger with the id. */
  function Cancel(s: Store, fid: string, pid: string): (o: Outcome)
    ensures var fi, pj := FindFlight(s, fid), FindPassenger(s, pid);
      && (o.message == NotFound <==> fi.None? || pj.None?)
      && (o.message == NoBookingFound <==>
            fi.Some? && pj.Some? && fid !in s.passengers[pj.value].bookedFlights)
      && (o.message == CancelSuccessful <==>
            fi.Some? && pj.Some? && fid in s.passengers[pj.value].bookedFlights)
    ensures o.message != CancelSuccessful ==> o.store == s
    ensures o.message == CancelSuccessful ==>
      var i, j := FindFlight(s, fid).value, FindPassenger(s, pid).value;
      var f, p := s.flights[i], s.passengers[j];
      && o.store.flights == s.flights[i := f.(seatsAvailable := f.seatsAvailable + 1)]
      && o.store.passengers == s.passengers[j := p.(bookedFlights := RemoveFirst(p.bookedFlights, fid))]
      && |o.store.passengers[j].bookedFlights| == |p.bookedFlights| - 1
  {
    MessagesDiffer();
    var fi, pj := FindFlight(s, fid), FindPassenger(s, pid);
    if fi.None? || pj.None? then Outcome(s, NotFound)
    else if fid !in s.passengers[pj.value].bookedFlights then Outcome(s, NoBookingFound)
    else Outcome(Canceled(s, fi.value, pj.value, fid), CancelSuccessful)
  }

  /** Booking keeps every seat count non-negative and every passenger's list free of
      duplicates. */
  lemma BookPreservesConsistency(s: Store, fid: string, pid: string)
    requires s.Consistent()
    ensures Book(s, fid, pid).store.Consistent()
  {
    var o := Book(s, fid, pid);
    if o.message == BookingSuccessful {
      var i, j := FindFlight(s, fid).value, FindPassenger(s, pid).value;
      var p := s.passengers[j];
      NoDuplicatesAppend(p.bookedFlights, fid);
      forall k | 0 <= k < |o.store.passengers|
        ensures NoDuplicates(o.store.passengers[k].bookedFlights)
      {
        if k != j {
          assert o.store.passengers[k] == s.passengers[k];
        }
      }
    }
  }

  /** Cancelling keeps every seat count non-negative and every passenger's list free of
      duplicates; the cancelled id is then gone from the passenger's list. */
  lemma CancelPreservesConsistency(s: Store, fid: string, pid: string)
    requires s.Consistent()
    ensures Cancel(s, fid, pid).store.Consistent()
    ensures FindFlight(s, fid).Some? && FindPassenger(s, pid).Some? ==>
      fid !in Cancel(s, fid, pid).store.passengers[FindPassenger(s, pid).value].bookedFlights
  {
    var o := Cancel(s, fid, pid);
    if o.message == CancelSuccessful {
      var i, j := FindFlight(s, fid).value, FindPassenger(s, pid).value;
      RemoveFirstNoDuplicates(s.passengers[j].bookedFlights, fid);
      forall k | 0 <= k < |o.store.passengers|
        ensures NoDuplicates(o.store.passengers[k].bookedFlights)
      {
        if k != j {
          assert o.store.passengers[k] == s.passengers[k];
        }
      }
    }
  }

  /** Booking the same flight again for the same passenger changes nothing; it is refused as
      a duplicate, or, when the first booking took the last seat, for want of seats (that check
      comes first). */
  lemma BookTwiceRefused(s: Store, fid: string, pid: string)
    requires Book(s, fid, pid).message == BookingSuccessful
    ensures var t := Book(s, fid, pid).store;
      var second := Book(t, fid, pid);
      && second.store == t
      && second.message == if s.flights[FindFlight(s, fid).value].seatsAvailable == 1 then NoSeats else AlreadyBooked
  {
    var t := Book(s, fid, pid).store;
    var i, j := FindFlight(s, fid).value, FindPassenger(s, pid).value;
    FindFirstAfterUpdate(s.flights, FlightKey, fid, i, t.flights[i]);
    FindFirstAfterUpdate(s.passengers, PassengerKey, pid, j, t.passengers[j]);
    assert fid in t.passengers[j].bookedFlights;
  }

  /** Cancelling right after a successful booking gives back exactly the store before it. */
  lemma CancelUndoesBook(s: Store, fid: string, pid: string)
    requires Book(s, fid, pid).message == BookingSuccessful
    ensures Cancel(Book(s, fid, pid).store, fid, pid) == Outcome(s, CancelSuccessful)
  {
    var i, j := FindFlight(s, fid).value, FindPassenger(s, pid).value;
    var t := Booked(s, i, j, fid);
    assert Book(s, fid, pid).store == t;
    FindFirstAfterUpdate(s.flights, FlightKey, fid, i, t.flights[i]);
    FindFirstAfterUpdate(s.passengers, PassengerKey, pid, j, t.passengers[j]);
    assert fid in t.passengers[j].bookedFlights;
    assert Cancel(t, fid, pid) == Outcome(Canceled(t, i, j, fid), CancelSuccessful);
    CanceledBooked(s, i, j, fid);
  }

  /** The two updates of a cancellation undo those of the booking before it. */
  lemma CanceledBooked(s: Store, i: nat, j: nat, fid: string)
    requires i < |s.flights| && j < |s.passengers|
    requires fid !in s.passengers[j].bookedFlights
    ensures Canceled(Booked(s, i, j, fid), i, j, fid) == s
  {
    var f, p := s.flights[i], s.passengers[j];
    var f1, p1 := f.(seatsAvailable := f.seatsAvailable - 1), p.(bookedFlights := p.bookedFlights + [fid]);
    var t := Booked(s, i, j, fid);
    assert t == Store(s.flights[i := f1], s.passengers[j := p1]);
    RemoveFirstAfterAppend(p.bookedFlights, fid);
    assert p1.(bookedFlights := RemoveFirst(p1.bookedFlights, fid)) == p;
    assert Canceled(t, i, j, fid) == Store(s.flights[i := f1][i := f], s.passengers[j := p1][j := p]);
    assert s.flights[i := f1][i := f] == s.flights;
    assert s.passengers[j := p1][j := p] == s.passengers;
  }

  /** Replacing the first match by an element with the same id keeps it the first match. */
  lemma FindFirstAfterUpdate<T>(s: seq<T>, id: T -> string, x: string, i: nat, v: T)
    requires FindFirst(s, id, x) == Some(i) && id(v) == x
    ensures FindFirst(s[i := v], id, x) == Some(i)
  {
    assert id(s[i := v][i]) == x;
  }

  /** Booking goes through exactly when both ids are found, the flight has a seat left and the
      passenger can book it. */
  lemma BookSucceedsIff(s: Store, fid: string, pid: string)
    ensures Book(s, fid, pid).message == BookingSuccessful <==>
      exists i, j :: && FindFlight(s, fid) == Some(i) && FindPassenger(s, pid) == Some(j)
                     && s.flights[i].seatsAvailable > 0 && CanBook(s.passengers[j], fid)
  {
    if Book(s, fid, pid).message == BookingSuccessful {
      var i, j := FindFlight(s, fid).value, FindPassenger(s, pid).value;
      assert FindFlight(s, fid) == Some(i) && FindPassenger(s, pid) == Some(j);
    }
  }

  // ---------------------------------------------------------------------------------------
  // Loading and saving

  /** The loader's reading of a passenger row: the Booked Flights field is split at commas
      with `split(",")`, so an empty field gives `[""]`. */
  function LoadPassenger(row: PassengerRow): (p: PassengerRecord)
    ensures p.passengerId == row.passengerId && p.name == row.name && p.contactDetails == row.contactDetails
    ensures p.bookedFlights != [] && CommaFree(p.bookedFlights)
    ensures Join(p.bookedFlights, Comma) == row.bookedFlights
  {
    JoinSplit(row.bookedFlights, Comma);
    PassengerRecord(row.passengerId, row.name, row.contactDetails, Split(row.bookedFlights, Comma))
  }

  /** `load_data` on already-read rows: the flights and passengers in file order. */
  function Load(flightRows: seq<FlightRow>, passengerRows: seq<PassengerRow>): (s: Store)
    ensures s.flights == flightRows && |s.passengers| == |passengerRows|
    ensures forall k :: 0 <= k < |passengerRows| ==> s.passengers[k] == LoadPassenger(passengerRows[k])
  {
    Store(flightRows, MapSeq(passengerRows, LoadPassenger))
  }

  /** The passenger rows `save_data` writes, in list order. */
  function PassengerRows(s: Store): seq<PassengerRow> {
    MapSeq(s.passengers, PassengerToRow)
  }

  /** A passenger with no bookings, saved and loaded again, holds the one id `""`. */
  lemma EmptyFieldLoadsOneEmptyId(p: PassengerRecord)
    requires p.bookedFlights == []
    ensures LoadPassenger(PassengerToRow(p)).bookedFlights == [""]
  {
    assert Join(p.bookedFlights, Comma) == "";
  }

  /** Saving a store and loading what was saved gives the same store, provided no booked id
      holds a comma, exactly when every passenger holds at least one id. */
  lemma SaveLoadRoundTrip(s: Store)
    requires forall k :: 0 <= k < |s.passengers| ==> CommaFree(s.passengers[k].bookedFlights)
    ensures Load(s.flights, PassengerRows(s)) == s <==>
      forall k :: 0 <= k < |s.passengers| ==> s.passengers[k].bookedFlights != []
  {
    var t := Load(s.flights, PassengerRows(s));
    if forall k :: 0 <= k < |s.passengers| ==> s.passengers[k].bookedFlights != [] {
      forall k | 0 <= k < |s.passengers|
        ensures t.passengers[k] == s.passengers[k]
      {
        SplitBookedFlightsRoundTrip(s.passengers[k].bookedFlights);
      }
      assert t.passengers == s.passengers;
    } else {
      var k :| 0 <= k < |s.passengers| && s.passengers[k].bookedFlights == [];
      assert t.passengers[k].bookedFlights != [];
    }
  }
}
