/** The classes of the older booking manager (main.py): `Flight` and `Passenger` objects whose
    seat count and booked-flights list change in place, and the `BookingManager` that keeps
    them in two plain lists. Each manager operation is proved to act on `model` as the
    function of the same name in ListStore does. */
module ListManager {
  import opened Collections
  import opened Text
  import opened Records
  import opened ListStore

  class Flight {
    const flightId: string
    const departure: string
    const arrival: string
    const date: string
    const time: string
    var seatsAvailable: int

    /** `Flight(*row)`; the seat count arrives already converted by `int(...)`. */
    constructor (flightId: string, departure: string, arrival: string, date: string, time: string,
                 seatsAvailable: int)
      ensures ToCsvRow() == FlightRow(flightId, departure, arrival, date, time, seatsAvailable)
    {
      this.flightId := flightId;
      this.departure := departure;
      this.arrival := arrival;
      this.date := date;
      this.time := time;
      this.seatsAvailable := seatsAvailable;
    }

    /** `to_csv_row()` */
    function ToCsvRow(): FlightRow
      reads this`seatsAvailable
    {
      FlightRow(flightId, departure, arrival, date, time, seatsAvailable)
    }
  }

  class Passenger {
    const passengerId: string
    const name: string
    const contactDetails: string
    var bookedFlights: seq<string>

    /** `Passenger(...)`, keeping the list it is given. */
    constructor (passengerId: string, name: string, contactDetails: string, bookedFlights: seq<string>)
      ensures Record() == PassengerRecord(passengerId, name, contactDetails, bookedFlights)
    {
      this.passengerId := passengerId;
      this.name := name;
      this.contactDetails := contactDetails;
      this.bookedFlights := bookedFlights;
    }

    function Record(): PassengerRecord
      reads this`bookedFlights
    {
      PassengerRecord(passengerId, name, contactDetails, bookedFlights)
    }

    /** `to_csv_row()`: the booked ids joined with commas. */
    function ToCsvRow(): (r: PassengerRow)
      reads this`bookedFlights
      ensures r.passengerId == passengerId && r.name == name && r.contactDetails == contactDetails
      ensures CommaFree(bookedFlights) ==> (LoadPassenger(r) == Record() <==> bookedFlights != [])
    {
      if CommaFree(bookedFlights) then SplitBookedFlightsRoundTrip(bookedFlights); PassengerToRow(Record())
      else PassengerToRow(Record())
    }

    /** `can_book(flight_id)` */
    function CanBook(fid: string): (b: bool)
      reads this`bookedFlights
      ensures b <==> fid !in bookedFlights
    {
      ListStore.CanBook(Record(), fid)
    }
  }

  /** The flight objects `fs` hold the rows `rows`, position by position. */
  ghost predicate FlightsHold(fs: seq<Flight>, rows: seq<FlightRow>)
    reads fs`seatsAvailable
  {
    |fs| == |rows| && forall k :: 0 <= k < |fs| ==> fs[k].ToCsvRow() == rows[k]
  }

  /** The passenger objects `ps` hold the records `records`, position by position. */
  ghost predicate PassengersHold(ps: seq<Passenger>, records: seq<PassengerRecord>)
    reads ps`bookedFlights
  {
    |ps| == |records| && forall k :: 0 <= k < |ps| ==> ps[k].Record() == records[k]
  }

  class BookingManager {
    var flights: seq<Flight>
    var passengers: seq<Passenger>
    /** The manager's state as a value: the rows and records its objects hold. */
    ghost var model: Store

    /** No object sits in a list twice (each was created by the loader), and the two lists
        hold exactly the model's rows and records. */
    ghost predicate Valid()
      reads this, flights, passengers
    {
      && NoDuplicates(flights)
      && NoDuplicates(passengers)
      && FlightsHold(flights, model.flights)
      && PassengersHold(passengers, model.passengers)
    }

    /** `BookingManager(...)` with `load_data` applied to rows already read from the two
        files. */
    constructor (flightRows: seq<FlightRow>, passengerRows: seq<PassengerRow>)
      ensures Valid()
      ensures model == Load(flightRows, passengerRows)
    {
      var fs := NewFlights(flightRows);
      var ps := NewPassengers(passengerRows);
      ghost var m := Load(flightRows, passengerRows);
      assert FlightsHold(fs, m.flights) && PassengersHold(ps, m.passengers);
      flights, passengers, model := fs, ps, m;
    }

    /** `find_flight(flight_id)`: the first flight in the list with that id, or None. */
    method FindFlight(fid: string) returns (flight: Flight?)
      requires Valid()
      ensures flight == null <==> ListStore.FindFlight(model, fid).None?
      ensures flight != null ==> flight == flights[ListStore.FindFlight(model, fid).value]
    {
      for k := 0 to |flights|
        invariant forall m :: 0 <= m < k ==> model.flights[m].flightId != fid
      {
        assert flights[k].ToCsvRow() == model.flights[k];
        if flights[k].flightId == fid {
          return flights[k];
        }
      }
      return null;
    }

    /** `find_passenger(passenger_id)`: the first passenger in the list with that id, or None. */
    method FindPassenger(pid: string) returns (passenger: Passenger?)
      requires Valid()
      ensures passenger == null <==> ListStore.FindPassenger(model, pid).None?
      ensures passenger != null ==> passenger == passengers[ListStore.FindPassenger(model, pid).value]
    {
      for k := 0 to |passengers|
        invariant forall m :: 0 <= m < k ==> model.passengers[m].passengerId != pid
      {
        assert passengers[k].Record() == model.passengers[k];
        if passengers[k].passengerId == pid {
          return passengers[k];
        }
      }
      return null;
    }

    /** `book_flight(flight_id, passenger_id)`; `save_data` is file output and is not
        modelled. */
    method BookFlight(fid: string, pid: string) returns (message: string)
      requires Valid()
      modifies this`model, flights`seatsAvailable, passengers`bookedFlights
      ensures Valid()
      ensures Outcome(model, message) == Book(old(model), fid, pid)
      ensures old(model.Consistent()) ==> model.Consistent()
    {
      ghost var s := model;
      var flight := FindFlight(fid);
      var passenger := FindPassenger(pid);
      if flight == null || passenger == null {
        return NotFound;
      }
      ghost var i, j := ListStore.FindFlight(s, fid).value, ListStore.FindPassenger(s, pid).value;
      assert flight.ToCsvRow() == s.flights[i] && passenger.Record() == s.passengers[j];
      if flight.seatsAvailable <= 0 {
        return NoSeats;
      }
      if !passenger.CanBook(fid) {
        return AlreadyBooked;
      }
      AdjustSeats(flight, i, -1);
      AppendBookedFlight(passenger, j, fid);
      message := BookingSuccessful;
      if s.Consistent() {
        BookPreservesConsistency(s, fid, pid);
      }
    }

    /** `cancel_booking(flight_id, passenger_id)`; `save_data` is file output and is not
        modelled. */
    method CancelBooking(fid: string, pid: string) returns (message: string)
      requires Valid()
      modifies this`model, flights`seatsAvailable, passengers`bookedFlights
      ensures Valid()
      ensures Outcome(model, message) == Cancel(old(model), fid, pid)
      ensures old(model.Consistent()) ==> model.Consistent()
    {
      ghost var s := model;
      var flight := FindFlight(fid);
      var passenger := FindPassenger(pid);
      if flight == null || passenger == null {
        return NotFound;
      }
      ghost var i, j := ListStore.FindFlight(s, fid).value, ListStore.FindPassenger(s, pid).value;
      assert passenger.Record() == s.passengers[j];
      if fid !in passenger.bookedFlights {
        return NoBookingFound;
      }
      AdjustSeats(flight, i, 1);
      RemoveBookedFlight(passenger, j, fid);
      message := CancelSuccessful;
      if s.Consistent() {
        CancelPreservesConsistency(s, fid, pid);
      }
    }

    /** `flight.seats_available += delta` on the flight at index `i`. */
    method AdjustSeats(flight: Flight, ghost i: nat, delta: int)
      requires Valid() && i < |flights| && flights[i] == flight
      modifies this`model, flight`seatsAvailable
      ensures Valid()
      ensures model == SeatsAdjusted(old(model), i, delta)
    {
      assert flight.ToCsvRow() == model.flights[i];
      flight.seatsAvailable := flight.seatsAvailable + delta;
      model := SeatsAdjusted(model, i, delta);
      forall k | 0 <= k < |flights|
        ensures flights[k].ToCsvRow() == model.flights[k]
      {
        if k != i {
          assert flights[k] != flight;
          assert flights[k].ToCsvRow() == old(flights[k].ToCsvRow());
        }
      }
      forall k | 0 <= k < |passengers|
        ensures passengers[k].Record() == model.passengers[k]
      {
        assert passengers[k].Record() == old(passengers[k].Record());
      }
    }

    /** `passenger.booked_flights.append(fid)` on the passenger at index `j`. */
    method AppendBookedFlight(passenger: Passenger, ghost j: nat, fid: string)
      requires Valid() && j < |passengers| && passengers[j] == passenger
      modifies this`model, passenger`bookedFlights
      ensures Valid()
      ensures model == FlightAppended(old(model), j, fid)
    {
      assert passenger.Record() == model.passengers[j];
      passenger.bookedFlights := passenger.bookedFlights + [fid];
      model := FlightAppended(model, j, fid);
      forall k | 0 <= k < |passengers|
        ensures passengers[k].Record() == model.passengers[k]
      {
        if k != j {
          assert passengers[k] != passenger;
          assert passengers[k].Record() == old(passengers[k].Record());
        }
      }
      forall k | 0 <= k < |flights|
        ensures flights[k].ToCsvRow() == model.flights[k]
      {
        assert flights[k].ToCsvRow() == old(flights[k].ToCsvRow());
      }
    }

    /** `passenger.booked_flights.remove(fid)` on the passenger at index `j`. */
    method RemoveBookedFlight(passenger: Passenger, ghost j: nat, fid: string)
      requires Valid() && j < |passengers| && passengers[j] == passenger
      modifies this`model, passenger`bookedFlights
      ensures Valid()
      ensures model == FlightRemoved(old(model), j, fid)
    {
      assert passenger.Record() == model.passengers[j];
      passenger.bookedFlights := RemoveFirst(passenger.bookedFlights, fid);
      model := FlightRemoved(model, j, fid);
      forall k | 0 <= k < |passengers|
        ensures passengers[k].Record() == model.passengers[k]
      {
        if k != j {
          assert passengers[k] != passenger;
          assert passengers[k].Record() == old(passengers[k].Record());
        }
      }
      forall k | 0 <= k < |flights|
        ensures flights[k].ToCsvRow() == model.flights[k]
      {
        assert flights[k].ToCsvRow() == old(flights[k].ToCsvRow());
      }
    }
  }

  /** The flight objects of `rows`, created one by one in file order
      (`[Flight(*row) for row in reader]`). */
  method NewFlights(rows: seq<FlightRow>) returns (fs: seq<Flight>)
    ensures FlightsHold(fs, rows) && NoDuplicates(fs)
  {
    fs := [];
    for i := 0 to |rows|
      invariant FlightsHold(fs, rows[..i]) && NoDuplicates(fs)
    {
      var r := rows[i];
      var f := new Flight(r.flightId, r.departure, r.arrival, r.date, r.time, r.seatsAvailable);
      NoDuplicatesAppend(fs, f);
      fs := fs + [f];
    }
  }

  /** The passenger objects of `rows`, created one by one in file order, each with its Booked
      Flights field split at commas. */
  method NewPassengers(rows: seq<PassengerRow>) returns (ps: seq<Passenger>)
    ensures PassengersHold(ps, MapSeq(rows, ListStore.LoadPassenger)) && NoDuplicates(ps)
  {
    ps := [];
    for i := 0 to |rows|
      invariant PassengersHold(ps, MapSeq(rows[..i], ListStore.LoadPassenger)) && NoDuplicates(ps)
    {
      var r := rows[i];
      var p := new Passenger(r.passengerId, r.name, r.contactDetails, Split(r.bookedFlights, Comma));
      NoDuplicatesAppend(ps, p);
      ps := ps + [p];
    }
  }
}
