/** The backend's classes (Nishit/flight_booking_backend.py): `Flight` and `Passenger` objects
    whose seat count and booked-flights list change in place, and the `BookingManager` that
    keeps them in two insertion-ordered dicts plus a list of booking rows. Each manager
    operation is proved to act on `model` as the function of the same name in
    BackendStore does. */
module Backend {
  import opened Collections
  import opened Text
  import opened OrderedDicts
  import opened Records
  import opened BackendStore

  class Flight {
    const flightId: string
    const departure: string
    const arrival: string
    const date: string
    const time: string
    var seatsAvailable: int

    /** `Flight(...)`; the seat count arrives already converted by `int(...)`. */
    constructor (flightId: string, departure: string, arrival: string, date: string, time: string,
                 seatsAvailable: int)
      ensures ToCsvFormat() == FlightRow(flightId, departure, arrival, date, time, seatsAvailable)
    {
      this.flightId := flightId;
      this.departure := departure;
      this.arrival := arrival;
      this.date := date;
      this.time := time;
      this.seatsAvailable := seatsAvailable;
    }

    /** `to_csv_format()` */
    function ToCsvFormat(): FlightRow
      reads this`seatsAvailable
    {
      FlightRow(flightId, departure, arrival, date, time, seatsAvailable)
    }
  }

  class Passenger {
    const passengerId: string
    const name: string
    const contactDetails: string
    var bookedFlights: seq<string>

    /** `Passenger(...)`: `booked_flights if booked_flights else []` leaves a list as it is,
        an empty one included. */
    constructor (passengerId: string, name: string, contactDetails: string, bookedFlights: seq<string>)
      ensures Record() == PassengerRecord(passengerId, name, contactDetails, bookedFlights)
    {
      this.passengerId := passengerId;
      this.name := name;
      this.contactDetails := contactDetails;
      this.bookedFlights := bookedFlights;
    }

    function Record(): PassengerRecord
      reads this`bookedFlights
    {
      PassengerRecord(passengerId, name, contactDetails, bookedFlights)
    }

    /** `to_csv_format()` */
    function ToCsvFormat(): (r: PassengerRow)
      reads this`bookedFlights
      ensures r.passengerId == passengerId && r.name == name && r.contactDetails == contactDetails
      ensures CommaFree(bookedFlights) ==> (LoadPassenger(r) == Record() <==> bookedFlights != [""])
    {
      if CommaFree(bookedFlights) then BookedFlightsRoundTrip(bookedFlights); PassengerToRow(Record())
      else PassengerToRow(Record())
    }

    /** `add_flight(flight_id)` */
    method AddFlight(fid: string)
      modifies this`bookedFlights
      ensures bookedFlights == WithFlight(old(bookedFlights), fid)
    {
      if fid !in bookedFlights {
        bookedFlights := bookedFlights + [fid];
      }
    }

    /** `remove_flight(flight_id)` */
    method RemoveFlight(fid: string)
      modifies this`bookedFlights
      ensures bookedFlights == WithoutFlight(old(bookedFlights), fid)
    {
      if fid in bookedFlights {
        bookedFlights := RemoveFirst(bookedFlights, fid);
      }
    }
  }

  /** The flight objects of `d` hold the rows of `t`: same keys in the same order, and each
      object's row is the one `t` files under its key. */
  ghost predicate FlightsHold(d: Dict<Flight>, t: Dict<FlightRow>)
    requires d.Valid()
    reads d.Values()`seatsAvailable
  {
    && d.keys == t.keys
    && forall id :: id in d.items ==> id in t.items && d.items[id].ToCsvFormat() == t.items[id]
  }

  /** The passenger objects of `d` hold the records of `t`, in the same way. */
  ghost predicate PassengersHold(d: Dict<Passenger>, t: Dict<PassengerRecord>)
    requires d.Valid()
    reads d.Values()`bookedFlights
  {
    && d.keys == t.keys
    && forall id :: id in d.items ==> id in t.items && d.items[id].Record() == t.items[id]
  }

  class BookingManager {
    var flights: Dict<Flight>
    var passengers: Dict<Passenger>
    var bookings: seq<Row>
    /** The manager's state as a value: the rows and records its objects hold. */
    ghost var model: Store

    /** The model is well formed, each object dict holds exactly the model's rows or records,
        and the booking rows are the model's. */
    ghost predicate Valid()
      reads this, flights.items.Values, passengers.items.Values
    {
      && model.Valid()
      && flights.Valid() && FlightsHold(flights, model.flights)
      && passengers.Valid() && PassengersHold(passengers, model.passengers)
      && bookings == model.bookings
    }

    /** `BookingManager(...)` with `load_data` applied to rows already read from the three
        files (no rows when a file is missing). */
    constructor (flightRows: seq<FlightRow>, passengerRows: seq<PassengerRow>, bookingRows: seq<Row>)
      ensures Valid()
      ensures model == Load(flightRows, passengerRows, bookingRows)
    {
      flights, passengers, bookings := EmptyDict(), EmptyDict(), [];
      new;
      LoadData(flightRows, passengerRows, bookingRows);
    }

    /** `load_data()`: the flights and passengers from their rows, each filed under its id,
        and the booking rows as they are. */
    method LoadData(flightRows: seq<FlightRow>, passengerRows: seq<PassengerRow>, bookingRows: seq<Row>)
      requires flights == EmptyDict() && passengers == EmptyDict() && bookings == []
      modifies this
      ensures Valid()
      ensures model == Load(flightRows, passengerRows, bookingRows)
    {
      var fs := NewFlights(flightRows);
      var ps := NewPassengers(passengerRows);
      ghost var m := Load(flightRows, passengerRows, bookingRows);
      Install(fs, ps, bookingRows, m);
    }

    /** Makes the manager hold the given object dicts and booking rows, which hold the store
        `m`. */
    method Install(fs: Dict<Flight>, ps: Dict<Passenger>, bookingRows: seq<Row>, ghost m: Store)
      requires m.Valid() && bookingRows == m.bookings
      requires fs.Valid() && FlightsHold(fs, m.flights)
      requires ps.Valid() && PassengersHold(ps, m.passengers)
      modifies this
      ensures Valid() && model == m
    {
      label Built:
      flights, passengers, bookings, model := fs, ps, bookingRows, m;
      forall id | id in flights.items
        ensures flights.items[id].ToCsvFormat() == model.flights.items[id]
      {
        assert flights.items[id].ToCsvFormat() == old@Built(fs.items[id].ToCsvFormat());
      }
      forall id | id in passengers.items
        ensures passengers.items[id].Record() == model.passengers.items[id]
      {
        assert passengers.items[id].Record() == old@Built(ps.items[id].Record());
      }
    }

    /** `view_schedule()`: the row of every flight, in dict order. */
    function ViewSchedule(): (rows: seq<FlightRow>)
      reads this, flights.items.Values, passengers.items.Values
      requires Valid()
      ensures rows == Schedule(model)
    {
      seq(|flights.keys|,
          i requires 0 <= i < |flights.keys| && flights.keys[i] in flights.items
            reads this, flights.items.Values
            => flights.items[flights.keys[i]].ToCsvFormat())
    }

    /** `search_flight(query)` */
    method SearchFlight(query: string) returns (results: seq<FlightRow>)
      requires Valid()
      ensures results == BackendStore.SearchFlight(model, query)
    {
      ghost var rows := Schedule(model);
      results := [];
      for i := 0 to |flights.keys|
        invariant results == MatchingFlights(rows[..i], query)
      {
        var flight := flights.items[flights.keys[i]];
        var row := flight.ToCsvFormat();
        assert row == rows[i];
        TakeOneMore(rows, i);
        MatchingFlightsInOrder(rows[..i], [row], query);
        if Contains(Lower(flight.flightId + flight.departure + flight.arrival), Lower(query)) {
          results := results + [row];
        }
      }
      assert rows[..|flights.keys|] == rows;
    }

    /** `search_passenger(query)` */
    method SearchPassenger(query: string) returns (results: seq<PassengerRow>)
      requires Valid()
      ensures results == BackendStore.SearchPassenger(model, query)
    {
      ghost var rows := PassengerRows(model);
      results := [];
      for i := 0 to |passengers.keys|
        invariant results == MatchingPassengers(rows[..i], query)
      {
        var passenger := passengers.items[passengers.keys[i]];
        var row := passenger.ToCsvFormat();
        assert row == rows[i];
        TakeOneMore(rows, i);
        MatchingPassengersInOrder(rows[..i], [row], query);
        if Contains(Lower(passenger.passengerId + passenger.name + passenger.contactDetails), Lower(query)) {
          results := results + [row];
        }
      }
      assert rows[..|passengers.keys|] == rows;
    }

    /** `book_flight(flight_id, passenger_id)`; the three saves and the update log are file
        output and are not modelled. */
    method BookFlight(fid: string, pid: string) returns (message: string)
      requires Valid()
      modifies this, flights.items.Values, passengers.items.Values
      ensures Valid()
      ensures Outcome(model, message) == Book(old(model), fid, pid)
      ensures old(model.Consistent()) ==> model.Consistent()
    {
      ghost var s := model;
      if fid in flights.items && pid in passengers.items {
        var flight := flights.items[fid];
        var passenger := passengers.items[pid];
        if flight.seatsAvailable > 0 && fid !in passenger.bookedFlights {
          TakeSeat(fid, pid);
          message := BookedMessage(fid, pid);
          if s.Consistent() {
            BookPreservesConsistency(s, fid, pid);
          }
          return;
        }
        message := BookRefused;
        return;
      }
      message := BookNotFound;
    }

    /** `cancel_booking(flight_id, passenger_id)`; the saves and the update log are file output
        and are not modelled, and `delete_booking` is not called (the call is commented out). */
    method CancelBooking(fid: string, pid: string) returns (message: string)
      requires Valid()
      modifies this, flights.items.Values, passengers.items.Values
      ensures Valid()
      ensures Outcome(model, message) == Cancel(old(model), fid, pid)
      ensures old(model.Consistent()) ==> model.Consistent()
    {
      ghost var s := model;
      if fid in flights.items && pid in passengers.items {
        var flight := flights.items[fid];
        var passenger := passengers.items[pid];
        if fid in passenger.bookedFlights {
          ReleaseSeat(fid, pid);
          message := CanceledMessage(fid, pid);
          if s.Consistent() {
            CancelPreservesConsistency(s, fid, pid);
          }
          return;
        }
        message := CancelNoBooking;
        return;
      }
      message := CancelNotFound;
    }

    /** The three updates of a booking that goes through: one seat fewer, the flight on the
        passenger's list, a BOOK row appended. */
    method TakeSeat(fid: string, pid: string)
      requires Valid() && fid in flights.items && pid in passengers.items
      modifies this`bookings, this`model
      modifies (flights.items[fid] as Flight)`seatsAvailable, (passengers.items[pid] as Passenger)`bookedFlights
      ensures Valid()
      ensures model == Booked(old(model), fid, pid)
    {
      AdjustSeats(fid, -1);
      AddBookedFlight(pid, fid);
      AppendBooking("BOOK", fid, pid);
    }

    /** The three updates of a cancellation that goes through: one seat more, the flight off
        the passenger's list, a CANCEL row appended. */
    method ReleaseSeat(fid: string, pid: string)
      requires Valid() && fid in flights.items && pid in passengers.items
      modifies this`bookings, this`model
      modifies (flights.items[fid] as Flight)`seatsAvailable, (passengers.items[pid] as Passenger)`bookedFlights
      ensures Valid()
      ensures model == Canceled(old(model), fid, pid)
    {
      AdjustSeats(fid, 1);
      RemoveBookedFlight(pid, fid);
      AppendBooking("CANCEL", fid, pid);
    }

    /** `self.bookings.append([kind, fid, pid, flight.date])` for the flight filed under `fid`. */
    method AppendBooking(kind: string, fid: string, pid: string)
      requires Valid() && fid in flights.items
      modifies this`bookings, this`model
      ensures Valid()
      ensures model == Logged(old(model), kind, fid, pid)
    {
      var flight := flights.items[fid];
      assert flight.ToCsvFormat() == model.flights.items[fid];
      bookings := bookings + [[kind, fid, pid, flight.date]];
      model := Logged(model, kind, fid, pid);
    }

    /** `flight.seats_available += delta` on the flight filed under `fid`. */
    method AdjustSeats(fid: string, delta: int)
      requires Valid() && fid in flights.items
      modifies this`model, (flights.items[fid] as Flight)`seatsAvailable
      ensures Valid()
      ensures model == SeatsAdjusted(old(model), fid, delta)
    {
      var flight := flights.items[fid];
      forall id | id in flights.items && id != fid
        ensures flights.items[id] != flight
      {
        assert flights.items[id].ToCsvFormat() == model.flights.items[id];
      }
      assert flight.ToCsvFormat() == model.flights.items[fid];
      flight.seatsAvailable := flight.seatsAvailable + delta;
      model := SeatsAdjusted(model, fid, delta);
      forall id | id in flights.items
        ensures flights.items[id].ToCsvFormat() == model.flights.items[id]
      {
        if id != fid {
          assert flights.items[id].ToCsvFormat() == old(flights.items[id].ToCsvFormat());
        }
      }
      forall id | id in passengers.items
        ensures passengers.items[id].Record() == model.passengers.items[id]
      {
        assert passengers.items[id].Record() == old(passengers.items[id].Record());
      }
    }

    /** `passenger.add_flight(fid)` on the passenger filed under `pid`. */
    method AddBookedFlight(pid: string, fid: string)
      requires Valid() && pid in passengers.items
      modifies this`model, (passengers.items[pid] as Passenger)`bookedFlights
      ensures Valid()
      ensures model == FlightAdded(old(model), pid, fid)
    {
      var passenger := passengers.items[pid];
      forall id | id in passengers.items && id != pid
        ensures passengers.items[id] != passenger
      {
        assert passengers.items[id].Record() == model.passengers.items[id];
      }
      passenger.AddFlight(fid);
      model := FlightAdded(model, pid, fid);
      forall id | id in passengers.items
        ensures passengers.items[id].Record() == model.passengers.items[id]
      {
        if id != pid {
          assert passengers.items[id].Record() == old(passengers.items[id].Record());
        }
      }
      forall id | id in flights.items
        ensures flights.items[id].ToCsvFormat() == model.flights.items[id]
      {
        assert flights.items[id].ToCsvFormat() == old(flights.items[id].ToCsvFormat());
      }
    }

    /** `passenger.remove_flight(fid)` on the passenger filed under `pid`. */
    method RemoveBookedFlight(pid: string, fid: string)
      requires Valid() && pid in passengers.items
      modifies this`model, (passengers.items[pid] as Passenger)`bookedFlights
      ensures Valid()
      ensures model == FlightRemoved(old(model), pid, fid)
    {
      var passenger := passengers.items[pid];
      forall id | id in passengers.items && id != pid
        ensures passengers.items[id] != passenger
      {
        assert passengers.items[id].Record() == model.passengers.items[id];
      }
      passenger.RemoveFlight(fid);
      model := FlightRemoved(model, pid, fid);
      forall id | id in passengers.items
        ensures passengers.items[id].Record() == model.passengers.items[id]
      {
        if id != pid {
          assert passengers.items[id].Record() == old(passengers.items[id].Record());
        }
      }
      forall id | id in flights.items
        ensures flights.items[id].ToCsvFormat() == model.flights.items[id]
      {
        assert flights.items[id].ToCsvFormat() == old(flights.items[id].ToCsvFormat());
      }
    }
  }

  /** The flight objects of `rows`, created one by one and filed under their ids
      (the flight loop of `load_data`); each holds the row `FromSeq` files under its id. */
  method NewFlights(rows: seq<FlightRow>) returns (fs: Dict<Flight>)
    ensures fs.Valid() && FlightsHold(fs, FromSeq(rows, FlightKey))
  {
    fs := EmptyDict<Flight>();
    for i := 0 to |rows|
      invariant fs.Valid() && FlightsHold(fs, FromSeq(rows[..i], FlightKey))
    {
      var r := rows[i];
      var f := new Flight(r.flightId, r.departure, r.arrival, r.date, r.time, r.seatsAvailable);
      assert rows[..i + 1][..i] == rows[..i];
      fs := fs.Put(f.flightId, f);
    }
    assert rows[..|rows|] == rows;
  }

  /** The passenger objects of `rows`, each with its Booked Flights field parsed, created one
      by one and filed under their ids (the passenger loop of `load_data`). */
  method NewPassengers(rows: seq<PassengerRow>) returns (ps: Dict<Passenger>)
    ensures ps.Valid() && PassengersHold(ps, FromSeq(MapSeq(rows, LoadPassenger), PassengerKey))
  {
    ps := EmptyDict<Passenger>();
    for i := 0 to |rows|
      invariant ps.Valid() && PassengersHold(ps, FromSeq(MapSeq(rows[..i], LoadPassenger), PassengerKey))
    {
      var r := rows[i];
      var bookedFlights := ParseBookedFlights(r.bookedFlights);
      var p := new Passenger(r.passengerId, r.name, r.contactDetails, bookedFlights);
      assert MapSeq(rows[..i + 1], LoadPassenger)[..i] == MapSeq(rows[..i], LoadPassenger);
      ps := ps.Put(p.passengerId, p);
    }
    assert rows[..|rows|] == rows;
  }

  /** The filter of `delete_booking` over the rows read from the bookings file: the rows that
      are not a CANCEL row of this flight and passenger, in order, or None when evaluating the
      condition on some row indexes past its end (Python raises `IndexError` and the file is
      left as it was). */
  method DeleteBookingRows(rows: seq<Row>, fid: string, pid: string) returns (kept: Option<seq<Row>>)
    ensures kept.None? <==> exists i :: 0 <= i < |rows| && RaisesIndexError(rows[i], fid, pid)
    ensures kept.Some? ==> kept.value == KeptRows(rows, fid, pid)
  {
    var data: seq<Row> := [];
    for i := 0 to |rows|
      invariant forall j :: 0 <= j < i ==> !RaisesIndexError(rows[j], fid, pid)
      invariant data == KeptRows(rows[..i], fid, pid)
    {
      var row := rows[i];
      if RaisesIndexError(row, fid, pid) {
        return None;
      }
      TakeOneMore(rows, i);
      KeptRowsInOrder(rows[..i], [row], fid, pid);
      if !(row[0] == "CANCEL" && row[1] == fid && row[2] == pid) {
        data := data + [row];
      }
    }
    assert rows[..|rows|] == rows;
    return Some(data);
  }
}
