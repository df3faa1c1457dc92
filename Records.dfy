/** The records both booking managers keep and the rows they write: a flight, a passenger with
    the ids of the flights they hold, and the passenger's row with those ids joined by commas. */
module Records {
  import opened Collections
  import opened Text

  /** A flight as `to_csv_format()` / `to_csv_row()` lists it; seats already parsed to an int. */
  datatype FlightRow = FlightRow(
    flightId: string,
    departure: string,
    arrival: string,
    date: string,
    time: string,
    seatsAvailable: int)

  /** A passenger with the ids of the flights they are booked on, in booking order. */
  datatype PassengerRecord = PassengerRecord(
    passengerId: string,
    name: string,
    contactDetails: string,
    bookedFlights: seq<string>)

  /** A passenger as written to the passengers file: the booked ids joined into one field. */
  datatype PassengerRow = PassengerRow(
    passengerId: string,
    name: string,
    contactDetails: string,
    bookedFlights: string)

  const Comma: char := ','

  function FlightKey(f: FlightRow): string { f.flightId }

  function PassengerKey(p: PassengerRecord): string { p.passengerId }

  /** No id in the list holds a comma, so the joined field can be split back. */
  predicate CommaFree(ids: seq<string>) {
    forall k :: 0 <= k < |ids| ==> Comma !in ids[k]
  }

  /** `Passenger.to_csv_format()` / `to_csv_row()`: the booked flights become `",".join(...)`. */
  function PassengerToRow(p: PassengerRecord): (r: PassengerRow)
    ensures r.passengerId == p.passengerId && r.name == p.name && r.contactDetails == p.contactDetails
    ensures CommaFree(p.bookedFlights) && p.bookedFlights != [] ==> Split(r.bookedFlights, Comma) == p.bookedFlights
  {
    var row := PassengerRow(p.passengerId, p.name, p.contactDetails, Join(p.bookedFlights, Comma));
    if CommaFree(p.bookedFlights) && p.bookedFlights != [] then SplitJoin(p.bookedFlights, Comma); row
    else row
  }

  /** The backend loader's reading of a Booked Flights field: an empty field means no
      bookings, any other field is split at commas. It loses nothing of the field. */
  function ParseBookedFlights(field: string): (ids: seq<string>)
    ensures Join(ids, Comma) == field
    ensures CommaFree(ids)
    ensures ids != [""]
  {
    if field == "" then []
    else
      JoinSplit(field, Comma);
      assert Join([""], Comma) == "";
      Split(field, Comma)
  }

  /** Writing a list of comma-free ids and reading it back with the backend loader gives the
      list back, except for the one list that joins to the same field as `[]`: `[""]`. */
  lemma BookedFlightsRoundTrip(ids: seq<string>)
    requires CommaFree(ids)
    ensures ParseBookedFlights(Join(ids, Comma)) == ids <==> ids != [""]
  {
    JoinEmpty(ids, Comma);
    if Join(ids, Comma) != "" {
      SplitJoin(ids, Comma);
    }
  }

  /** The older loader splits the field with `split(",")` and has no case for the empty field,
      so a passenger with no bookings comes back holding `[""]`; every non-empty list of
      comma-free ids round-trips. */
  lemma SplitBookedFlightsRoundTrip(ids: seq<string>)
    requires CommaFree(ids)
    ensures Split(Join(ids, Comma), Comma) == ids <==> ids != []
  {
    if ids != [] {
      SplitJoin(ids, Comma);
    } else {
      assert Split("", Comma) == [""];
    }
  }
}
