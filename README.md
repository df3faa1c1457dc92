# Flight booking manager

This project models the booking manager of a small flight-booking application. The manager
keeps flights, each with a number of free seats, and passengers, each with the list of
flight ids they are booked on. It books and cancels seats, lists and searches flights and
passengers, and turns its records into CSV rows and back. The repository holds two
versions of the manager, and both are modelled:

- **The backend** (`Nishit/flight_booking_backend.py`). Flights and passengers sit in two
  Python dicts, which keep insertion order. A list of `BOOK`/`CANCEL` booking rows records
  every change. Booking refuses with one combined message for "no seat" and "already
  booked".
  - Module `BackendStore` states the manager as values. A `Store` is the two dicts (an
    `OrderedDicts.Dict` is a map plus its key order) and the booking rows. Each operation is
    a function that returns the new store and the message.
  - Module `Backend` has the source's classes. `Flight` and `Passenger` objects have their
    seat count and booked-flights list updated in place. `BookingManager` holds them in
    dicts and keeps a ghost `model` of type `Store` in step with them. Each method is proved
    to change `model` exactly as a `BackendStore` function does: `BookFlight` as `Book`,
    `CancelBooking` as `Cancel`, `TakeSeat` as `Booked`, `ReleaseSeat` as `Canceled`,
    `AdjustSeats` as `SeatsAdjusted`, `AddBookedFlight` as `FlightAdded`,
    `RemoveBookedFlight` as `FlightRemoved` and `AppendBooking` as `Logged`. `ViewSchedule`,
    `SearchFlight` and `SearchPassenger` return `Schedule`, `SearchFlight` and
    `SearchPassenger` of `model`.
- **The older version** (`main.py`). Flights and passengers sit in two plain lists and are
  found by first-match linear search. Booking reports three distinct failures, checked in a
  fixed order. There is no booking log.
  - Module `ListStore` holds the functions and their lemmas.
  - Module `ListManager` holds the classes, which are tied to `ListStore` in the same way:
    `BookFlight` follows `Book`, `CancelBooking` follows `Cancel`, `AdjustSeats` follows
    `SeatsAdjusted`, `AppendBookedFlight` follows `FlightAppended` and `RemoveBookedFlight`
    follows `FlightRemoved`. `FindFlight` and `FindPassenger` return the objects at the
    indices `ListStore.FindFlight` and `ListStore.FindPassenger` give.

Modules shared by both versions:

- `Records`: the flight and passenger records, the passenger's CSV row, and the parse of the
  Booked Flights field.
- `Text`: ASCII `lower`, substring test, `join` and `split`.
- `Collections`: filter in order, first index, `list.remove`.
- `OrderedDicts`: insertion-ordered dicts.

What the model establishes:

- Every failure leaves the store unchanged. Each message holds exactly when its guard holds;
  each of these is stated as an "if and only if".
- A booking changes only the flight and passenger involved:
  - the flight has one seat fewer;
  - the passenger's list gains the id at the end;
  - the backend also appends one `BOOK` row carrying the flight's date.
- A cancellation reverses this and has the same frame.
- Booking and cancelling keep every seat count non-negative. They also keep every passenger's
  list free of duplicates.
- Booking twice is refused and changes nothing.
- Cancelling right after a booking restores every flight and passenger. In `main.py` it
  restores the whole store.
- The searches return exactly the matching rows, in collection order.
- Saving and reloading gives the same records exactly when the Booked Flights parse can
  recover them. The two versions differ on the empty list:
  - the backend loads an empty field as no bookings, so only the list `[""]` is lost;
  - `main.py` loads an empty field as `[""]`, so only the empty list is lost.

The loader's input (rows already read from the CSV files) is a parameter. The saves produce
rows (`Schedule`, `PassengerRows`, the booking rows) and do not write files.

## Model

| member | source | states |
|---|---|---|
| Backend.Flight.constructor | Nishit/flight_booking_backend.py:4-14 | the new flight's `to_csv_format` row is exactly the six given fields, seats as an int |
| Backend.Passenger.constructor | Nishit/flight_booking_backend.py:16-21 | the new passenger holds the given id, name, contact details and booked-flights list (an empty list stays empty) |
| Backend.Passenger.AddFlight | Nishit/flight_booking_backend.py:23-25 | `add_flight` sets the list to `WithFlight` of the old list: the id is appended at the end only when absent |
| Backend.Passenger.RemoveFlight | Nishit/flight_booking_backend.py:27-29 | `remove_flight` sets the list to `WithoutFlight` of the old list: the first occurrence goes, and an absent id changes nothing |
| BackendStore.WithFlight | Nishit/flight_booking_backend.py:23-25 | the result holds the id and exactly the old ids besides it. An id already held leaves the list unchanged. The old list stays a prefix, the list grows by at most one, and a duplicate-free list stays duplicate-free |
| BackendStore.WithoutFlight | Nishit/flight_booking_backend.py:27-29 | a held id loses exactly its first occurrence: the result is the list with the element at `IndexOf` cut out. The multiset loses one copy of the id, and an absent id changes nothing. From a duplicate-free list the id is gone entirely and the list stays duplicate-free |
| BackendStore.WithFlightIdempotent | Nishit/flight_booking_backend.py:23-25 | adding the same flight twice is the same as adding it once |
| BackendStore.WithoutFlightUndoesWithFlight | Nishit/flight_booking_backend.py:23-29 | removing a flight the passenger did not hold before adding it gives back the original list |
| BackendStore.Book | Nishit/flight_booking_backend.py:142-156 | each of the three messages holds if and only if its guard holds, and failures change nothing. On success the flight's seats drop by one and the id is appended to the passenger's list. One `BOOK` row with the flight's date is appended. Every other entry and both key orders are unchanged |
| BackendStore.Cancel | Nishit/flight_booking_backend.py:158-173 | each of the three messages holds if and only if its guard holds, and failures change nothing. On success the seats rise by one and the first occurrence of the id is removed. One `CANCEL` row with the flight's date is appended. Nothing else changes |
| BackendStore.MessagesDiffer | Nishit/flight_booking_backend.py:154-173 | the success and the two failure messages of each operation are pairwise distinct, so the message tells which case occurred |
| BackendStore.SeatsAdjusted | Nishit/flight_booking_backend.py:147 | the flight under the id gets its seat count moved by `delta` and keeps its other fields. Every other flight, the key order, every passenger and the booking rows stay as they were, and the store stays well formed |
| BackendStore.FlightAdded | Nishit/flight_booking_backend.py:148 | the passenger under the id gets `WithFlight` of their list and keeps the other fields. Every other passenger, the key order, every flight and the booking rows stay as they were |
| BackendStore.FlightRemoved | Nishit/flight_booking_backend.py:164 | the passenger under the id gets `WithoutFlight` of their list and keeps the other fields. Every other passenger, the key order, every flight and the booking rows stay as they were |
| BackendStore.BookPreservesConsistency | Nishit/flight_booking_backend.py:146-149 | booking keeps every seat count non-negative and every booked-flights list free of duplicates |
| BackendStore.CancelPreservesConsistency | Nishit/flight_booking_backend.py:162-165 | cancelling keeps both invariants, and afterwards the cancelled id is no longer in the passenger's list |
| BackendStore.BookTwiceRefused | Nishit/flight_booking_backend.py:146-155 | after a successful booking, booking the same pair again returns the refusal message and changes nothing |
| BackendStore.CancelUndoesBook | Nishit/flight_booking_backend.py:142-173 | cancelling right after a successful booking succeeds and restores every flight and passenger. The bookings list keeps exactly the `BOOK` and `CANCEL` rows |
| BackendStore.CanceledBooked | Nishit/flight_booking_backend.py:146-165 | the three updates of a cancellation undo the three updates of the booking before them, apart from the two log rows |
| BackendStore.SingleSeatScenario | Nishit/flight_booking_backend.py:142-156 | on a flight with one seat the first booking takes the seat and lists the flight, and the second booking is refused with no change |
| BackendStore.SearchFlightExact | Nishit/flight_booking_backend.py:128-133 | a row is in the flight search result if and only if it is in the schedule and its lowered id+departure+arrival contains the lowered query |
| BackendStore.SearchPassengerExact | Nishit/flight_booking_backend.py:135-140 | a row is in the passenger search result if and only if it is a passenger's row and its lowered id+name+contact contains the lowered query |
| BackendStore.MatchingFlightsInOrder | Nishit/flight_booking_backend.py:128-133 | the flight search keeps dict order: it distributes over concatenation of the listing |
| BackendStore.MatchingPassengersInOrder | Nishit/flight_booking_backend.py:135-140 | the passenger search keeps dict order in the same way |
| BackendStore.SearchFlightEmptyQuery | Nishit/flight_booking_backend.py:125-133 | `search_flight("")` is `view_schedule()`: every flight, in dict order |
| BackendStore.SearchPassengerEmptyQuery | Nishit/flight_booking_backend.py:135-140 | `search_passenger("")` returns every passenger's row, in dict order |
| BackendStore.SearchFlightIgnoresCase | Nishit/flight_booking_backend.py:131 | two queries with the same lower-case form give the same flight results |
| BackendStore.SearchPassengerIgnoresCase | Nishit/flight_booking_backend.py:138 | two queries with the same lower-case form give the same passenger results |
| BackendStore.SearchFlightFindsId | Nishit/flight_booking_backend.py:128-133 | searching for a flight's own id finds that flight |
| BackendStore.Load | Nishit/flight_booking_backend.py:45-76 | the store is well formed and the booking rows are kept as read. An id is a key if and only if some row carries it. The keys are the rows' ids in order of first appearance, each once. Under each id sits the last row with that id (a passenger's with its field parsed) |
| BackendStore.SaveLoadRoundTrip | Nishit/flight_booking_backend.py:45-99 | reloading the saved flight, passenger and booking rows gives back the same store if and only if no passenger holds the list `[""]`, when no booked id contains a comma |
| BackendStore.ReloadedPassengersSame | Nishit/flight_booking_backend.py:63-65 | each passenger record comes back from its saved row if and only if its list is not `[""]` |
| BackendStore.ReloadPassengers | Nishit/flight_booking_backend.py:58-65 | reloading the saved passenger rows rebuilds the dict record by record, in the same key order |
| BackendStore.KeptRowsExact | Nishit/flight_booking_backend.py:104-109 | a row survives the `delete_booking` filter if and only if it was there and is not a `CANCEL` row of this flight and passenger |
| BackendStore.KeptRowsInOrder | Nishit/flight_booking_backend.py:104-109 | the filter keeps the rows' order: it distributes over concatenation |
| Backend.BookingManager.constructor | Nishit/flight_booking_backend.py:35-43 | the new manager is well formed and its state is `Load` of the given rows |
| Backend.BookingManager.LoadData | Nishit/flight_booking_backend.py:45-76 | after `load_data` the object dicts hold exactly the rows `Load` gives, and the booking rows are kept as read |
| Backend.BookingManager.Install | Nishit/flight_booking_backend.py:51-74 | once the loops have filed every object, the manager's dicts and booking rows hold exactly the loaded store |
| Backend.NewFlights | Nishit/flight_booking_backend.py:47-53 | the flight loop builds flight objects that hold exactly the dict `FromSeq` builds from the rows, in the same key order |
| Backend.NewPassengers | Nishit/flight_booking_backend.py:58-65 | the passenger loop builds passenger objects, each with its field parsed, that hold exactly the records `Load` files |
| Backend.BookingManager.ViewSchedule | Nishit/flight_booking_backend.py:125-126 | `view_schedule` returns the row of every flight object, in dict order: the model's `Schedule` |
| Backend.BookingManager.SearchFlight | Nishit/flight_booking_backend.py:128-133 | the loop returns `BackendStore.SearchFlight` of the model, which `SearchFlightExact` characterises |
| Backend.BookingManager.SearchPassenger | Nishit/flight_booking_backend.py:135-140 | the loop returns `BackendStore.SearchPassenger` of the model |
| Backend.BookingManager.BookFlight | Nishit/flight_booking_backend.py:142-156 | the in-place updates and the message are those of `BackendStore.Book` on the old state. The objects stay in step with the model, and the two invariants are kept |
| Backend.BookingManager.CancelBooking | Nishit/flight_booking_backend.py:158-173 | the in-place updates and the message are those of `BackendStore.Cancel` on the old state, with the same guarantees |
| Backend.BookingManager.TakeSeat | Nishit/flight_booking_backend.py:146-149 | one seat fewer, the id added to the passenger and a `BOOK` row: the state becomes `Booked` of the old state |
| Backend.BookingManager.ReleaseSeat | Nishit/flight_booking_backend.py:162-165 | one seat more, the id removed and a `CANCEL` row: the state becomes `Canceled` of the old state |
| Backend.BookingManager.AdjustSeats | Nishit/flight_booking_backend.py:147 | the in-place seat update changes that flight's row alone, and every other object keeps its row |
| Backend.BookingManager.AddBookedFlight | Nishit/flight_booking_backend.py:148 | `add_flight` on one passenger changes that passenger's record alone |
| Backend.BookingManager.RemoveBookedFlight | Nishit/flight_booking_backend.py:164 | `remove_flight` on one passenger changes that passenger's record alone |
| Backend.BookingManager.AppendBooking | Nishit/flight_booking_backend.py:149 | the appended booking row is `[kind, flight id, passenger id, date of that flight]` |
| Backend.DeleteBookingRows | Nishit/flight_booking_backend.py:101-112 | the filter loop returns `KeptRows` of the rows read, or no result if and only if some row makes the condition index past its end (an `IndexError`) |
| Records.ParseBookedFlights | Nishit/flight_booking_backend.py:63 | the parsed list joins back to the field and holds no comma. An empty field gives `[]`, and the parse never yields `[""]` |
| Records.BookedFlightsRoundTrip | Nishit/flight_booking_backend.py:63 | joining comma-free ids as `to_csv_format` does (line 32) and parsing them back gives the list if and only if it is not `[""]` |
| OrderedDicts.Dict.Put | Nishit/flight_booking_backend.py:53 | `d[k] = v`: the value is stored under the key, and a new key goes last while an existing key keeps its place |
| OrderedDicts.FromSeq | Nishit/flight_booking_backend.py:51-53 | filing a sequence of values under their keys gives a well-formed dict in which each value sits under its own key and every value's key is present |
| OrderedDicts.FromSeqValues | Nishit/flight_booking_backend.py:83-84 | rebuilding a dict from its values in iteration order gives back the same dict and key order |
| OrderedDicts.PutPut | Nishit/flight_booking_backend.py:53 | storing twice under one key keeps only the second value |
| OrderedDicts.PutSame | Nishit/flight_booking_backend.py:53 | storing a key's own value under it again changes nothing |
| Text.Lower | Nishit/flight_booking_backend.py:131 | `lower()` on ASCII: same length, each character lowered on its own |
| Text.ContainsIffOccurs | Nishit/flight_booking_backend.py:131 | the substring test holds if and only if the query occurs at some position |
| Text.JoinSplit | main.py:54 | joining the pieces of `split(",")` gives back the field |
| Text.SplitJoin | main.py:27 | splitting the join of a non-empty list of comma-free parts gives back the parts |
| Text.JoinEmpty | Nishit/flight_booking_backend.py:32 | only `[]` and `[""]` join to the empty field |
| Collections.RemoveFirst | main.py:114 | `list.remove` cuts out the first occurrence of a present element, at `IndexOf`. The multiset loses one copy, the length drops by one, and an absent element changes nothing |
| Collections.IndexOf | Nishit/flight_booking_backend.py:29 | the first index of the element, or none if and only if the element is absent |
| Collections.RemoveFirstNoDuplicates | Nishit/flight_booking_backend.py:27-29 | from a duplicate-free list, removing an element removes it entirely and keeps the list duplicate-free |
| Collections.RemoveFirstAfterAppend | main.py:98-114 | removing an element just appended to a list that lacked it gives back the list |
| Collections.FilterMembership | Nishit/flight_booking_backend.py:128-133 | an element is in the filter result if and only if it is in the input and passes the test |
| ListManager.Flight.constructor | main.py:6-16 | the new flight's `to_csv_row` is exactly the six given fields |
| ListManager.Passenger.constructor | main.py:19-27 | the new passenger keeps the given list itself; an empty list is not replaced |
| ListManager.BookingManager.constructor | main.py:33-54 | the new manager's lists hold exactly `ListStore.Load` of the rows, in file order, each object once |
| ListManager.NewFlights | main.py:48 | the comprehension builds one distinct flight object per row, holding that row |
| ListManager.NewPassengers | main.py:54 | one distinct passenger object per row, its Booked Flights field split at commas |
| ListManager.BookingManager.FindFlight | main.py:71-75 | the loop returns the first flight with the id, and returns None if and only if none has it |
| ListManager.BookingManager.FindPassenger | main.py:77-81 | the loop returns the first passenger with the id, and returns None if and only if none has it |
| ListManager.BookingManager.BookFlight | main.py:83-100 | the in-place updates and the message are those of `ListStore.Book` on the old state. The objects stay in step with the model, and the two invariants are kept |
| ListManager.BookingManager.CancelBooking | main.py:102-116 | the in-place updates and the message are those of `ListStore.Cancel` on the old state, with the same guarantees |
| ListManager.BookingManager.AdjustSeats | main.py:97 | the seat update on the found flight changes that list position alone |
| ListManager.BookingManager.AppendBookedFlight | main.py:98 | `booked_flights.append` on the found passenger changes that list position alone |
| ListManager.BookingManager.RemoveBookedFlight | main.py:114 | `booked_flights.remove` on the found passenger changes that list position alone |
| ListStore.FindFirst | main.py:71-81 | the index of the first element whose id matches, and none if and only if no element matches |
| ListStore.Book | main.py:83-100 | the messages "not found", "no seats", "already booked" and "successful" each hold if and only if their guards hold, checked in that order. `can_book` is line 29-30. Failures change nothing. On success only the first matching flight loses a seat, and only the first matching passenger gets the id appended |
| ListStore.Cancel | main.py:102-116 | the messages "not found", "no booking" and "canceled" each hold if and only if their guards hold, and failures change nothing. On success only the found flight gains a seat, and the first occurrence of the id leaves the found passenger's list, which is one shorter |
| ListStore.MessagesDiffer | main.py:83-116 | all six messages are pairwise distinct where they can be confused |
| ListStore.SeatsAdjusted | main.py:97 | the flight at the index gets its seat count moved by `delta` and keeps its other fields; every other flight and every passenger stay as they were |
| ListStore.FlightAppended | main.py:98 | the passenger at the index gets the id appended to their list and keeps the other fields; every other passenger and every flight stay as they were |
| ListStore.FlightRemoved | main.py:114 | the passenger at the index loses the first occurrence of the id (`RemoveFirst`) and keeps the other fields; every other passenger and every flight stay as they were |
| ListStore.BookPreservesConsistency | main.py:90-98 | booking keeps every seat count non-negative and every booked-flights list free of duplicates |
| ListStore.CancelPreservesConsistency | main.py:109-114 | cancelling keeps both invariants, and afterwards the id is no longer in the found passenger's list |
| ListStore.BookTwiceRefused | main.py:90-94 | after a successful booking a second one changes nothing. It reports "no seats" if that booking took the last seat and "already booked" otherwise |
| ListStore.CancelUndoesBook | main.py:83-116 | cancelling right after a successful booking succeeds and gives back exactly the earlier store |
| ListStore.FindFirstAfterUpdate | main.py:71-81 | replacing the first match by an element with the same id keeps it the first match |
| ListStore.BookSucceedsIff | main.py:87-100 | booking succeeds if and only if both ids are found, the flight has a free seat and `can_book` holds for the passenger |
| ListStore.LoadPassenger | main.py:54 | the id, name and contact details are copied from the row. The Booked Flights field is split into a non-empty list of comma-free ids that joins back to the field |
| ListStore.Load | main.py:43-54 | the flights are the rows as read, and the passenger at each position is `LoadPassenger` of the row at that position |
| ListStore.EmptyFieldLoadsOneEmptyId | main.py:54 | a passenger saved with no bookings is loaded back holding the one id `""` |
| ListStore.SaveLoadRoundTrip | main.py:43-69 | reloading what `save_data` writes gives back the same store if and only if every passenger holds at least one id, when no id contains a comma |
| BackendStore.Logged | Nishit/flight_booking_backend.py:149 | the booking rows gain exactly one row at the end, `[kind, flight id, passenger id, date of that flight]`; both dicts stay as they were |
| BackendStore.Schedule | Nishit/flight_booking_backend.py:125-126 | one row per flight in key order: the row at each position carries the key at that position and is that flight's row, and every flight is listed |
| BackendStore.PassengerRows | Nishit/flight_booking_backend.py:86-92 | one row per passenger in key order, each the `to_csv_format` row of the passenger under that key |
| BackendStore.SearchFlight | Nishit/flight_booking_backend.py:128-133 | no more results than flights, and every result is the row of the flight filed under its id and matches the query |
| BackendStore.SearchPassenger | Nishit/flight_booking_backend.py:135-140 | no more results than passengers, and every result is the row of the passenger filed under its id and matches the query |
| BackendStore.KeptRows | Nishit/flight_booking_backend.py:104-109 | no more rows than given, and every kept row is one of the given rows and not a `CANCEL` row of this flight and passenger |
| OrderedDicts.FromSeqKeys | Nishit/flight_booking_backend.py:51-53 | the dict's key order is the values' keys in order of first appearance, each once |
| OrderedDicts.FromSeqOnlyGivenKeys | Nishit/flight_booking_backend.py:51-53 | every key of the dict is the key of some value |
| OrderedDicts.FromSeqLastWins | Nishit/flight_booking_backend.py:51-53 | a value that no later value shares a key with is the one filed under its key: the last assignment wins |
| Records.PassengerToRow | Nishit/flight_booking_backend.py:31-32 | the row copies the id, name and contact details, and a non-empty list of comma-free ids is recovered from the joined field by `split(",")` |
| Backend.Passenger.ToCsvFormat | Nishit/flight_booking_backend.py:31-32 | the row copies the id, name and contact details. With comma-free ids, the backend loader reads this passenger back from the row if and only if the list is not `[""]` |
| ListManager.Passenger.ToCsvRow | main.py:26-27 | the row copies the id, name and contact details. With comma-free ids, the `main.py` loader reads this passenger back from the row if and only if the list is not empty |
| ListManager.Passenger.CanBook | main.py:29-30 | `can_book` holds if and only if the id is not in the passenger's list |
| ListStore.CanBook | main.py:29-30 | `can_book` holds if and only if the id occurs zero times in the list, and then appending it keeps a duplicate-free list duplicate-free |
| ListStore.FindFlightFirstMatch | main.py:71-75 | `find_flight` gives the index of the first flight with the id, and none if and only if no flight has it |
| ListStore.FindPassengerFirstMatch | main.py:77-81 | `find_passenger` gives the index of the first passenger with the id, and none if and only if no passenger has it |
| ListStore.CanceledBooked | main.py:97-114 | the two updates of a cancellation undo the two updates of the booking before them at the same positions |
| Text.Contains | Nishit/flight_booking_backend.py:131 | a query that is a prefix of the text is found, and a found query is no longer than the text |
| Text.Join | Nishit/flight_booking_backend.py:32 | the first part is a prefix of `sep.join(parts)` |
| Text.JoinCountsSeparators | Nishit/flight_booking_backend.py:32 | joining n separator-free parts puts exactly n - 1 separators into the field |
| Text.Split | main.py:54 | `split(sep)` gives at least one piece and no piece holds the separator |
| Text.SplitCountsPieces | main.py:54 | a field with n separators splits into exactly n + 1 pieces |
| Collections.Filter | Nishit/flight_booking_backend.py:128-133 | the result is no longer than the input, and each element of it is in the input and passes the test |
| Records.SplitBookedFlightsRoundTrip | main.py:54 | `split(",")` of the joined list (line 27) gives the list back if and only if it is non-empty, when no id contains a comma |

## Left out

- The tkinter interface is not modelled. This covers `Nishit/Main.py`, `chatgpt_integrated.py` and `FlightBookingGUI` in `main.py` (main.py:119-148). It only forwards entry text to the manager and shows the message.
- CSV file reading and writing is not modelled. The loaders take the rows already read, after the header, as parameters, and the header skip itself is not modelled. The saves are modelled as the rows they would write (`Schedule`, `PassengerRows`, `bookings`); the files themselves and CSV quoting are out of scope.
- The missing-file behaviour is not modelled separately. The backend's `FileNotFoundError` branches give an empty collection, which the same loader models when given no rows. `main.py` lets the exception escape.
- `log_update` is not modelled. It checks the file system, opens a file in append mode and reads the wall clock (`datetime.now()`).
- `print` diagnostics are not modelled.
- Seat counts are already integers in the model. `int(...)` of an arbitrary string, and the error it raises on malformed text, are not modelled.
- `str.lower()` is modelled on ASCII letters only. Other Unicode case mappings are not modelled.
- Rows of the wrong length are not modelled. `main.py`'s `Flight(*row)` raises `TypeError` on a row without exactly six fields, and `row[k]` raises `IndexError` on a short row in either loader. The records have their fields by construction.
- `delete_booking` is modelled only as the filter over the rows read. The file read and rewrite are not modelled. The source never calls it, because the call at line 169 is commented out.
- The rows that `to_csv_format()` and `to_csv_row()` return as Python lists are modelled as `FlightRow` / `PassengerRow` values with named fields.
- Backend.BookingManager.LoadData: modelled for the one call the source makes, from the constructor, on empty dicts and an empty bookings list. Called again on a loaded manager, `load_data` would merge the new rows into the existing dicts, and that case is not modelled.
- Aliasing between two passengers' `booked_flights` lists is not modelled. A passenger's list is a value in the model. The loaders create a fresh list per passenger, so no list is shared in either version.
