# Dormitory record store, modelled in Dafny

This project models the record store behind a small dormitory-management
web service. The store keeps rooms, students, utility bills and inventory
items, and supports one composite action: booking a room for a student.

- `records.dfy` (module `Records`) holds the records: `Room`, `Student`,
  `UtilityBill` and `InventoryItem`. It also holds the outcome types: `Result`
  carries either the returned record or an `Error`, which is `NotFound` or
  `Conflict` together with the service's exact detail text.
- `tables.dfy` (module `Tables`) holds the read operations as pure functions
  over the tables. A table is a map from primary key to row. This module also
  holds `Book`, the booking transition stated as a function from the two
  tables before the request to the response and the two tables after it.
- `store.dfy` (module `Dormitory`) holds the class `Store`. Its fields are the
  four tables. Its methods add rows and perform the booking by updating the
  two rows in place. `BookRoom` is proved equal to `Book`.
- `booking.dfy` (module `BookingProperties`) holds the properties that relate
  several requests. A room is never booked twice in any sequence of requests.
  Booking ignores capacity and the student's earlier booking. It also says
  which consistency conditions booking keeps and which it does not.

A table listing returns the rows in ascending primary-key order. The listing
query has no ORDER BY; the model uses SQLite's rowid order, which is ascending
id. The utility-bill listing (`get_utility_bills`) is the `Store.bills` field
itself, in insertion order, and `Store.CreateUtilityBill` appends to it.

Points where the code may surprise a reader:

- Room and student ids are chosen by the client, not assigned by the store.
  Every create therefore requires an id that is not yet in use.
- `occupied` has no default in the room payload. `create_room` stores whatever
  flag the client sends, so a room can be created already occupied. A student
  payload does default to no room and no booking (`Records.NewStudent`).
- Nothing keeps a room's `occupied` flag in step with the students that refer
  to it. `create_room` and `create_student` accept any flags and references.
  Re-booking a student leaves the old room occupied with no occupant
  (`RebookingStrandsOldRoom`). Only the half that booking does keep is proved
  (`BookPreservesConsistency`, and `NewStudentKeepsConsistency` for a student
  created with the payload defaults).

## Model

| member | source | states |
|---|---|---|
| `BookingProperties.NewStudentKeepsConsistency` | main.py:65-69 | storing a student sent with only id and name (no room reference, no booking, by the payload defaults) under a fresh id keeps "every referenced room is occupied" and "booking flag matches room reference" |
| `Tables.GetRooms` | main.py:105-106 | lists every stored room exactly once, and nothing else, in ascending id order |
| `Tables.GetRoom` | main.py:110-114 | a present id returns the stored room, whose id is that id; an absent id fails with NotFound "Room not found" |
| `Tables.GetRoomCondition` | main.py:172-176 | succeeds exactly when `GetRoom` does, returns exactly that room's id and condition; otherwise NotFound "Room not found" |
| `Tables.GetStudents` | main.py:128-129 | lists every stored student exactly once, and nothing else, in ascending id order |
| `Tables.GetStudent` | main.py:133-137 | a present id returns the stored student, whose id is that id; an absent id fails with NotFound "Student not found" |
| `Tables.GetInventory` | main.py:166-167 | lists every stored inventory item exactly once, and nothing else, in ascending id order |
| `Tables.Book` | main.py:181-196 | NotFound "Student or Room not found" exactly when either record is missing, whatever the occupancy; Conflict "Room is already occupied" exactly when both exist and the room is occupied; an error changes nothing; success confirms (room, student), sets the student's room reference and booking flag and the room's occupied flag, keeps every other field and every other record, and adds or removes no record |
| `Tables.BookKeepsKeyed` | main.py:191-193 | booking never changes a record's id, so both tables stay keyed by id |
| `Dormitory.Store.CreateRoom` | main.py:96-101 | the room is stored under its own id as sent, including its occupied flag; `GetRoom` then returns it and the listing gains exactly that row; no other table changes |
| `Dormitory.Store.CreateStudent` | main.py:119-124 | the student is stored as sent (a payload without room reference or booking flag arrives as `NewStudent` gives it) with no check of its room reference or booking flag; `GetStudent` then returns it and the listing gains exactly that row |
| `Dormitory.Store.CreateUtilityBill` | main.py:142-152 | the bill is appended as sent, with no check of the student it names, so the bill listing (the `bills` field) is the earlier listing followed by the new bill; nothing else changes |
| `Dormitory.Store.CreateInventoryItem` | main.py:157-162 | the item is stored under its own id and the listing gains exactly that row |
| `Dormitory.Store.BookRoom` | main.py:181-196 | the in-place update of the two rows yields exactly the response and tables of `Book`; bills and inventory are untouched |
| `BookingProperties.SecondBookingConflicts` | main.py:188-193 | after a successful booking, booking the same room for any existing student is a Conflict that changes nothing |
| `BookingProperties.BookIgnoresCapacityAndHistory` | main.py:185-193 | changing the room's capacity or the student's earlier room reference and booking flag changes neither the response nor, on success, the resulting tables, apart from the capacity itself |
| `BookingProperties.AnyStudentIntoAnyFreeRoom` | main.py:185-193 | any existing student can be booked into any existing unoccupied room |
| `BookingProperties.AfterAll` | main.py:181-196 | over any sequence of booking requests no record appears or disappears, and an occupied room stays occupied |
| `BookingProperties.OccupiedRoomRefused` | main.py:185-189 | in any sequence of requests, every request for a room that is already occupied fails |
| `BookingProperties.NoRoomBookedTwice` | main.py:188-193 | in any sequence of booking requests, two successful bookings never name the same room |
| `BookingProperties.BookPreservesConsistency` | main.py:191-193 | if every referenced room is occupied and booking flags match room references, both still hold after a booking |
| `BookingProperties.RebookingStrandsOldRoom` | main.py:181-196 | booking the only occupant of one room into another free room succeeds and leaves the old room occupied with no student referring to it |
| `BookingProperties.CreateAllAdds` | main.py:96-101 | creating rooms with fresh, distinct ids adds exactly those rows under their ids and keeps every earlier row |
| `BookingProperties.CreatedRoomsListed` | main.py:96-114 | after N room creations the listing holds N more rows, containing each created room, and `GetRoom` returns each of them by its id |
| `BookingProperties.ScenarioSecondStudentRefused` | main.py:181-196 | room 1 booked for student 1 marks both records; then booking it for student 2 is a Conflict that changes nothing |

## Left out

- The health-check route, web routing and the mapping of errors to HTTP status codes (404 and 400) are left out. Only the error kinds and their detail texts are modelled.
- Database engine setup, schema creation and the per-request session are I/O and library plumbing. Each request is one atomic step of the `Store` methods.
- Creating a row whose id is already taken fails at commit with an unhandled store error. The model requires a fresh id instead of modelling that failure.
- The store's 64-bit integer columns are not modelled: ids, capacities and quantities are unbounded integers.
- Payload type coercion and validation are not modelled. Records arrive already typed.
- A utility bill's amount is a floating-point number. It is carried as a `real` that no operation computes with. The store-assigned bill id is never returned and is not modelled.
- The success message of a booking is reduced to its two ids: `Book` answers `Confirmation(roomId, studentId)` in place of the formatted text "Room <room id> booked for student <student id>".
- Two concurrent bookings of one room can both pass the occupancy check. That race comes from concurrency and is not modelled, because each booking is one atomic step.
