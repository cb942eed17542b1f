/**
 * Properties of the booking transition and of record creation that relate
 * several requests: a room is never booked twice, success depends only on
 * presence and occupancy, and what the occupancy flags do and do not track.
 */
module BookingProperties {
  import opened Records
  import opened Tables

  // ---------------------------------------------------------------------------
  // Two requests
  // ---------------------------------------------------------------------------

  /** Once a booking succeeds, any later booking of that room by any existing student is refused as a Conflict. */
  lemma SecondBookingConflicts(rooms: map<int, Room>, students: map<int, Student>,
                               first: int, second: int, roomId: int)
    requires Book(rooms, students, first, roomId).response.Ok?
    requires second in students
    ensures var b := Book(rooms, students, first, roomId);
            var again := Book(b.rooms, b.students, second, roomId);
            again.response == Err(Conflict(ROOM_ALREADY_OCCUPIED))
            && again.rooms == b.rooms && again.students == b.students
  {
  }

  /**
   * Success depends on presence and the room's `occupied` flag only: changing
   * the room's capacity or the student's earlier room reference and booking
   * flag changes the response in no case, and on success does not change
   * which tables come out, apart from the changed capacity itself.
   */
  lemma BookIgnoresCapacityAndHistory(rooms: map<int, Room>, students: map<int, Student>,
                                      studentId: int, roomId: int,
                                      capacity: int, priorRoom: Option<int>, priorBooking: bool)
    requires studentId in students && roomId in rooms
    ensures var rooms' := rooms[roomId := rooms[roomId].(capacity := capacity)];
            var students' := students[studentId := students[studentId].(roomId := priorRoom, hasBooking := priorBooking)];
            var b, b' := Book(rooms, students, studentId, roomId), Book(rooms', students', studentId, roomId);
            && b'.response == b.response
            && (b.response.Ok? ==> b'.students == b.students
                                   && b'.rooms == b.rooms[roomId := b.rooms[roomId].(capacity := capacity)])
  {
  }

  /** Any existing student can be booked into any existing room that is not occupied. */
  lemma AnyStudentIntoAnyFreeRoom(rooms: map<int, Room>, students: map<int, Student>, studentId: int, roomId: int)
    requires studentId in students && roomId in rooms && !rooms[roomId].occupied
    ensures Book(rooms, students, studentId, roomId).response == Ok(Confirmation(roomId, studentId))
  {
  }

  // ---------------------------------------------------------------------------
  // Sequences of booking requests
  // ---------------------------------------------------------------------------

  /** A booking request: the student id and the room id from the request path. */
  datatype Request = Request(studentId: int, roomId: int)

  /**
   * The rooms and students tables after serving `requests` one after another.
   * No record appears or disappears, and a room once occupied stays occupied:
   * there is no way to release a booking.
   */
  function AfterAll(rooms: map<int, Room>, students: map<int, Student>, requests: seq<Request>)
    : (after: (map<int, Room>, map<int, Student>))
    ensures after.0.Keys == rooms.Keys && after.1.Keys == students.Keys
    ensures forall k :: k in rooms && rooms[k].occupied ==> after.0[k].occupied
    decreases |requests|
  {
    if requests == [] then (rooms, students)
    else
      var b := Book(rooms, students, requests[0].studentId, requests[0].roomId);
      AfterAll(b.rooms, b.students, requests[1..])
  }

  /** The responses to `requests` served one after another, in order. */
  function Responses(rooms: map<int, Room>, students: map<int, Student>, requests: seq<Request>): (rs: seq<Result<Confirmation>>)
    ensures |rs| == |requests|
    decreases |requests|
  {
    if requests == [] then []
    else
      var b := Book(rooms, students, requests[0].studentId, requests[0].roomId);
      [b.response] + Responses(b.rooms, b.students, requests[1..])
  }

  /** Every request for a room that is already occupied is answered with Conflict or NotFound. */
  lemma {:induction false} OccupiedRoomRefused(rooms: map<int, Room>, students: map<int, Student>,
                                               requests: seq<Request>, roomId: int, i: int)
    requires roomId in rooms && rooms[roomId].occupied
    requires 0 <= i < |requests| && requests[i].roomId == roomId
    ensures Responses(rooms, students, requests)[i].Err?
    decreases |requests|
  {
    var b := Book(rooms, students, requests[0].studentId, requests[0].roomId);
    if i > 0 {
      OccupiedRoomRefused(b.rooms, b.students, requests[1..], roomId, i - 1);
    }
  }

  /** In any sequence of booking requests, no room is successfully booked twice. */
  lemma {:induction false} NoRoomBookedTwice(rooms: map<int, Room>, students: map<int, Student>,
                                             requests: seq<Request>, i: int, j: int)
    requires 0 <= i < j < |requests|
    requires Responses(rooms, students, requests)[i].Ok?
    requires Responses(rooms, students, requests)[j].Ok?
    ensures requests[i].roomId != requests[j].roomId
    decreases |requests|
  {
    var b := Book(rooms, students, requests[0].studentId, requests[0].roomId);
    if i == 0 {
      if requests[j].roomId == requests[0].roomId {
        OccupiedRoomRefused(b.rooms, b.students, requests[1..], requests[0].roomId, j - 1);
      }
    } else {
      NoRoomBookedTwice(b.rooms, b.students, requests[1..], i - 1, j - 1);
    }
  }

  // ---------------------------------------------------------------------------
  // What the occupancy flags track
  // ---------------------------------------------------------------------------

  /** Every room a student refers to, when it exists, is marked occupied. */
  predicate ReferencedRoomsOccupied(rooms: map<int, Room>, students: map<int, Student>) {
    forall s :: (s in students && students[s].roomId.Some? && students[s].roomId.value in rooms)
                ==> rooms[students[s].roomId.value].occupied
  }

  /** A student has a booking exactly when it refers to a room. */
  predicate BookingFlagsMatch(students: map<int, Student>) {
    forall s :: s in students ==> (students[s].hasBooking <==> students[s].roomId.Some?)
  }

  /** Booking keeps both consistency conditions above, when they held before. */
  lemma BookPreservesConsistency(rooms: map<int, Room>, students: map<int, Student>, studentId: int, roomId: int)
    requires ReferencedRoomsOccupied(rooms, students) && BookingFlagsMatch(students)
    ensures var b := Book(rooms, students, studentId, roomId);
            ReferencedRoomsOccupied(b.rooms, b.students) && BookingFlagsMatch(b.students)
  {
  }

  /**
   * A student sent with only an id and a name, stored under a fresh id, keeps
   * both consistency conditions: the payload defaults leave it without a room
   * reference and without a booking.
   */
  lemma NewStudentKeepsConsistency(rooms: map<int, Room>, students: map<int, Student>, id: int, name: string)
    requires ReferencedRoomsOccupied(rooms, students) && BookingFlagsMatch(students)
    requires id !in students
    ensures var students' := students[id := NewStudent(id, name)];
            ReferencedRoomsOccupied(rooms, students') && BookingFlagsMatch(students')
  {
  }

  /**
   * Nothing keeps a room's `occupied` flag in step with the students that
   * refer to it: when a student who is the only occupant of room `from` is
   * booked into another room, `from` stays occupied although no student
   * refers to it any more.
   */
  lemma RebookingStrandsOldRoom(rooms: map<int, Room>, students: map<int, Student>,
                                studentId: int, from: int, to: int)
    requires studentId in students && students[studentId].roomId == Some(from)
    requires from in rooms && rooms[from].occupied
    requires to in rooms && !rooms[to].occupied
    requires forall s :: s in students && s != studentId ==> students[s].roomId != Some(from)
    ensures var b := Book(rooms, students, studentId, to);
            && b.response.Ok?
            && b.rooms[from].occupied
            && forall s :: s in b.students ==> b.students[s].roomId != Some(from)
  {
  }

  // ---------------------------------------------------------------------------
  // Creating records
  // ---------------------------------------------------------------------------

  /** No two rooms share an id, and none of them is in `rooms` yet. */
  predicate FreshIds(rooms: map<int, Room>, rs: seq<Room>) {
    && (forall i :: 0 <= i < |rs| ==> rs[i].id !in rooms)
    && (forall i, j :: 0 <= i < j < |rs| ==> rs[i].id != rs[j].id)
  }

  /** The rooms table after creating the rooms `rs` one after another. */
  function CreateAll(rooms: map<int, Room>, rs: seq<Room>): (t: map<int, Room>)
    decreases |rs|
  {
    if rs == [] then rooms else CreateAll(rooms[rs[0].id := rs[0]], rs[1..])
  }

  lemma FreshIdsTail(rooms: map<int, Room>, rs: seq<Room>)
    requires rs != [] && FreshIds(rooms, rs)
    ensures FreshIds(rooms[rs[0].id := rs[0]], rs[1..])
  {
  }

  /** Creating rooms with fresh ids adds exactly those rows and keeps every other row. */
  lemma {:induction false} CreateAllAdds(rooms: map<int, Room>, rs: seq<Room>)
    requires RoomsKeyed(rooms) && FreshIds(rooms, rs)
    ensures RoomsKeyed(CreateAll(rooms, rs))
    ensures |CreateAll(rooms, rs)| == |rooms| + |rs|
    ensures forall i :: 0 <= i < |rs| ==> rs[i].id in CreateAll(rooms, rs) && CreateAll(rooms, rs)[rs[i].id] == rs[i]
    ensures forall k :: k in rooms ==> k in CreateAll(rooms, rs) && CreateAll(rooms, rs)[k] == rooms[k]
    decreases |rs|
  {
    if rs != [] {
      var next := rooms[rs[0].id := rs[0]];
      FreshIdsTail(rooms, rs);
      CreateAllAdds(next, rs[1..]);
      assert CreateAll(rooms, rs) == CreateAll(next, rs[1..]);
      forall i | 0 <= i < |rs| ensures rs[i].id in CreateAll(rooms, rs) && CreateAll(rooms, rs)[rs[i].id] == rs[i] {
        if i > 0 {
          assert rs[1..][i - 1] == rs[i];
        }
      }
    }
  }

  /**
   * After creating N rooms with fresh ids, the listing holds N more rows, and
   * each created room is returned by a lookup of its id.
   */
  lemma CreatedRoomsListed(rooms: map<int, Room>, rs: seq<Room>)
    requires RoomsKeyed(rooms) && FreshIds(rooms, rs)
    ensures RoomsKeyed(CreateAll(rooms, rs))
    ensures |GetRooms(CreateAll(rooms, rs))| == |GetRooms(rooms)| + |rs|
    ensures forall i :: 0 <= i < |rs| ==> GetRoom(CreateAll(rooms, rs), rs[i].id) == Ok(rs[i])
    ensures forall i :: 0 <= i < |rs| ==> rs[i] in GetRooms(CreateAll(rooms, rs))
  {
    CreateAllAdds(rooms, rs);
    var t := CreateAll(rooms, rs);
    forall i | 0 <= i < |rs| ensures rs[i] in GetRooms(t) {
      assert t[rs[i].id] == rs[i];
      assert rs[i] in t.Values;
    }
  }

  // ---------------------------------------------------------------------------
  // A worked scenario
  // ---------------------------------------------------------------------------

  /**
   * Room 1 and students 1 and 2 are created; booking student 1 into room 1
   * succeeds and marks both records; booking student 2 into the same room is
   * then a Conflict that changes nothing.
   */
  lemma ScenarioSecondStudentRefused()
    ensures var rooms := map[1 := Room(1, "101", 2, false, "good")];
            var students := map[1 := NewStudent(1, "Alice"), 2 := NewStudent(2, "Bob")];
            var first := Book(rooms, students, 1, 1);
            var second := Book(first.rooms, first.students, 2, 1);
            && first.response == Ok(Confirmation(1, 1))
            && GetRoom(first.rooms, 1).value.occupied
            && GetStudent(first.students, 1).value.hasBooking
            && GetStudent(first.students, 1).value.roomId == Some(1)
            && second.response == Err(Conflict(ROOM_ALREADY_OCCUPIED))
            && second.rooms == first.rooms && second.students == first.students
  {
  }
}
