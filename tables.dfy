/**
 * The read side of the dormitory store and the booking transition, as pure
 * functions over the tables. A table is a map from primary key to row.
 */
module Tables {
  import opened Records

  /** Every row of the rooms table is stored under its own id. */
  predicate RoomsKeyed(rooms: map<int, Room>) {
    forall k :: k in rooms ==> rooms[k].id == k
  }

  /** Every row of the students table is stored under its own id. */
  predicate StudentsKeyed(students: map<int, Student>) {
    forall k :: k in students ==> students[k].id == k
  }

  /** Every row of the inventory table is stored under its own id. */
  predicate ItemsKeyed(inventory: map<int, InventoryItem>) {
    forall k :: k in inventory ==> inventory[k].id == k
  }

  // ---------------------------------------------------------------------------
  // Scanning a table in primary-key order
  // ---------------------------------------------------------------------------

  lemma {:induction false} HasLeast(keys: set<int>)
    requires keys != {}
    ensures exists m :: m in keys && forall k :: k in keys ==> m <= k
    decreases |keys|
  {
    var x := PickKey(keys);
    var rest := keys - {x};
    if rest == {} {
      forall k | k in keys ensures x <= k {
        assert k == x || k in rest;
      }
    } else {
      HasLeast(rest);
      var m :| m in rest && forall k :: k in rest ==> m <= k;
      var least := if x < m then x else m;
      forall k | k in keys ensures least <= k {
        if k != x { assert k in rest; }
      }
    }
  }

  /** Some key of a non-empty key set. */
  lemma PickKey(keys: set<int>) returns (x: int)
    requires keys != {}
    ensures x in keys
  {
    if forall k :: k !in keys {
      assert false;
    }
    x :| x in keys;
  }

  /** The smallest key of a non-empty key set. */
  function Least(keys: set<int>): (m: int)
    requires keys != {}
    ensures m in keys
    ensures forall k :: k in keys ==> m <= k
  {
    HasLeast(keys);
    var m :| m in keys && forall k :: k in keys ==> m <= k;
    m
  }

  /** The keys of a table in the order a full scan visits them: ascending. */
  function AscendingKeys(keys: set<int>): (ks: seq<int>)
    ensures |ks| == |keys|
    ensures forall k :: k in ks <==> k in keys
    ensures forall i, j :: 0 <= i < j < |ks| ==> ks[i] < ks[j]
    decreases |keys|
  {
    if keys == {} then []
    else
      var m := Least(keys);
      [m] + AscendingKeys(keys - {m})
  }

  /** All rows of a table, in ascending key order. */
  function Scan<T(==,!new)>(table: map<int, T>): (rows: seq<T>)
    ensures |rows| == |table|
    ensures forall i :: 0 <= i < |rows| ==> AscendingKeys(table.Keys)[i] in table
    ensures forall i :: 0 <= i < |rows| ==> rows[i] == table[AscendingKeys(table.Keys)[i]]
    ensures forall v :: v in rows <==> v in table.Values
  {
    var ks := AscendingKeys(table.Keys);
    var rows := seq(|ks|, i requires 0 <= i < |ks| => table[ks[i]]);
    ScanCoversValues(table, ks, rows);
    rows
  }

  lemma ScanCoversValues<T>(table: map<int, T>, ks: seq<int>, rows: seq<T>)
    requires forall k :: k in ks <==> k in table
    requires forall i :: 0 <= i < |ks| ==> ks[i] in table
    requires |rows| == |ks|
    requires forall i :: 0 <= i < |ks| ==> rows[i] == table[ks[i]]
    ensures forall v :: v in table.Values ==> v in rows
  {
    forall v | v in table.Values ensures v in rows {
      var k := KeyOf(table, v);
      var i :| 0 <= i < |ks| && ks[i] == k;
      assert rows[i] == v;
    }
  }

  /** A key under which a stored row sits. */
  lemma KeyOf<T>(table: map<int, T>, v: T) returns (k: int)
    requires v in table.Values
    ensures k in table && table[k] == v
  {
    if forall j :: j in table ==> table[j] != v {
      assert false;
    }
    k :| k in table && table[k] == v;
  }

  // ---------------------------------------------------------------------------
  // get_rooms, get_room, get_room_condition
  // ---------------------------------------------------------------------------

  /** Every room, each once, in ascending id order. */
  function GetRooms(rooms: map<int, Room>): (r: seq<Room>)
    requires RoomsKeyed(rooms)
    ensures |r| == |rooms|
    ensures forall x :: x in r <==> x in rooms.Values
    ensures forall i, j :: 0 <= i < j < |r| ==> r[i].id < r[j].id
  {
    Scan(rooms)
  }

  /** The room stored under `id`, or NotFound when there is none. */
  function GetRoom(rooms: map<int, Room>, id: int): (r: Result<Room>)
    ensures r.Ok? <==> id in rooms
    ensures r.Ok? ==> r.value == rooms[id]
    ensures RoomsKeyed(rooms) && r.Ok? ==> r.value.id == id
    ensures r.Err? ==> r.error == NotFound(ROOM_NOT_FOUND)
  {
    if id in rooms then Ok(rooms[id]) else Err(NotFound(ROOM_NOT_FOUND))
  }

  /** The id and condition of the room stored under `id`, or NotFound. */
  function GetRoomCondition(rooms: map<int, Room>, id: int): (r: Result<RoomCondition>)
    ensures r.Ok? <==> GetRoom(rooms, id).Ok?
    ensures r.Ok? ==> r.value == RoomCondition(GetRoom(rooms, id).value.id, GetRoom(rooms, id).value.condition)
    ensures RoomsKeyed(rooms) && r.Ok? ==> r.value.roomId == id
    ensures r.Err? ==> r == Err(NotFound(ROOM_NOT_FOUND))
  {
    if id !in rooms then Err(NotFound(ROOM_NOT_FOUND))
    else
      var room := rooms[id];
      Ok(RoomCondition(room.id, room.condition))
  }

  // ---------------------------------------------------------------------------
  // get_students, get_student
  // ---------------------------------------------------------------------------

  /** Every student, each once, in ascending id order. */
  function GetStudents(students: map<int, Student>): (r: seq<Student>)
    requires StudentsKeyed(students)
    ensures |r| == |students|
    ensures forall x :: x in r <==> x in students.Values
    ensures forall i, j :: 0 <= i < j < |r| ==> r[i].id < r[j].id
  {
    Scan(students)
  }

  /** The student stored under `id`, or NotFound when there is none. */
  function GetStudent(students: map<int, Student>, id: int): (r: Result<Student>)
    ensures r.Ok? <==> id in students
    ensures r.Ok? ==> r.value == students[id]
    ensures StudentsKeyed(students) && r.Ok? ==> r.value.id == id
    ensures r.Err? ==> r.error == NotFound(STUDENT_NOT_FOUND)
  {
    if id in students then Ok(students[id]) else Err(NotFound(STUDENT_NOT_FOUND))
  }

  // ---------------------------------------------------------------------------
  // get_inventory, get_utility_bills
  // ---------------------------------------------------------------------------

  /** Every inventory item, each once, in ascending id order. */
  function GetInventory(inventory: map<int, InventoryItem>): (r: seq<InventoryItem>)
    requires ItemsKeyed(inventory)
    ensures |r| == |inventory|
    ensures forall x :: x in r <==> x in inventory.Values
    ensures forall i, j :: 0 <= i < j < |r| ==> r[i].id < r[j].id
  {
    Scan(inventory)
  }

  // ---------------------------------------------------------------------------
  // book_room
  // ---------------------------------------------------------------------------

  /** The answer of one booking request together with both tables after it. */
  datatype Booking = Booking(response: Result<Confirmation>, rooms: map<int, Room>, students: map<int, Student>)

  /**
   * Booking student `studentId` into room `roomId`: NotFound when either
   * record is missing (checked before anything else), Conflict when the room
   * is already occupied, and otherwise exactly three fields change: the
   * student's room reference and booking flag, and the room's occupied flag.
   * Neither the room's capacity nor the student's earlier booking is consulted.
   */
  function Book(rooms: map<int, Room>, students: map<int, Student>, studentId: int, roomId: int): (b: Booking)
    // outcome
    ensures b.response == Err(NotFound(STUDENT_OR_ROOM_NOT_FOUND)) <==> studentId !in students || roomId !in rooms
    ensures b.response == Err(Conflict(ROOM_ALREADY_OCCUPIED))
            <==> studentId in students && roomId in rooms && rooms[roomId].occupied
    ensures b.response.Ok? <==> studentId in students && roomId in rooms && !rooms[roomId].occupied
    ensures b.response.Ok? ==> b.response.value == Confirmation(roomId, studentId)
    // a failed booking changes nothing
    ensures b.response.Err? ==> b.rooms == rooms && b.students == students
    // no record appears or disappears, and every other record is untouched
    ensures b.rooms.Keys == rooms.Keys && b.students.Keys == students.Keys
    ensures forall k :: k in rooms && k != roomId ==> b.rooms[k] == rooms[k]
    ensures forall k :: k in students && k != studentId ==> b.students[k] == students[k]
    // the booked room: only `occupied` changes, and it becomes true
    ensures b.response.Ok? ==>
              var before, after := rooms[roomId], b.rooms[roomId];
              && after.occupied
              && after.id == before.id && after.name == before.name
              && after.capacity == before.capacity && after.condition == before.condition
    // the booked student: only `roomId` and `hasBooking` change
    ensures b.response.Ok? ==>
              var before, after := students[studentId], b.students[studentId];
              && after.roomId == Some(roomId) && after.hasBooking
              && after.id == before.id && after.name == before.name
  {
    if studentId !in students || roomId !in rooms then
      Booking(Err(NotFound(STUDENT_OR_ROOM_NOT_FOUND)), rooms, students)
    else if rooms[roomId].occupied then
      Booking(Err(Conflict(ROOM_ALREADY_OCCUPIED)), rooms, students)
    else
      var student := students[studentId];
      var room := rooms[roomId];
      Booking(Ok(Confirmation(roomId, studentId)),
              rooms[roomId := room.(occupied := true)],
              students[studentId := student.(roomId := Some(roomId), hasBooking := true)])
  }

  /** Booking keeps both tables keyed by their records' ids. */
  lemma BookKeepsKeyed(rooms: map<int, Room>, students: map<int, Student>, studentId: int, roomId: int)
    requires RoomsKeyed(rooms) && StudentsKeyed(students)
    ensures RoomsKeyed(Book(rooms, students, studentId, roomId).rooms)
    ensures StudentsKeyed(Book(rooms, students, studentId, roomId).students)
  {
  }
}
