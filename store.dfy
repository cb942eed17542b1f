/**
 * The dormitory store: the four tables, and the operations that add rows to
 * them or update rows in place. Each method is one request handled in one
 * session and committed as a whole.
 */
module Dormitory {
  import opened Records
  import opened Tables

  class Store {
    var rooms: map<int, Room>
    var students: map<int, Student>
    var inventory: map<int, InventoryItem>
    /** Utility bills in insertion order; their store-assigned ids are never exposed. */
    var bills: seq<UtilityBill>

    /** Every table that has a primary key stores each row under that row's id. */
    ghost predicate Valid()
      reads this
    {
      RoomsKeyed(rooms) && StudentsKeyed(students) && ItemsKeyed(inventory)
    }

    /** A freshly created, empty store. */
    constructor ()
      ensures Valid()
      ensures rooms == map[] && students == map[] && inventory == map[] && bills == []
    {
      rooms, students, inventory, bills := map[], map[], map[], [];
    }

    /**
     * Inserts `room` under the id the client chose, exactly as sent (its
     * `occupied` flag included), and returns the stored row.
     */
    method CreateRoom(room: Room) returns (created: Room)
      requires Valid()
      requires room.id !in rooms
      modifies this
      ensures Valid()
      ensures created == room
      ensures rooms == old(rooms)[room.id := room]
      ensures students == old(students) && inventory == old(inventory) && bills == old(bills)
      ensures GetRoom(rooms, room.id) == Ok(room)
      ensures room in GetRooms(rooms) && |GetRooms(rooms)| == |GetRooms(old(rooms))| + 1
    {
      rooms := rooms[room.id := room];
      created := rooms[room.id];
    }

    /**
     * Inserts `student` under the id the client chose. Neither its room
     * reference nor its booking flag is checked.
     */
    method CreateStudent(student: Student) returns (created: Student)
      requires Valid()
      requires student.id !in students
      modifies this
      ensures Valid()
      ensures created == student
      ensures students == old(students)[student.id := student]
      ensures rooms == old(rooms) && inventory == old(inventory) && bills == old(bills)
      ensures GetStudent(students, student.id) == Ok(student)
      ensures student in GetStudents(students) && |GetStudents(students)| == |GetStudents(old(students))| + 1
    {
      students := students[student.id := student];
      created := students[student.id];
    }

    /** Appends a bill; the student it names is not checked. */
    method CreateUtilityBill(bill: UtilityBill) returns (created: UtilityBill)
      modifies this
      ensures created == bill
      ensures bills == old(bills) + [bill]
      ensures rooms == old(rooms) && students == old(students) && inventory == old(inventory)
    {
      bills := bills + [bill];
      created := bills[|bills| - 1];
    }

    /** Inserts `item` under the id the client chose. */
    method CreateInventoryItem(item: InventoryItem) returns (created: InventoryItem)
      requires Valid()
      requires item.id !in inventory
      modifies this
      ensures Valid()
      ensures created == item
      ensures inventory == old(inventory)[item.id := item]
      ensures rooms == old(rooms) && students == old(students) && bills == old(bills)
      ensures item in GetInventory(inventory) && |GetInventory(inventory)| == |GetInventory(old(inventory))| + 1
    {
      inventory := inventory[item.id := item];
      created := inventory[item.id];
    }

    /**
     * Books student `studentId` into room `roomId`: looks both up, refuses a
     * missing record or an occupied room, and otherwise updates the two rows
     * in place. The whole request is one atomic step.
     */
    method BookRoom(studentId: int, roomId: int) returns (response: Result<Confirmation>)
      requires Valid()
      modifies this
      ensures Valid()
      ensures Book(old(rooms), old(students), studentId, roomId) == Booking(response, rooms, students)
      ensures inventory == old(inventory) && bills == old(bills)
    {
      if studentId !in students || roomId !in rooms {
        return Err(NotFound(STUDENT_OR_ROOM_NOT_FOUND));
      }
      var student := students[studentId];
      var room := rooms[roomId];
      if room.occupied {
        return Err(Conflict(ROOM_ALREADY_OCCUPIED));
      }
      student := student.(roomId := Some(roomId));
      student := student.(hasBooking := true);
      room := room.(occupied := true);
      students := students[studentId := student];
      rooms := rooms[roomId := room];
      response := Ok(Confirmation(roomId, studentId));
    }
  }
}
