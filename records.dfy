/**
 * The records of the dormitory store and the outcomes its operations report.
 *
 * Each record mirrors one table row (main.py:19-49) as the API exchanges it
 * (main.py:57-82). Integers are unbounded: the store's 64-bit column width
 * is not part of this model.
 */
module Records {

  /** A value that may be absent (a nullable column). */
  datatype Option<+T> = None | Some(value: T)

  /** The two error kinds the operations raise instead of returning. */
  datatype Error =
    | NotFound(detail: string)
    | Conflict(detail: string)

  /** An operation's answer: the record it returns, or the error it raises. */
  datatype Result<+T> = Ok(value: T) | Err(error: Error)

  /** Error details, exactly as the operations word them. */
  const ROOM_NOT_FOUND: string := "Room not found"
  const STUDENT_NOT_FOUND: string := "Student not found"
  const STUDENT_OR_ROOM_NOT_FOUND: string := "Student or Room not found"
  const ROOM_ALREADY_OCCUPIED: string := "Room is already occupied"

  /** A row of the `rooms` table. */
  datatype Room = Room(id: int, name: string, capacity: int, occupied: bool, condition: string)

  /** A row of the `students` table; `roomId` is a nullable reference to a room. */
  datatype Student = Student(id: int, name: string, roomId: Option<int>, hasBooking: bool)

  /**
   * A row of the `utility_bills` table as the API exchanges it: the row's own
   * id is assigned by the store and never returned. The amount is a floating
   * point number that no operation computes with; it is carried as a `real`.
   */
  datatype UtilityBill = UtilityBill(studentId: int, amount: real, dueDate: string)

  /** A row of the `inventory` table. */
  datatype InventoryItem = InventoryItem(id: int, name: string, quantity: int, condition: string)

  /** The condition report of one room: its id and its condition text. */
  datatype RoomCondition = RoomCondition(roomId: int, condition: string)

  /** The acknowledgement of a successful booking, naming the room and the student. */
  datatype Confirmation = Confirmation(roomId: int, studentId: int)

  /** A student record as the API fills it in when only id and name are sent. */
  function NewStudent(id: int, name: string): (s: Student)
    ensures s.id == id && s.name == name
    ensures s.roomId == None && !s.hasBooking
  {
    Student(id, name, None, false)
  }
}
