/**
 * The records the calendar front end exchanges with its backend
 * (src/types.ts and the MeetingData interface of Meeting.tsx).
 * TypeScript's optional fields and `undefined` become `Option`.
 */
module Types {

  datatype Option<+T> = None | Some(value: T)

  /** The `position` field of an employee: "manager" or "employee". */
  datatype Position = Manager | Staff

  /** An `Employee` whose every field may be missing (`Partial<Employee>`). */
  datatype PartialEmployee = PartialEmployee(
    id: Option<int>,
    name: Option<string>,
    email: Option<string>,
    position: Option<Position>,
    department: Option<int>)

  /** A complete `Employee`, as listed inside a department. */
  datatype Employee = Employee(
    id: int,
    name: string,
    email: string,
    position: Position,
    department: int)

  /** A `DepartmentResponse` from the department endpoint. */
  datatype Department = Department(
    id: int,
    name: string,
    description: string,
    employees: seq<Employee>)

  /**
   * A point in time as the grid code sees it: a calendar day and the local
   * wall-clock hour and minute (what `getHours` and `getMinutes` return).
   * Parsing the ISO string and the time zone are outside the model.
   */
  datatype Timestamp = Timestamp(day: int, hour: int, minute: int)

  predicate ValidClock(t: Timestamp)
  {
    0 <= t.hour <= 23 && 0 <= t.minute <= 59
  }

  /** A meeting as fetched from the appointment endpoint. */
  datatype MeetingData = MeetingData(
    id: int,
    title: string,
    description: string,
    startTime: Timestamp,
    endTime: Timestamp,
    attendees: seq<PartialEmployee>)
}
