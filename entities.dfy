/**
 * The records the solver reads and builds. Only the fields that the solver
 * looks at are kept; the database columns it never reads (course name and
 * credits, room capacity, building and floor, time-slot start and end times)
 * are not part of this model.
 */
module Entities {
  import opened Wrappers

  /** A course, keyed by its code; `ctype` is the free-text type column ("LECTURE", "LAB", ...). */
  datatype Course = Course(code: string, ctype: string)

  /**
   * An instructor. Both text columns are nullable: `preferredSlots` holds free text
   * such as "Not on Sunday", `qualifiedCourses` a comma-separated list of course codes.
   */
  datatype Instructor = Instructor(externalId: string, preferredSlots: Option<string>, qualifiedCourses: Option<string>)

  /** A room, keyed by its name, with its free-text type column. */
  datatype Room = Room(name: string, rtype: string)

  /** A time slot with its numeric id and its day name ("Sunday", "Monday", ...). */
  datatype TimeSlot = TimeSlot(id: int, day: string)

  /** One element of a course's domain: a (timeslot, room, instructor) triple. */
  datatype Candidate = Candidate(timeslot: TimeSlot, room: Room, instructor: Instructor)

  /**
   * A candidate committed to a course during the search. The source's record also
   * copies the instructor id, room name and timeslot id into fields of their own;
   * here they are read off the candidate.
   */
  datatype Placement = Placement(courseCode: string, cand: Candidate)
  {
    function InstructorId(): string { cand.instructor.externalId }
    function RoomName(): string { cand.room.name }
    function TimeslotId(): int { cand.timeslot.id }
  }

  /** The four-field timetable entry that a successful solve returns, one per course. */
  datatype TimetableEntry = TimetableEntry(courseCode: string, instructorId: string, roomName: string, timeslotId: int)

  /** The projection of a committed placement to its timetable entry. */
  function EntryOf(p: Placement): TimetableEntry
  {
    TimetableEntry(p.courseCode, p.InstructorId(), p.RoomName(), p.TimeslotId())
  }
}
