/**
 * Values shared by the photo-based attendance pipeline of the teacher's
 * Attendance page: the displayed class list, the roster of enrolled faces,
 * the slots of the attendance roll and the usual Option/Result wrappers.
 */
module AttendanceTypes {

  /** A face descriptor as the recognition network produces it (128 numbers in practice). */
  type Descriptor = seq<real>

  /** One row of the displayed class list: roll number (`id`) and name. */
  datatype Student = Student(id: string, name: string)

  /**
   * One record of the face roster fetched for the class. A record stored
   * without a descriptor and one stored with an empty descriptor are treated
   * alike by the matcher, so both are the empty sequence here.
   */
  datatype Enrolled = Enrolled(id: string, name: string, faceDescriptor: Descriptor)

  /**
   * One slot of the attendance roll. `Unmarked` is a hole the page never
   * wrote, left when a single slot is assigned beyond the roll's end.
   * Positions past the end of a shorter roll (the empty roll after "Clear
   * All", for one) are not slots at all and read as not Present.
   */
  datatype Status = Present | Absent | Unmarked

  datatype Option<T> = None | Some(value: T)

  datatype Result<T, E> = Success(value: T) | Failure(error: E)
}
