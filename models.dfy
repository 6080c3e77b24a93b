/** Optional values and error-carrying results, standing in for Go's
    `(value, error)` return pairs. */
module Wrappers {

  datatype Option<+T> = None | Some(value: T)

  datatype Result<+T, +E> = Ok(value: T) | Err(error: E)
}

/** The records the session engine keeps in memory (models/sessions.go) and the
    scan message an attendee sends (models/requests.go). */
module Models {
  import opened Ints

  /** One roster entry of a live session: identity plus presence. */
  datatype Student = Student(prn: string, srn: string, name: string, isPresent: bool)

  /** A rotating code: its 32-bit value and its millisecond validity stamps. */
  datatype RandomId = RandomId(id: uint32, createdAt: int64, expiredAt: int64)

  /** Go's zero value of RandomID, which a fresh session holds as its current code:
      an ID of 0 means "no code issued yet". */
  const NoRandomId := RandomId(0, 0, 0)

  datatype Session = Session(
    currentRandomId: RandomId,
    pastRandomIds: seq<RandomId>,
    classroomTable: string,
    students: seq<Student>,
    teacherQRRenderingLatency: int64)

  /** A scan submission; `scannedAt` is the already-parsed client timestamp. */
  datatype ScanMessage = ScanMessage(sessionId: uint32, scannedRandomId: uint32, scannedAt: int64, srn: string)

  /** The snapshot pushed to a session's presenter when presence changes. */
  datatype AttendanceChangeEvent = AttendanceChangeEvent(
    sessionId: uint32,
    absentees: seq<Student>,
    presentees: seq<Student>)
}
