/** The in-memory session engine (sessions/teacher.go, sessions/student.go): the
    store of live sessions keyed by session ID and the per-session bounded queues of
    attendance snapshots. Every operation runs atomically; the asynchronous
    notification of the source is performed synchronously at the point it is launched. */
module Engine {
  import opened Ints
  import opened Wrappers
  import opened Models
  import opened Roster
  import opened Rotation
  import Scan

  /** Buffer size of each session's event channel. */
  const QueueCapacity: nat := 10

  datatype EngineError =
    | RosterUnavailable(cause: string)       // the roster lookup's own error, passed through
    | SessionNotFound                        // "session not found"
    | SessionIdNotFound(id: uint32)          // "session %d not found"
    | StudentNotInSession(srn: string, id: uint32)

  /** A session as CreateSession stores it: the roster and latency given, no code yet
      (the zero RandomID) and no history. */
  function NewSession(classroomTable: string, students: seq<Student>, latency: int64): (s: Session)
    ensures s.currentRandomId.id == 0 && s.pastRandomIds == []
    ensures s.students == students && s.teacherQRRenderingLatency == latency
  {
    Session(NoRandomId, [], classroomTable, students, latency)
  }

  /** The event a notification pushes: the session's current absentee/presentee split. */
  function Snapshot(id: uint32, students: seq<Student>): (e: AttendanceChangeEvent)
    ensures e.sessionId == id
    ensures |e.absentees| + |e.presentees| == |students|
  {
    PartitionIsComplete(students);
    AttendanceChangeEvent(id, Absentees(students), Presentees(students))
  }

  predicate QueuesBounded(queues: map<uint32, seq<AttendanceChangeEvent>>) {
    forall k :: k in queues ==> |queues[k]| <= QueueCapacity
  }

  /** notifyAttendanceChange on the queue map: a snapshot is enqueued only when the
      session has a queue, the session exists and the queue has room; otherwise the
      event is dropped. No other queue is touched. */
  function AfterNotify(queues: map<uint32, seq<AttendanceChangeEvent>>, sessions: map<uint32, Session>, id: uint32)
    : (r: map<uint32, seq<AttendanceChangeEvent>>)
    ensures r.Keys == queues.Keys
    ensures forall k :: k in queues && k != id ==> r[k] == queues[k]
    ensures id in queues ==>
      if id in sessions && |queues[id]| < QueueCapacity
      then r[id] == queues[id] + [Snapshot(id, sessions[id].students)]
      else r[id] == queues[id]
    ensures QueuesBounded(queues) ==> QueuesBounded(r)
  {
    if id in queues && id in sessions && |queues[id]| < QueueCapacity
    then queues[id := queues[id] + [Snapshot(id, sessions[id].students)]]
    else queues
  }

  class SessionEngine {
    var sessions: map<uint32, Session>
    var queues: map<uint32, seq<AttendanceChangeEvent>>

    /** No queue ever holds more than its capacity. */
    ghost predicate Valid()
      reads this
    {
      QueuesBounded(queues)
    }

    constructor ()
      ensures Valid()
      ensures sessions == map[] && queues == map[]
    {
      sessions := map[];
      queues := map[];
    }

    /** Stores a session for the given roster under `newId` (overwriting any session
        already there) and pushes a first snapshot; a failed roster lookup stores nothing. */
    method CreateSession(classroomTable: string, roster: Result<seq<Student>, string>, latency: int64, newId: uint32)
      returns (r: Result<(uint32, seq<Student>), EngineError>)
      requires Valid()
      modifies this
      ensures Valid()
      ensures roster.Err? ==>
        && r == Err(RosterUnavailable(roster.error))
        && sessions == old(sessions) && queues == old(queues)
      ensures roster.Ok? ==>
        && r == Ok((newId, roster.value))
        && sessions == old(sessions)[newId := NewSession(classroomTable, roster.value, latency)]
        && queues == AfterNotify(old(queues), sessions, newId)
    {
      if roster.Err? {
        return Err(RosterUnavailable(roster.error));
      }
      sessions := sessions[newId := NewSession(classroomTable, roster.value, latency)];
      NotifyAttendanceChange(newId);
      return Ok((newId, roster.value));
    }

    /** Archives the current code (stamped with `now`) unless its ID is 0, and installs
        `code` as current. */
    method UpdateRandomID(id: uint32, code: RandomId, now: int64) returns (err: Option<EngineError>)
      requires Valid()
      modifies this
      ensures Valid()
      ensures id !in old(sessions) ==> err == Some(SessionNotFound) && sessions == old(sessions)
      ensures id in old(sessions) ==>
        && err == None
        && sessions == old(sessions)[id := Rotate(old(sessions)[id], code, now)]
      ensures queues == old(queues)
    {
      if id !in sessions {
        return Some(SessionNotFound);
      }
      var session := sessions[id];
      if session.currentRandomId.id != 0 {
        var archived := session.currentRandomId.(expiredAt := now);
        session := session.(pastRandomIds := session.pastRandomIds + [archived]);
      }
      session := session.(currentRandomId := code);
      sessions := sessions[id := session];
      return None;
    }

    method DeleteSession(id: uint32)
      requires Valid()
      modifies this
      ensures Valid()
      ensures sessions == old(sessions) - {id}
      ensures queues == old(queues)
    {
      sessions := sessions - {id};
    }

    /** Splits the roster into absentees and presentees, each in roster order. */
    method GetAttendanceList(id: uint32) returns (r: Result<(seq<Student>, seq<Student>), EngineError>)
      ensures id !in sessions ==> r == Err(SessionIdNotFound(id))
      ensures id in sessions ==>
        r == Ok((Absentees(sessions[id].students), Presentees(sessions[id].students)))
    {
      if id !in sessions {
        return Err(SessionIdNotFound(id));
      }
      var students := sessions[id].students;
      var absentees: seq<Student> := [];
      var presentees: seq<Student> := [];
      var i := 0;
      while i < |students|
        invariant 0 <= i <= |students|
        invariant absentees == Absentees(students[..i])
        invariant presentees == Presentees(students[..i])
      {
        assert students[..i + 1][..i] == students[..i];
        if !students[i].isPresent {
          absentees := absentees + [students[i]];
        } else {
          presentees := presentees + [students[i]];
        }
        i := i + 1;
      }
      assert students[..i] == students;
      return Ok((absentees, presentees));
    }

    /** The presenter's override: flips the first entry with this SRN and notifies. */
    method ToggleStudentAttendance(id: uint32, srn: string) returns (err: Option<EngineError>)
      requires Valid()
      modifies this
      ensures Valid()
      ensures id !in old(sessions) ==>
        err == Some(SessionIdNotFound(id)) && sessions == old(sessions) && queues == old(queues)
      ensures id in old(sessions) && !HasSrn(old(sessions)[id].students, srn) ==>
        err == Some(StudentNotInSession(srn, id)) && sessions == old(sessions) && queues == old(queues)
      ensures id in old(sessions) && HasSrn(old(sessions)[id].students, srn) ==>
        && err == None
        && sessions == old(sessions)[id := old(sessions)[id].(students := Toggled(old(sessions)[id].students, srn).value)]
        && queues == AfterNotify(old(queues), sessions, id)
    {
      if id !in sessions {
        return Some(SessionIdNotFound(id));
      }
      var session := sessions[id];
      var students := session.students;
      var found := false;
      var i := 0;
      while i < |students|
        invariant 0 <= i <= |students|
        invariant forall k :: 0 <= k < i ==> students[k].srn != srn
      {
        if students[i].srn == srn {
          students := students[i := students[i].(isPresent := !students[i].isPresent)];
          found := true;
          break;
        }
        i := i + 1;
      }
      if !found {
        return Some(StudentNotInSession(srn, id));
      }
      sessions := sessions[id := session.(students := students)];
      NotifyAttendanceChange(id);
      return None;
    }

    /** Gives the session a fresh, empty queue, replacing any queue it had. */
    method RegisterForAttendanceChanges(id: uint32)
      requires Valid()
      modifies this
      ensures Valid()
      ensures queues == old(queues)[id := []]
      ensures sessions == old(sessions)
    {
      queues := queues[id := []];
    }

    /** Closes and removes the session's queue; nothing happens when it has none. */
    method UnregisterFromAttendanceChanges(id: uint32)
      requires Valid()
      modifies this
      ensures Valid()
      ensures queues == old(queues) - {id}
      ensures sessions == old(sessions)
    {
      if id in queues {
        queues := queues - {id};
      }
    }

    /** Non-blocking push of the current snapshot; dropped when the queue is full. */
    method NotifyAttendanceChange(id: uint32)
      requires Valid()
      modifies this
      ensures Valid()
      ensures sessions == old(sessions)
      ensures queues == AfterNotify(old(queues), sessions, id)
    {
      if id !in queues {
        return;
      }
      var ch := queues[id];
      var lists := GetAttendanceList(id);
      if lists.Err? {
        return;
      }
      if |ch| < QueueCapacity {
        queues := queues[id := ch + [AttendanceChangeEvent(id, lists.value.0, lists.value.1)]];
      }
    }

    /** The presenter's receive on its channel: the oldest buffered snapshot, or None
        when nothing is buffered or the queue is gone. */
    method ReceiveEvent(id: uint32) returns (e: Option<AttendanceChangeEvent>)
      requires Valid()
      modifies this
      ensures Valid()
      ensures sessions == old(sessions)
      ensures id in old(queues) && |old(queues)[id]| > 0 ==>
        e == Some(old(queues)[id][0]) && queues == old(queues)[id := old(queues)[id][1..]]
      ensures !(id in old(queues) && |old(queues)[id]| > 0) ==>
        e == None && queues == old(queues)
    {
      if id in queues && |queues[id]| > 0 {
        e := Some(queues[id][0]);
        queues := queues[id := queues[id][1..]];
      } else {
        e := None;
      }
    }

    /** Applies an accepted scan: the first entry with this SRN becomes present if it was
        absent, and only then is a snapshot pushed. Already present or unknown SRN: success,
        no change. */
    method MarkStudentPresent(id: uint32, srn: string) returns (err: Option<EngineError>)
      requires Valid()
      modifies this
      ensures Valid()
      ensures id !in old(sessions) ==>
        err == Some(SessionIdNotFound(id)) && sessions == old(sessions) && queues == old(queues)
      ensures id in old(sessions) ==> err == None
      ensures id in old(sessions) && MarkedPresent(old(sessions)[id].students, srn).None? ==>
        sessions == old(sessions) && queues == old(queues)
      ensures id in old(sessions) && MarkedPresent(old(sessions)[id].students, srn).Some? ==>
        && sessions == old(sessions)[id := old(sessions)[id].(students := MarkedPresent(old(sessions)[id].students, srn).value)]
        && queues == AfterNotify(old(queues), sessions, id)
    {
      if id !in sessions {
        return Some(SessionIdNotFound(id));
      }
      var session := sessions[id];
      var students := session.students;
      var updated := false;
      var i := 0;
      while i < |students|
        invariant 0 <= i <= |students|
        invariant forall k :: 0 <= k < i ==> students[k].srn != srn
      {
        if students[i].srn == srn {
          if !students[i].isPresent {
            students := students[i := students[i].(isPresent := true)];
            updated := true;
          }
          break;
        }
        i := i + 1;
      }
      if updated {
        sessions := sessions[id := session.(students := students)];
        NotifyAttendanceChange(id);
      }
      return None;
    }

    /** ValidateScan as the source runs it: a roster scan, then the current code, then a
        walk over the history from newest to oldest. It changes nothing. */
    method ValidateScan(scan: ScanMessage, clockDrift: int64, studentLatency: int64) returns (v: Scan.Verdict)
      ensures v == Scan.ValidateScan(sessions, scan, clockDrift, studentLatency)
    {
      if scan.sessionId !in sessions {
        return Scan.Rejected(Scan.InvalidSessionId);
      }
      var session := sessions[scan.sessionId];
      var i := 0;
      while i < |session.students|
        invariant 0 <= i <= |session.students|
        invariant forall k :: 0 <= k < i ==> !(session.students[k].srn == scan.srn && session.students[k].isPresent)
      {
        if session.students[i].srn == scan.srn && session.students[i].isPresent {
          return Scan.Rejected(Scan.AlreadyMarkedPresent);
        }
        i := i + 1;
      }
      var adjusted := Scan.AdjustedScanTime(scan.scannedAt, clockDrift, studentLatency, session.teacherQRRenderingLatency);
      if session.currentRandomId.id == scan.scannedRandomId {
        if Scan.WithinTolerance(adjusted, session.currentRandomId.expiredAt) {
          return Scan.Accepted;
        }
        return Scan.Rejected(Scan.CurrentCodeExpired);
      }
      var past := session.pastRandomIds;
      var j := |past|;
      assert past[..j] == past;
      while j > 0
        invariant 0 <= j <= |past|
        invariant Scan.SearchHistory(past, scan.scannedRandomId, adjusted)
               == Scan.SearchHistory(past[..j], scan.scannedRandomId, adjusted)
      {
        var pastId := past[j - 1];
        assert past[..j][..j - 1] == past[..j - 1];
        if pastId.id == scan.scannedRandomId {
          if Scan.WithinTolerance(adjusted, pastId.expiredAt) {
            return Scan.Accepted;
          }
          return Scan.Rejected(Scan.PastCodeExpired);
        }
        j := j - 1;
      }
      return Scan.Rejected(Scan.UnknownCode);
    }
  }
}
