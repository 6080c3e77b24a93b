/** The accept/reject decision for an attendee's scan (sessions/student.go,
    ValidateScan), as a pure function of the session store, and the facts about it
    that callers rely on. */
module Scan {
  import opened Ints
  import opened Wrappers
  import opened Models
  import opened Roster

  /** How far past a code's expiry an adjusted scan may fall and still be accepted. */
  const ToleranceMillis: int64 := 100

  datatype ScanError =
    | InvalidSessionId
    | AlreadyMarkedPresent
    | CurrentCodeExpired
    | PastCodeExpired
    | UnknownCode

  datatype Verdict = Accepted | Rejected(reason: ScanError)

  /** The error text each rejection carries back to the attendee. */
  function Message(e: ScanError): string
  {
    match e
    case InvalidSessionId => "Invalid session ID"
    case AlreadyMarkedPresent => "Student already marked present"
    case CurrentCodeExpired => "Current RandomID is invalid or expired"
    case PastCodeExpired => "Past RandomID is invalid or expired"
    case UnknownCode => "Scanned RandomID is not valid for this session"
  }

  /** The error text alone tells the attendee which check refused the scan: distinct
      rejections carry distinct texts. */
  lemma MessageIdentifiesReason(e: ScanError, e': ScanError)
    ensures Message(e) == Message(e') <==> e == e'
  {
    // The five texts have five different lengths.
    match e'
    case InvalidSessionId => assert |Message(e')| == 18;
    case AlreadyMarkedPresent => assert |Message(e')| == 30;
    case CurrentCodeExpired => assert |Message(e')| == 38;
    case PastCodeExpired => assert |Message(e')| == 35;
    case UnknownCode => assert |Message(e')| == 46;
  }

  /** Some roster entry with this SRN -- not necessarily the first -- is already present. */
  predicate AlreadyPresent(students: seq<Student>, srn: string) {
    exists k :: 0 <= k < |students| && students[k].srn == srn && students[k].isPresent
  }

  /** The scan instant moved onto the server's clock and back by both latencies,
      computed left to right in int64 as the source does; the result is the wrapped
      value of the whole expression. */
  function AdjustedScanTime(scannedAt: int64, clockDrift: int64, studentLatency: int64, renderLatency: int64): (r: int64)
    ensures r == Wrap64(scannedAt + clockDrift - studentLatency - renderLatency)
    ensures InInt64(scannedAt + clockDrift - studentLatency - renderLatency) ==>
      r == scannedAt + clockDrift - studentLatency - renderLatency
  {
    WrapChain(scannedAt + clockDrift, studentLatency, renderLatency);
    Sub64(Sub64(Add64(scannedAt, clockDrift), studentLatency), renderLatency)
  }

  /** The one-sided acceptance test: the (wrapped) delta past expiry is at most the tolerance.
      There is no lower bound. */
  predicate WithinTolerance(adjusted: int64, expiredAt: int64) {
    Sub64(adjusted, expiredAt) <= ToleranceMillis
  }

  /** Without overflow the test is exactly `adjusted <= expiredAt + 100`: any scan that
      is early, by however much, passes. */
  lemma OneSidedTolerance(adjusted: int64, expiredAt: int64)
    requires InInt64(adjusted - expiredAt)
    ensures WithinTolerance(adjusted, expiredAt) <==> adjusted <= expiredAt + ToleranceMillis
  {
  }

  /** The unused abs helper: Go's negation of the minimum int64 wraps back to itself. */
  function Abs(x: int64): (r: int64)
    ensures x > MIN_INT64 ==> r >= 0 && (r == x || r == -x)
    ensures x == MIN_INT64 ==> r == MIN_INT64
  {
    if x < 0 then Wrap64(-(x as int)) else x
  }

  /** A symmetric |delta| <= 100 window would reject a scan 101 ms early that the
      one-sided test accepts. */
  lemma SymmetricWindowWouldDiffer(expiredAt: int64)
    requires expiredAt >= MIN_INT64 + 101
    ensures WithinTolerance(expiredAt - 101, expiredAt)
    ensures Abs(Sub64(expiredAt - 101, expiredAt)) > ToleranceMillis
  {
  }

  /** The history search: from the newest archived code back to the oldest, the first
      code whose ID matches decides the scan alone. */
  function SearchHistory(past: seq<RandomId>, scanned: uint32, adjusted: int64): (v: Verdict)
    ensures v == Accepted || v == Rejected(PastCodeExpired) || v == Rejected(UnknownCode)
    ensures v == Rejected(UnknownCode) <==> forall k :: 0 <= k < |past| ==> past[k].id != scanned
  {
    if past == [] then Rejected(UnknownCode)
    else
      var newest := past[|past| - 1];
      if newest.id == scanned then
        if WithinTolerance(adjusted, newest.expiredAt) then Accepted else Rejected(PastCodeExpired)
      else
        SearchHistory(past[..|past| - 1], scanned, adjusted)
  }

  /** j is the newest archived position carrying the scanned ID. */
  predicate IsNewestMatch(past: seq<RandomId>, scanned: uint32, j: int) {
    && 0 <= j < |past|
    && past[j].id == scanned
    && forall k :: j < k < |past| ==> past[k].id != scanned
  }

  /** The newest matching archived code is judged against its own expiry, and that
      judgement is final. */
  lemma {:induction false} NewestMatchDecides(past: seq<RandomId>, scanned: uint32, adjusted: int64, j: int)
    requires IsNewestMatch(past, scanned, j)
    ensures SearchHistory(past, scanned, adjusted)
      == if WithinTolerance(adjusted, past[j].expiredAt) then Accepted else Rejected(PastCodeExpired)
  {
    if j < |past| - 1 {
      NewestMatchDecides(past[..|past| - 1], scanned, adjusted, j);
    }
  }

  /** Once a newer archived code matches, older archived codes -- including older ones
      with the same ID -- are never consulted. */
  lemma {:induction false} OlderEntriesIgnored(older: seq<RandomId>, newer: seq<RandomId>, scanned: uint32, adjusted: int64)
    requires exists k :: 0 <= k < |newer| && newer[k].id == scanned
    ensures SearchHistory(older + newer, scanned, adjusted) == SearchHistory(newer, scanned, adjusted)
  {
    var n := |newer|;
    var all := older + newer;
    assert all[|all| - 1] == newer[n - 1];
    if newer[n - 1].id != scanned {
      assert all[..|all| - 1] == older + newer[..n - 1];
      var k :| 0 <= k < n && newer[k].id == scanned;
      assert newer[..n - 1][k].id == scanned;
      OlderEntriesIgnored(older, newer[..n - 1], scanned, adjusted);
    }
  }

  /** ValidateScan: unknown session, then already-present, then the current code, then
      the history. The function reads the store and changes nothing. */
  function ValidateScan(sessions: map<uint32, Session>, scan: ScanMessage, clockDrift: int64, studentLatency: int64): (v: Verdict)
    ensures v == Rejected(InvalidSessionId) <==> scan.sessionId !in sessions
    ensures scan.sessionId in sessions && AlreadyPresent(sessions[scan.sessionId].students, scan.srn) ==>
      v == Rejected(AlreadyMarkedPresent)
    ensures v == Accepted ==>
      && scan.sessionId in sessions
      && !AlreadyPresent(sessions[scan.sessionId].students, scan.srn)
      && (|| scan.scannedRandomId == sessions[scan.sessionId].currentRandomId.id
          || exists k :: 0 <= k < |sessions[scan.sessionId].pastRandomIds| &&
               sessions[scan.sessionId].pastRandomIds[k].id == scan.scannedRandomId)
    ensures v == Rejected(UnknownCode) <==>
      && scan.sessionId in sessions
      && !AlreadyPresent(sessions[scan.sessionId].students, scan.srn)
      && scan.scannedRandomId != sessions[scan.sessionId].currentRandomId.id
      && forall k :: 0 <= k < |sessions[scan.sessionId].pastRandomIds| ==>
           sessions[scan.sessionId].pastRandomIds[k].id != scan.scannedRandomId
  {
    if scan.sessionId !in sessions then Rejected(InvalidSessionId)
    else
      var s := sessions[scan.sessionId];
      if AlreadyPresent(s.students, scan.srn) then Rejected(AlreadyMarkedPresent)
      else
        var adjusted := AdjustedScanTime(scan.scannedAt, clockDrift, studentLatency, s.teacherQRRenderingLatency);
        if s.currentRandomId.id == scan.scannedRandomId then
          if WithinTolerance(adjusted, s.currentRandomId.expiredAt) then Accepted else Rejected(CurrentCodeExpired)
        else
          SearchHistory(s.pastRandomIds, scan.scannedRandomId, adjusted)
  }

  /** A scan of the current code is decided by the current code's expiry alone: the
      verdict is the same whatever the history holds. */
  lemma CurrentCodeDecides(sessions: map<uint32, Session>, scan: ScanMessage, clockDrift: int64,
                           studentLatency: int64, otherHistory: seq<RandomId>)
    requires scan.sessionId in sessions
    requires !AlreadyPresent(sessions[scan.sessionId].students, scan.srn)
    requires scan.scannedRandomId == sessions[scan.sessionId].currentRandomId.id
    ensures
      var s := sessions[scan.sessionId];
      var adjusted := AdjustedScanTime(scan.scannedAt, clockDrift, studentLatency, s.teacherQRRenderingLatency);
      var v := ValidateScan(sessions, scan, clockDrift, studentLatency);
      && (v == Accepted <==> WithinTolerance(adjusted, s.currentRandomId.expiredAt))
      && (v != Accepted ==> v == Rejected(CurrentCodeExpired))
      && ValidateScan(sessions[scan.sessionId := s.(pastRandomIds := otherHistory)], scan, clockDrift, studentLatency) == v
  {
  }

  /** A scan of an archived (non-current) code is decided by the newest archived entry
      with that ID, against that entry's own expiry. */
  lemma PastCodeDecides(sessions: map<uint32, Session>, scan: ScanMessage, clockDrift: int64,
                        studentLatency: int64, j: int)
    requires scan.sessionId in sessions
    requires !AlreadyPresent(sessions[scan.sessionId].students, scan.srn)
    requires scan.scannedRandomId != sessions[scan.sessionId].currentRandomId.id
    requires IsNewestMatch(sessions[scan.sessionId].pastRandomIds, scan.scannedRandomId, j)
    ensures
      var s := sessions[scan.sessionId];
      var adjusted := AdjustedScanTime(scan.scannedAt, clockDrift, studentLatency, s.teacherQRRenderingLatency);
      ValidateScan(sessions, scan, clockDrift, studentLatency)
        == if WithinTolerance(adjusted, s.pastRandomIds[j].expiredAt) then Accepted else Rejected(PastCodeExpired)
  {
    var s := sessions[scan.sessionId];
    var adjusted := AdjustedScanTime(scan.scannedAt, clockDrift, studentLatency, s.teacherQRRenderingLatency);
    NewestMatchDecides(s.pastRandomIds, scan.scannedRandomId, adjusted, j);
  }

  /** Once a scan has marked its student present, a repeat scan by the same SRN is
      rejected as already present, whatever code it carries. */
  lemma ScanAfterMarkRejected(sessions: map<uint32, Session>, scan: ScanMessage, clockDrift: int64,
                              studentLatency: int64)
    requires scan.sessionId in sessions
    requires MarkedPresent(sessions[scan.sessionId].students, scan.srn).Some?
    ensures
      var s := sessions[scan.sessionId];
      var marked := MarkedPresent(s.students, scan.srn).value;
      ValidateScan(sessions[scan.sessionId := s.(students := marked)], scan, clockDrift, studentLatency)
        == Rejected(AlreadyMarkedPresent)
  {
    var s := sessions[scan.sessionId];
    var marked := MarkedPresent(s.students, scan.srn).value;
    var i := FirstMatch(s.students, scan.srn);
    assert marked[i].srn == scan.srn && marked[i].isPresent;
    assert AlreadyPresent(marked, scan.srn);
  }

  /** The handshake measurements an attendee connection feeds into ValidateScan
      (handlers/student.go): drift is server time minus the client's reported time,
      and the latency is the full elapsed handshake time, not half of it. */
  function ClockDrift(serverTime: int64, clientTime: int64): (r: int64)
    ensures InInt64(serverTime - clientTime) ==> r == serverTime - clientTime
  {
    Sub64(serverTime, clientTime)
  }

  function StudentLatency(serverBeforeTime: int64, serverTime: int64): (r: int64)
    ensures InInt64(serverTime - serverBeforeTime) ==> r == serverTime - serverBeforeTime
  {
    Sub64(serverTime, serverBeforeTime)
  }

  /** With those measurements the server's handshake reading cancels out: the adjusted
      time depends only on the client's two timestamps, the instant the handshake
      started, and the presenter's latency. */
  lemma AdjustedIgnoresServerTime(scannedAt: int64, clientTime: int64, serverBeforeTime: int64,
                                  serverTime: int64, renderLatency: int64)
    ensures AdjustedScanTime(scannedAt, ClockDrift(serverTime, clientTime),
                             StudentLatency(serverBeforeTime, serverTime), renderLatency)
         == Wrap64(scannedAt - clientTime + serverBeforeTime - renderLatency)
  {
    var drift := ClockDrift(serverTime, clientTime);
    var lat := StudentLatency(serverBeforeTime, serverTime);
    var q1 := (drift - (serverTime - clientTime)) / TWO_64;
    var q2 := (lat - (serverTime - serverBeforeTime)) / TWO_64;
    assert drift == serverTime - clientTime + q1 * TWO_64;
    assert lat == serverTime - serverBeforeTime + q2 * TWO_64;
    var exact := scannedAt - clientTime + serverBeforeTime - renderLatency;
    assert scannedAt + drift - lat - renderLatency == exact + (q1 - q2) * TWO_64;
    ShiftMod(0, q1 - q2);
    WrapCongruent(scannedAt + drift - lat - renderLatency, exact);
  }
}
