/** The presenter connection's own logic (handlers/teacher.go): the render-latency
    estimate from the handshake, the ordering of snapshot lists by the numeric value
    of an SRN's last three characters, the filter on incoming override requests, and
    the rotation ticker's step and stop rule. The WebSocket reads and writes around
    them are not modelled; their outcomes are parameters. */
module Presenter {
  import opened Ints
  import opened Wrappers
  import opened Models
  import opened Roster
  import opened Rotation
  import opened Engine

  // ---------------------------------------------------------------------------
  // Render latency

  /** Half the probe round trip (Go's truncating int64 division) plus the render time
      the client reports. */
  function PresenterLatency(beforeProbe: int64, afterProbe: int64, renderMillis: int64): (r: int64)
    ensures
      var roundTrip := afterProbe - beforeProbe;
      InInt64(roundTrip) && InInt64(Half64(roundTrip) + renderMillis) ==>
        && r == Half64(roundTrip) + renderMillis
        && (0 <= roundTrip ==> r - renderMillis <= roundTrip <= 2 * (r - renderMillis) + 1)
    ensures (r - (Half64(Sub64(afterProbe, beforeProbe)) + renderMillis)) % TWO_64 == 0
  {
    Add64(Half64(Sub64(afterProbe, beforeProbe)), renderMillis)
  }

  // ---------------------------------------------------------------------------
  // Snapshot ordering

  predicate IsDigit(c: char) {
    '0' <= c <= '9'
  }

  predicate AllDigits(s: string) {
    forall k :: 0 <= k < |s| ==> IsDigit(s[k])
  }

  function Pow10(n: nat): (p: nat)
    ensures p >= 1
  {
    if n == 0 then 1 else 10 * Pow10(n - 1)
  }

  /** The decimal value of a digit string. */
  function DigitsValue(s: string): (v: nat)
    requires AllDigits(s)
    ensures v < Pow10(|s|)
  {
    if s == [] then 0
    else DigitsValue(s[..|s| - 1]) * 10 + (s[|s| - 1] as int - '0' as int)
  }

  /** strconv.Atoi on a short string: an optional sign followed by at least one
      decimal digit; anything else is an error (None). */
  function Atoi(s: string): (r: Option<int>)
    ensures AllDigits(s) && s != [] ==> r == Some(DigitsValue(s))
    ensures |s| >= 2 && s[0] == '-' && AllDigits(s[1..]) ==> r == Some(-(DigitsValue(s[1..]) as int))
    ensures |s| >= 2 && s[0] == '+' && AllDigits(s[1..]) ==> r == Some(DigitsValue(s[1..]))
    ensures r.Some? ==> s != [] && (AllDigits(s) || ((s[0] == '-' || s[0] == '+') && |s| >= 2 && AllDigits(s[1..])))
  {
    if s == [] then None
    else if s[0] == '-' || s[0] == '+' then
      var digits := s[1..];
      if digits == [] || !AllDigits(digits) then None
      else if s[0] == '-' then Some(-(DigitsValue(digits) as int)) else Some(DigitsValue(digits))
    else if AllDigits(s) then Some(DigitsValue(s))
    else None
  }

  /** The sort key of an SRN: its last three characters read as an integer, 0 when they
      do not parse (the conversion error is ignored). The source slices
      `srn[len(srn)-3:]`, which fails on shorter SRNs, hence the precondition. */
  function SuffixKey(srn: string): (k: int)
    requires |srn| >= 3
    ensures -99 <= k <= 999
    ensures AllDigits(srn[|srn| - 3..]) ==>
      k == 100 * (srn[|srn| - 3] as int - '0' as int)
         + 10 * (srn[|srn| - 2] as int - '0' as int)
         + (srn[|srn| - 1] as int - '0' as int)
    ensures Atoi(srn[|srn| - 3..]).None? ==> k == 0
  {
    var suffix := srn[|srn| - 3..];
    ThreeDigits(suffix);
    match Atoi(suffix)
    case Some(n) => n
    case None => 0
  }

  lemma ThreeDigits(s: string)
    requires |s| == 3
    ensures AllDigits(s) ==>
      DigitsValue(s) == 100 * (s[0] as int - '0' as int) + 10 * (s[1] as int - '0' as int) + (s[2] as int - '0' as int)
    ensures AllDigits(s[1..]) ==> DigitsValue(s[1..]) < 100
    ensures Pow10(3) == 1000
  {
    assert Pow10(2) == 100;
    if AllDigits(s) {
      assert s[..2][..1] == s[..1] && s[..1][..0] == [];
      assert DigitsValue(s[..1]) == s[0] as int - '0' as int;
      assert DigitsValue(s[..2]) == DigitsValue(s[..1]) * 10 + (s[1] as int - '0' as int);
    }
  }

  predicate Keyed(s: seq<Student>) {
    forall k :: 0 <= k < |s| ==> |s[k].srn| >= 3
  }

  /** The comparator's key of an entry. It is only ever applied to SRNs of at least three
      characters (see SortBySuffix); the 0 for a shorter one stands for no value. */
  function Key(x: Student): int {
    if |x.srn| >= 3 then SuffixKey(x.srn) else 0
  }

  /** A permutation of a list whose SRNs can all be sliced can be sliced too. */
  lemma KeyedPermutation(s: seq<Student>, t: seq<Student>)
    requires Keyed(s) && multiset(s) == multiset(t)
    ensures Keyed(t)
  {
    forall k | 0 <= k < |t|
      ensures |t[k].srn| >= 3
    {
      assert t[k] in multiset(s);
    }
  }

  /** The first n entries are in ascending key order. */
  ghost predicate SortedPrefix(s: seq<Student>, n: int, key: Student -> int)
    requires n <= |s|
  {
    forall x, y :: 0 <= x < y < n ==> key(s[x]) <= key(s[y])
  }

  ghost predicate SortedBySuffix(s: seq<Student>) {
    Keyed(s) && SortedPrefix(s, |s|, Key)
  }

  /** Exchanges two entries; the array keeps the same entries. */
  method Swap(a: array<Student>, i: int, j: int)
    requires 0 <= i < j < a.Length
    modifies a
    ensures a[..] == old(a[..])[i := old(a[j])][j := old(a[i])]
    ensures multiset(a[..]) == multiset(old(a[..]))
  {
    a[i], a[j] := a[j], a[i];
  }

  /** Midway through one insertion step: the entry being moved sits at j, every other
      pair among the first i + 1 entries is ordered, and the entry at j is below
      everything after it. */
  ghost predicate Sinking(s: seq<Student>, i: int, j: int, key: Student -> int)
    requires 0 <= j <= i < |s|
  {
    && (forall x, y :: 0 <= x < y <= i && x != j && y != j ==> key(s[x]) <= key(s[y]))
    && (forall y :: j < y <= i ==> key(s[j]) < key(s[y]))
  }

  lemma SinkingStart(s: seq<Student>, i: int, key: Student -> int)
    requires 0 <= i < |s| && SortedPrefix(s, i, key)
    ensures Sinking(s, i, i, key)
  {
  }

  lemma SinkingStep(s: seq<Student>, i: int, j: int, key: Student -> int)
    requires 0 < j <= i < |s| && Sinking(s, i, j, key) && key(s[j - 1]) > key(s[j])
    ensures Sinking(s[j - 1 := s[j]][j := s[j - 1]], i, j - 1, key)
  {
  }

  lemma SinkingDone(s: seq<Student>, i: int, j: int, key: Student -> int)
    requires 0 <= j <= i < |s| && Sinking(s, i, j, key)
    requires j == 0 || key(s[j - 1]) <= key(s[j])
    ensures SortedPrefix(s, i + 1, key)
  {
  }

  /** One insertion step: moves a[i] left past every entry with a larger key, so that the
      first i + 1 entries are ordered. */
  method Sink(a: array<Student>, i: int, key: Student -> int)
    requires 0 <= i < a.Length
    requires SortedPrefix(a[..], i, key)
    modifies a
    ensures SortedPrefix(a[..], i + 1, key)
    ensures multiset(a[..]) == multiset(old(a[..]))
  {
    SinkingStart(a[..], i, key);
    var j := i;
    while j > 0 && key(a[j - 1]) > key(a[j])
      invariant 0 <= j <= i
      invariant Sinking(a[..], i, j, key)
      invariant multiset(a[..]) == multiset(old(a[..]))
    {
      SinkingStep(a[..], i, j, key);
      Swap(a, j - 1, j);
      j := j - 1;
    }
    SinkingDone(a[..], i, j, key);
  }

  /** Insertion sort of the array by an arbitrary key: ascending, same entries. */
  method SortBy(a: array<Student>, key: Student -> int)
    modifies a
    ensures SortedPrefix(a[..], a.Length, key)
    ensures multiset(a[..]) == multiset(old(a[..]))
  {
    var i := 0;
    while i < a.Length
      invariant 0 <= i <= a.Length
      invariant SortedPrefix(a[..], i, key)
      invariant multiset(a[..]) == multiset(old(a[..]))
    {
      Sink(a, i, key);
      i := i + 1;
    }
  }

  /** sort.Slice with the suffix comparison: the array ends up ordered by key and holds
      the same entries. (Go's sort is not stable; any order of equal keys satisfies this.)
      A list of fewer than two entries is never compared, so its SRNs are never sliced and
      may be of any length; from two entries on, every entry is compared at least once. */
  method SortBySuffix(a: array<Student>)
    requires a.Length >= 2 ==> Keyed(a[..])
    modifies a
    ensures a.Length >= 2 ==> SortedBySuffix(a[..])
    ensures a.Length < 2 ==> a[..] == old(a[..])
    ensures multiset(a[..]) == multiset(old(a[..]))
  {
    if a.Length >= 2 {
      SortBy(a, Key);
      KeyedPermutation(old(a[..]), a[..]);
    }
  }

  /** The ATTENDANCE_UPDATE message built from a received snapshot. */
  datatype AttendanceUpdate = AttendanceUpdate(absentees: seq<Student>, presentees: seq<Student>)

  /** Sorts both lists of a snapshot before it is sent to the presenter. */
  method PrepareAttendanceUpdate(e: AttendanceChangeEvent) returns (u: AttendanceUpdate)
    requires |e.absentees| >= 2 ==> Keyed(e.absentees)
    requires |e.presentees| >= 2 ==> Keyed(e.presentees)
    ensures |e.absentees| >= 2 ==> SortedBySuffix(u.absentees)
    ensures |e.absentees| < 2 ==> u.absentees == e.absentees
    ensures multiset(u.absentees) == multiset(e.absentees)
    ensures |e.presentees| >= 2 ==> SortedBySuffix(u.presentees)
    ensures |e.presentees| < 2 ==> u.presentees == e.presentees
    ensures multiset(u.presentees) == multiset(e.presentees)
  {
    var absentees := new Student[|e.absentees|](k requires 0 <= k < |e.absentees| => e.absentees[k]);
    var presentees := new Student[|e.presentees|](k requires 0 <= k < |e.presentees| => e.presentees[k]);
    assert absentees[..] == e.absentees;
    assert presentees[..] == e.presentees;
    SortBySuffix(absentees);
    SortBySuffix(presentees);
    u := AttendanceUpdate(absentees[..], presentees[..]);
  }

  // ---------------------------------------------------------------------------
  // Override requests

  const ToggleType := "TOGGLE_ATTENDANCE"

  datatype Reply = ToggleOk | ToggleFailed(error: EngineError)

  /** One message read from the presenter: only a TOGGLE_ATTENDANCE request with a
      non-empty SRN reaches the engine, and its reply is OK exactly when the toggle
      succeeded. Any other message is ignored without a reply. */
  method ProcessPresenterMessage(engine: SessionEngine, id: uint32, msgType: string, srn: string)
    returns (reply: Option<Reply>)
    requires engine.Valid()
    modifies engine
    ensures engine.Valid()
    ensures !(msgType == ToggleType && srn != "") ==>
      reply == None && engine.sessions == old(engine.sessions) && engine.queues == old(engine.queues)
    ensures msgType == ToggleType && srn != "" ==>
      && reply.Some?
      && (reply.value == ToggleOk <==> id in old(engine.sessions) && HasSrn(old(engine.sessions)[id].students, srn))
      && (reply.value != ToggleOk ==> engine.sessions == old(engine.sessions) && engine.queues == old(engine.queues))
      && (reply.value == ToggleOk ==>
            && engine.sessions == old(engine.sessions)[id := old(engine.sessions)[id].(students := Toggled(old(engine.sessions)[id].students, srn).value)]
            && engine.queues == AfterNotify(old(engine.queues), engine.sessions, id))
  {
    if msgType == ToggleType && srn != "" {
      var err := engine.ToggleStudentAttendance(id, srn);
      if err.Some? {
        return Some(ToggleFailed(err.value));
      }
      return Some(ToggleOk);
    }
    return None;
  }

  // ---------------------------------------------------------------------------
  // Code rotation ticker

  /** What one tick of the ticker sees: the random value, the clock reading inside
      generateRandomID, the later reading inside UpdateRandomID, and whether the write
      of the code to the presenter succeeded. */
  datatype Tick = Tick(codeId: uint32, generatedAt: int64, rotatedAt: int64, sendOk: bool)

  function CodeOf(t: Tick): RandomId {
    GenerateRandomId(t.codeId, t.generatedAt)
  }

  /** The rotation a tick performs. */
  function StepOf(t: Tick): Step {
    Step(CodeOf(t), t.rotatedAt)
  }

  function StepsOf(ticks: seq<Tick>): (steps: seq<Step>)
    ensures |steps| == |ticks|
    ensures forall k :: 0 <= k < |ticks| ==> steps[k] == StepOf(ticks[k])
  {
    seq(|ticks|, k requires 0 <= k < |ticks| => StepOf(ticks[k]))
  }

  lemma StepsOfSnoc(ticks: seq<Tick>, i: nat)
    requires i < |ticks|
    ensures StepsOf(ticks[..i + 1]) == StepsOf(ticks[..i]) + [StepOf(ticks[i])]
  {
  }

  /** The session after the first n ticks have each rotated their code in. */
  function RotatedBy(s: Session, ticks: seq<Tick>, n: nat): Session
    requires n <= |ticks|
  {
    if n == 0 then s else Rotate(RotatedBy(s, ticks, n - 1), CodeOf(ticks[n - 1]), ticks[n - 1].rotatedAt)
  }

  lemma {:induction false} RotatedByIsRotateAll(s: Session, ticks: seq<Tick>, n: nat)
    requires n <= |ticks|
    ensures RotatedBy(s, ticks, n) == RotateAll(s, StepsOf(ticks[..n]))
  {
    if n > 0 {
      RotatedByIsRotateAll(s, ticks, n - 1);
      StepsOfSnoc(ticks, n - 1);
      RotateAllSnoc(s, StepsOf(ticks[..n - 1]), StepOf(ticks[n - 1]));
    }
  }

  /** Where the ticker stands after writing `written`: for a live session, the codes
      written are those of the first ticks, every write but the last succeeded, the
      ticker has stopped exactly when the last write failed, and the session has been
      rotated once per written code; for a missing session, nothing has happened. */
  ghost predicate Progress(store: map<uint32, Session>, start: map<uint32, Session>, id: uint32,
                           ticks: seq<Tick>, written: seq<RandomId>, stop: bool)
  {
    if id in start then
      && |written| <= |ticks|
      && store == start[id := RotatedBy(start[id], ticks, |written|)]
      && (forall k :: 0 <= k < |written| ==> written[k] == CodeOf(ticks[k]))
      && (forall k :: 0 <= k < |written| - 1 ==> ticks[k].sendOk)
      && (stop <==> |written| > 0 && !ticks[|written| - 1].sendOk)
    else
      written == [] && store == start
  }

  /** One more tick on a live session that has not stopped. */
  lemma ProgressStep(store: map<uint32, Session>, start: map<uint32, Session>, id: uint32,
                     ticks: seq<Tick>, written: seq<RandomId>)
    requires id in start && |written| < |ticks| && Progress(store, start, id, ticks, written, false)
    ensures id in store
    ensures
      var t := ticks[|written|];
      Progress(store[id := Rotate(store[id], CodeOf(t), t.rotatedAt)], start, id, ticks, written + [CodeOf(t)], !t.sendOk)
  {
  }

  /** What the ticker has done once it has stopped or run out of ticks. */
  lemma {:induction false} ProgressDone(store: map<uint32, Session>, start: map<uint32, Session>, id: uint32,
                                        ticks: seq<Tick>, written: seq<RandomId>, stop: bool)
    requires Progress(store, start, id, ticks, written, stop) && (|written| == |ticks| || stop)
    ensures id !in start ==> written == [] && store == start
    ensures id in start ==>
      && |written| <= |ticks|
      && (|ticks| > 0 ==> |written| > 0)
      && (forall k :: 0 <= k < |written| ==> written[k] == CodeOf(ticks[k]))
      && (forall k :: 0 <= k < |written| - 1 ==> ticks[k].sendOk)
      && (|written| < |ticks| ==> !ticks[|written| - 1].sendOk)
      && store == start[id := RotateAll(start[id], StepsOf(ticks[..|written|]))]
  {
    if id in start {
      RotatedByIsRotateAll(start[id], ticks, |written|);
    }
  }

  /** One tick: mint a code and rotate it in; if the session is gone, stop before anything
      is written; otherwise hand the code to the connection and stop if that write failed. */
  method RotationStep(engine: SessionEngine, id: uint32, tick: Tick) returns (written: Option<RandomId>, keepGoing: bool)
    requires engine.Valid()
    modifies engine
    ensures engine.Valid()
    ensures engine.queues == old(engine.queues)
    ensures id !in old(engine.sessions) ==>
      written == None && !keepGoing && engine.sessions == old(engine.sessions)
    ensures id in old(engine.sessions) ==>
      && written == Some(CodeOf(tick))
      && keepGoing == tick.sendOk
      && engine.sessions == old(engine.sessions)[id := Rotate(old(engine.sessions)[id], CodeOf(tick), tick.rotatedAt)]
  {
    var code := GenerateRandomId(tick.codeId, tick.generatedAt);
    var err := engine.UpdateRandomID(id, code, tick.rotatedAt);
    if err.Some? {
      return None, false;
    }
    return Some(code), tick.sendOk;
  }

  /** The ticker loop over the ticks that fire before the session is torn down: the
      codes written are those minted, in order, up to and including the first failed
      write, and the session has been rotated once per written code. */
  method RunRotation(engine: SessionEngine, id: uint32, ticks: seq<Tick>) returns (written: seq<RandomId>)
    requires engine.Valid()
    modifies engine
    ensures engine.Valid()
    ensures engine.queues == old(engine.queues)
    ensures id !in old(engine.sessions) ==> written == [] && engine.sessions == old(engine.sessions)
    ensures id in old(engine.sessions) ==>
      && |written| <= |ticks|
      && (|ticks| > 0 ==> |written| > 0)
      && (forall k :: 0 <= k < |written| ==> written[k] == CodeOf(ticks[k]))
      && (forall k :: 0 <= k < |written| - 1 ==> ticks[k].sendOk)
      && (|written| < |ticks| ==> !ticks[|written| - 1].sendOk)
      && engine.sessions == old(engine.sessions)[id := RotateAll(old(engine.sessions)[id], StepsOf(ticks[..|written|]))]
  {
    ghost var sessions0 := engine.sessions;
    written := [];
    var i := 0;
    var stop := false;
    while i < |ticks| && !stop
      invariant 0 <= i <= |ticks| && |written| == i
      invariant engine.Valid() && engine.queues == old(engine.queues)
      invariant Progress(engine.sessions, sessions0, id, ticks, written, stop)
      decreases |ticks| - i, if stop then 0 else 1
    {
      if id in sessions0 {
        ProgressStep(engine.sessions, sessions0, id, ticks, written);
      }
      var code, keepGoing := RotationStep(engine, id, ticks[i]);
      if code.None? {
        stop := true;
      } else {
        written := written + [code.value];
        i := i + 1;
        stop := !keepGoing;
      }
    }
    ProgressDone(engine.sessions, sessions0, id, ticks, written, stop);
  }
}
