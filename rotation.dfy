/** Code rotation: minting a code with its 200 ms validity window
    (handlers/teacher.go) and the effect of UpdateRandomID on one session
    (sessions/teacher.go), plus what a run of rotations does to the history. */
module Rotation {
  import opened Ints
  import opened Models

  /** A freshly minted code is stamped valid for this many milliseconds. */
  const ValidityWindowMillis: int64 := 200

  /** generateRandomID, with the clock reading and the random value as inputs. */
  function GenerateRandomId(id: uint32, now: int64): (r: RandomId)
    ensures r.id == id && r.createdAt == now
    ensures (r.expiredAt - (r.createdAt + ValidityWindowMillis)) % TWO_64 == 0
    ensures now <= MAX_INT64 - ValidityWindowMillis ==> r.expiredAt == r.createdAt + ValidityWindowMillis
  {
    RandomId(id, now, Add64(now, ValidityWindowMillis))
  }

  /** UpdateRandomID on a session that exists: a current code with a non-zero ID is
      archived with its expiry overwritten by the rotation instant `now`, and the new
      code becomes current. */
  function Rotate(s: Session, code: RandomId, now: int64): (r: Session)
    ensures r.currentRandomId == code
    ensures |r.pastRandomIds| == |s.pastRandomIds| + (if s.currentRandomId.id != 0 then 1 else 0)
    ensures r.pastRandomIds[..|s.pastRandomIds|] == s.pastRandomIds
    ensures s.currentRandomId.id != 0 ==>
      r.pastRandomIds[|s.pastRandomIds|] == s.currentRandomId.(expiredAt := now)
    ensures r.students == s.students && r.classroomTable == s.classroomTable
    ensures r.teacherQRRenderingLatency == s.teacherQRRenderingLatency
  {
    var past := if s.currentRandomId.id != 0
      then s.pastRandomIds + [s.currentRandomId.(expiredAt := now)]
      else s.pastRandomIds;
    s.(currentRandomId := code, pastRandomIds := past)
  }

  /** One rotation: the code installed and the instant UpdateRandomID ran. */
  datatype Step = Step(code: RandomId, at: int64)

  /** The session after the given rotations, applied in order. */
  function RotateAll(s: Session, steps: seq<Step>): Session
  {
    if steps == [] then s
    else
      var last := steps[|steps| - 1];
      Rotate(RotateAll(s, steps[..|steps| - 1]), last.code, last.at)
  }

  /** One more rotation after a run is the run extended by that step. */
  lemma RotateAllSnoc(s: Session, steps: seq<Step>, step: Step)
    ensures RotateAll(s, steps + [step]) == Rotate(RotateAll(s, steps), step.code, step.at)
  {
    assert (steps + [step])[..|steps|] == steps;
  }

  predicate ExpiriesOrdered(past: seq<RandomId>) {
    forall i, j :: 0 <= i < j < |past| ==> past[i].expiredAt <= past[j].expiredAt
  }

  predicate ExpiriesAtMost(past: seq<RandomId>, bound: int) {
    forall k :: 0 <= k < |past| ==> past[k].expiredAt <= bound
  }

  predicate TimesNonDecreasing(steps: seq<Step>) {
    forall i, j :: 0 <= i < j < |steps| ==> steps[i].at <= steps[j].at
  }

  /** When rotations happen at non-decreasing instants, the archived codes' expiries
      are non-decreasing in insertion order and never later than the last rotation. */
  lemma {:induction false} RotationsKeepExpiriesOrdered(s: Session, steps: seq<Step>)
    requires ExpiriesOrdered(s.pastRandomIds)
    requires TimesNonDecreasing(steps)
    requires |steps| > 0 ==> ExpiriesAtMost(s.pastRandomIds, steps[0].at)
    ensures ExpiriesOrdered(RotateAll(s, steps).pastRandomIds)
    ensures |steps| > 0 ==> ExpiriesAtMost(RotateAll(s, steps).pastRandomIds, steps[|steps| - 1].at)
  {
    if steps != [] {
      var n := |steps|;
      var init := steps[..n - 1];
      RotationsKeepExpiriesOrdered(s, init);
      var before := RotateAll(s, init);
      if n > 1 {
        assert steps[n - 2] == init[n - 2];
        assert ExpiriesAtMost(before.pastRandomIds, steps[n - 1].at);
      } else {
        assert before == s;
      }
      var after := Rotate(before, steps[n - 1].code, steps[n - 1].at);
      assert after.pastRandomIds[..|before.pastRandomIds|] == before.pastRandomIds;
    }
  }

  /** Starting from a session with no code yet, N rotations with non-zero codes leave
      the N-th code current and N-1 archived codes, the k-th stamped with the instant
      of the rotation that replaced it. */
  lemma {:induction false} RotationHistory(s: Session, steps: seq<Step>)
    requires s.currentRandomId.id == 0 && s.pastRandomIds == []
    requires |steps| > 0
    requires forall k :: 0 <= k < |steps| ==> steps[k].code.id != 0
    ensures RotateAll(s, steps).currentRandomId == steps[|steps| - 1].code
    ensures |RotateAll(s, steps).pastRandomIds| == |steps| - 1
    ensures forall k :: 0 <= k < |steps| - 1 ==>
      RotateAll(s, steps).pastRandomIds[k] == steps[k].code.(expiredAt := steps[k + 1].at)
    ensures RotateAll(s, steps).students == s.students
  {
    var n := |steps|;
    var init := steps[..n - 1];
    if n == 1 {
      assert RotateAll(s, init) == s;
    } else {
      RotationHistory(s, init);
      var before := RotateAll(s, init);
      assert before.currentRandomId == steps[n - 2].code;
      forall k | 0 <= k < n - 2
        ensures before.pastRandomIds[k] == steps[k].code.(expiredAt := steps[k + 1].at)
      {
        assert init[k] == steps[k] && init[k + 1] == steps[k + 1];
      }
    }
  }
}
