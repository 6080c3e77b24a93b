/** The roster of a live session and the value-level operations the engine applies
    to it: the first-match SRN search shared by the toggle and mark-present paths
    (sessions/teacher.go, sessions/student.go) and the absentee/presentee split of
    GetAttendanceList. */
module Roster {
  import opened Wrappers
  import opened Models

  /** Index of the first roster entry with this SRN, or |students| when there is none.
      Both mutators stop at the first match (`break`), so later duplicates are never touched. */
  function FirstMatch(students: seq<Student>, srn: string): (i: nat)
    ensures i <= |students|
    ensures i < |students| ==> students[i].srn == srn
    ensures forall k :: 0 <= k < i ==> students[k].srn != srn
  {
    if |students| == 0 then 0
    else if students[0].srn == srn then 0
    else 1 + FirstMatch(students[1..], srn)
  }

  predicate HasSrn(students: seq<Student>, srn: string) {
    exists k :: 0 <= k < |students| && students[k].srn == srn
  }

  /** The roster with entry i's presence set to `present` and nothing else changed. */
  function SetPresence(students: seq<Student>, i: nat, present: bool): (r: seq<Student>)
    requires i < |students|
    ensures |r| == |students|
  {
    students[i := students[i].(isPresent := present)]
  }

  /** Roster entries that are not present, in roster order. */
  function Absentees(students: seq<Student>): (r: seq<Student>)
    ensures |r| <= |students|
    ensures forall k :: 0 <= k < |r| ==> !r[k].isPresent && r[k] in students
  {
    if students == [] then []
    else
      var init := Absentees(students[..|students| - 1]);
      var last := students[|students| - 1];
      if !last.isPresent then init + [last] else init
  }

  /** Roster entries that are present, in roster order. */
  function Presentees(students: seq<Student>): (r: seq<Student>)
    ensures |r| <= |students|
    ensures forall k :: 0 <= k < |r| ==> r[k].isPresent && r[k] in students
  {
    if students == [] then []
    else
      var init := Presentees(students[..|students| - 1]);
      var last := students[|students| - 1];
      if last.isPresent then init + [last] else init
  }

  /** The two lists split the roster: together they hold every entry exactly once. */
  lemma {:induction false} PartitionIsComplete(students: seq<Student>)
    ensures |Absentees(students)| + |Presentees(students)| == |students|
    ensures multiset(Absentees(students)) + multiset(Presentees(students)) == multiset(students)
  {
    if students != [] {
      var init := students[..|students| - 1];
      var last := students[|students| - 1];
      PartitionIsComplete(init);
      assert students == init + [last];
      assert multiset(students) == multiset(init) + multiset{last};
      if last.isPresent {
        assert Presentees(students) == Presentees(init) + [last];
        assert multiset(Presentees(students)) == multiset(Presentees(init)) + multiset{last};
      } else {
        assert Absentees(students) == Absentees(init) + [last];
        assert multiset(Absentees(students)) == multiset(Absentees(init)) + multiset{last};
      }
    }
  }

  /** Each list holds exactly the entries of its kind: an absent entry occurs among the
      absentees as often as in the roster and never among the presentees, and the
      other way round for a present entry. */
  lemma SplitIsExact(students: seq<Student>, x: Student)
    ensures multiset(Absentees(students))[x] == if x.isPresent then 0 else multiset(students)[x]
    ensures multiset(Presentees(students))[x] == if x.isPresent then multiset(students)[x] else 0
  {
    PartitionIsComplete(students);
    if x.isPresent {
      assert x !in Absentees(students);
    } else {
      assert x !in Presentees(students);
    }
  }

  /** The explicit override: flips the first matching entry, or reports that the
      SRN is not on the roster. */
  function Toggled(students: seq<Student>, srn: string): (r: Option<seq<Student>>)
    ensures r.None? <==> !HasSrn(students, srn)
    ensures r.Some? ==>
      var i := FirstMatch(students, srn);
      && |r.value| == |students|
      && r.value[i].isPresent == !students[i].isPresent
      && r.value[i] == students[i].(isPresent := r.value[i].isPresent)
      && forall k :: 0 <= k < |students| && k != i ==> r.value[k] == students[k]
  {
    var i := FirstMatch(students, srn);
    if i == |students| then None else Some(SetPresence(students, i, !students[i].isPresent))
  }

  /** Changing only presence flags does not move the first match of any SRN. */
  lemma {:induction false} FirstMatchIgnoresPresence(s: seq<Student>, t: seq<Student>, srn: string)
    requires |s| == |t|
    requires forall k :: 0 <= k < |s| ==> s[k].srn == t[k].srn
    ensures FirstMatch(s, srn) == FirstMatch(t, srn)
  {
    if |s| > 0 && s[0].srn != srn {
      FirstMatchIgnoresPresence(s[1..], t[1..], srn);
    }
  }

  /** Toggling the same SRN twice gives back the original roster. */
  lemma ToggleTwice(students: seq<Student>, srn: string)
    requires HasSrn(students, srn)
    ensures Toggled(students, srn).Some?
    ensures Toggled(Toggled(students, srn).value, srn) == Some(students)
  {
    var once := Toggled(students, srn).value;
    FirstMatchIgnoresPresence(students, once, srn);
    var twice := Toggled(once, srn).value;
    assert twice == students;
  }

  /** Marking a scanner present: the first matching entry becomes present when it was
      absent (Some), and otherwise -- already present or unknown SRN -- nothing changes (None). */
  function MarkedPresent(students: seq<Student>, srn: string): (r: Option<seq<Student>>)
    ensures r.Some? <==> HasSrn(students, srn) && !students[FirstMatch(students, srn)].isPresent
    ensures r.Some? ==>
      var i := FirstMatch(students, srn);
      && |r.value| == |students|
      && r.value[i] == students[i].(isPresent := true)
      && forall k :: 0 <= k < |students| && k != i ==> r.value[k] == students[k]
  {
    var i := FirstMatch(students, srn);
    if i < |students| && !students[i].isPresent then Some(SetPresence(students, i, true)) else None
  }

  /** Marking present never clears anyone's presence, and a second mark of the same
      SRN changes nothing. */
  lemma MarkIsMonotoneAndIdempotent(students: seq<Student>, srn: string)
    requires MarkedPresent(students, srn).Some?
    ensures forall k :: 0 <= k < |students| && students[k].isPresent ==>
      MarkedPresent(students, srn).value[k].isPresent
    ensures MarkedPresent(MarkedPresent(students, srn).value, srn).None?
  {
    var r := MarkedPresent(students, srn).value;
    FirstMatchIgnoresPresence(students, r, srn);
  }

  /** Setting one absent entry present moves exactly one student from the absentee
      list to the presentee list. */
  lemma {:induction false} SetPresentMovesOne(students: seq<Student>, i: nat)
    requires i < |students| && !students[i].isPresent
    ensures |Presentees(SetPresence(students, i, true))| == |Presentees(students)| + 1
    ensures |Absentees(SetPresence(students, i, true))| + 1 == |Absentees(students)|
  {
    var n := |students|;
    var r := SetPresence(students, i, true);
    assert r[..n - 1] == if i == n - 1 then students[..n - 1] else SetPresence(students[..n - 1], i, true);
    if i < n - 1 {
      SetPresentMovesOne(students[..n - 1], i);
    }
  }
}
