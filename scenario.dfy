/** A worked session: three students, two rotations, and scans on either side of the
    tolerance boundary, followed through the value-level model. */
module Scenario {
  import opened Ints
  import opened Wrappers
  import opened Models
  import opened Roster
  import opened Rotation
  import opened Scan
  import opened Engine

  const S101 := Student("PRN1", "PES1UG22CS101", "A", false)
  const S102 := Student("PRN2", "PES1UG22CS102", "B", false)
  const S103 := Student("PRN3", "PES1UG22CS103", "C", false)

  /** The session after its first rotation: code 7, minted at 1000. */
  const First := Rotate(NewSession("CSE_A", [S101, S102, S103], 0), GenerateRandomId(7, 1000), 1000)

  /** The same session once S101 has been marked present. */
  const Marked := First.(students := [S101.(isPresent := true), S102, S103])

  /** After the second rotation: code 9 at 1200. */
  const Second := Rotate(Marked, GenerateRandomId(9, 1200), 1200)

  function ScanOf(srn: string, code: uint32, at: int64): ScanMessage {
    ScanMessage(1, code, at, srn)
  }

  /** The first rotation of a fresh session archives nothing and installs code 7, valid
      until 1200. */
  lemma FirstRotationInstallsCode()
    ensures First.currentRandomId == RandomId(7, 1000, 1200) && First.pastRandomIds == []
    ensures First.students == [S101, S102, S103]
  {
  }

  /** A scan of code 7 50 ms past its expiry is accepted. */
  lemma ScanWithinToleranceAccepted()
    ensures ValidateScan(map[1 := First], ScanOf(S101.srn, 7, 1250), 0, 0) == Accepted
  {
    FirstRotationInstallsCode();
  }

  /** Marking S101 present changes S101's entry alone. */
  lemma MarkingS101()
    ensures MarkedPresent(First.students, S101.srn) == Some(Marked.students)
  {
    FirstRotationInstallsCode();
    assert FirstMatch(First.students, S101.srn) == 0;
    assert SetPresence(First.students, 0, true) == [S101.(isPresent := true), S102, S103];
  }

  /** The snapshot after the mark has S101 among the presentees and the others absent. */
  lemma SnapshotAfterMark()
    ensures Snapshot(1, Marked.students) == AttendanceChangeEvent(1, [S102, S103], [S101.(isPresent := true)])
  {
    var m := Marked.students;
    assert m[..2] == [S101.(isPresent := true), S102];
    assert m[..2][..1] == [S101.(isPresent := true)];
    assert m[..2][..1][..0] == [];
    assert Absentees(m[..2][..1]) == [] && Presentees(m[..2][..1]) == [S101.(isPresent := true)];
    assert Absentees(m[..2]) == [S102] && Presentees(m[..2]) == [S101.(isPresent := true)];
  }

  /** S101 scanning again is refused as already present. */
  lemma RepeatScanRefused()
    ensures ValidateScan(map[1 := Marked], ScanOf(S101.srn, 7, 1250), 0, 0) == Rejected(AlreadyMarkedPresent)
  {
    assert Marked.students[0].srn == S101.srn && Marked.students[0].isPresent;
  }

  /** The second rotation archives code 7 with its expiry overwritten by the rotation
      instant, here equal to its minted expiry. */
  lemma SecondRotationArchives()
    ensures Second.currentRandomId == RandomId(9, 1200, 1400)
    ensures Second.pastRandomIds == [RandomId(7, 1000, 1200)]
  {
  }

  /** Against the archived code 7 (expiry 1200): a scan at 1300 is accepted, one at 1310
      is refused as expired, one long before expiry is accepted because the window has no
      lower bound, and an ID never issued is refused as unknown. */
  lemma ArchivedCodeBoundary()
    ensures ValidateScan(map[1 := Second], ScanOf(S102.srn, 7, 1300), 0, 0) == Accepted
    ensures ValidateScan(map[1 := Second], ScanOf(S102.srn, 7, 1310), 0, 0) == Rejected(PastCodeExpired)
    ensures ValidateScan(map[1 := Second], ScanOf(S102.srn, 7, 0), 0, 0) == Accepted
    ensures ValidateScan(map[1 := Second], ScanOf(S102.srn, 8, 1250), 0, 0) == Rejected(UnknownCode)
  {
    SecondRotationArchives();
  }
}
