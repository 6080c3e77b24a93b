/** The browser-fingerprint binding rule (database/fingerprint.go): the first call for
    an SRN binds it to the given fingerprint unless another SRN owns that fingerprint,
    and later calls for the SRN succeed only with the bound fingerprint. The table is a
    sequence of rows in insertion order, which is the order in which GORM's First finds
    them. */
module Fingerprints {
  import opened Wrappers

  datatype Row = Row(srn: string, fingerprint: string)

  /** What the database calls do besides answering from the table: the SRN lookup may
      fail with an error other than not-found, the fingerprint lookup may fail, and the
      insert may fail. */
  datatype Faults = Faults(srnLookup: Option<string>, fingerprintLookupFails: bool, create: Option<string>)

  const NoFaults := Faults(None, false, None)

  /** Index of the first row for this SRN, or |rows| when there is none. */
  function RowOfSrn(rows: seq<Row>, srn: string): (i: nat)
    ensures i <= |rows|
    ensures i < |rows| ==> rows[i].srn == srn
    ensures forall k :: 0 <= k < i ==> rows[k].srn != srn
  {
    if rows == [] then 0
    else if rows[0].srn == srn then 0
    else 1 + RowOfSrn(rows[1..], srn)
  }

  predicate SrnBound(rows: seq<Row>, srn: string) {
    exists k :: 0 <= k < |rows| && rows[k].srn == srn
  }

  predicate FingerprintBound(rows: seq<Row>, fingerprint: string) {
    exists k :: 0 <= k < |rows| && rows[k].fingerprint == fingerprint
  }

  /** The binding rule's invariant: no SRN has two rows and no fingerprint is bound to
      two SRNs. */
  predicate Consistent(rows: seq<Row>) {
    forall i, j :: 0 <= i < j < |rows| ==>
      rows[i].srn != rows[j].srn && rows[i].fingerprint != rows[j].fingerprint
  }

  /** The answer of one call and whether it inserted the row (srn, fingerprint). */
  datatype Outcome = Outcome(valid: bool, err: Option<string>, inserted: bool)

  /** The decision ValidateFingerprint makes. A failed SRN lookup is reported; a bound
      SRN is accepted exactly when its fingerprint matches; an unbound SRN whose
      fingerprint is already taken -- or whose fingerprint lookup fails -- is refused
      without an error; otherwise the binding is created, and a failed insert is
      reported. */
  function Decide(rows: seq<Row>, srn: string, fingerprint: string, faults: Faults): (o: Outcome)
    ensures o.inserted ==> o.valid && o.err == None && !SrnBound(rows, srn)
    ensures o.err.Some? ==> !o.valid
    ensures faults.srnLookup.Some? ==> o == Outcome(false, faults.srnLookup, false)
    ensures faults == NoFaults ==> o.err == None
    ensures o.valid && !o.inserted ==> Row(srn, fingerprint) in rows
  {
    if faults.srnLookup.Some? then Outcome(false, faults.srnLookup, false)
    else
      var i := RowOfSrn(rows, srn);
      if i < |rows| then Outcome(rows[i].fingerprint == fingerprint, None, false)
      else if faults.fingerprintLookupFails || FingerprintBound(rows, fingerprint) then Outcome(false, None, false)
      else if faults.create.Some? then Outcome(false, faults.create, false)
      else Outcome(true, None, true)
  }

  /** The table after a call with this outcome. */
  function After(rows: seq<Row>, srn: string, fingerprint: string, o: Outcome): (r: seq<Row>)
    ensures o.inserted ==> |r| == |rows| + 1 && r[..|rows|] == rows && r[|rows|] == Row(srn, fingerprint)
    ensures !o.inserted ==> r == rows
  {
    if o.inserted then rows + [Row(srn, fingerprint)] else rows
  }

  /** An SRN that is already bound: the call succeeds exactly when the given fingerprint
      is the bound one, and the table is left alone. */
  lemma {:induction false} BoundSrnDecides(rows: seq<Row>, srn: string, fingerprint: string, faults: Faults)
    requires Consistent(rows) && SrnBound(rows, srn) && faults.srnLookup.None?
    ensures !Decide(rows, srn, fingerprint, faults).inserted
    ensures Decide(rows, srn, fingerprint, faults).err == None
    ensures Decide(rows, srn, fingerprint, faults).valid <==> Row(srn, fingerprint) in rows
  {
    var i := RowOfSrn(rows, srn);
    if Row(srn, fingerprint) in rows {
      var k :| 0 <= k < |rows| && rows[k] == Row(srn, fingerprint);
      assert k == i;
    }
  }

  /** An unbound SRN presenting a fingerprint some other SRN already owns is refused,
      without an error and without a new row. */
  lemma TakenFingerprintRefused(rows: seq<Row>, srn: string, fingerprint: string, faults: Faults)
    requires !SrnBound(rows, srn) && FingerprintBound(rows, fingerprint) && faults.srnLookup.None?
    ensures Decide(rows, srn, fingerprint, faults) == Outcome(false, None, false)
  {
    assert RowOfSrn(rows, srn) == |rows|;
  }

  /** An unbound SRN whose fingerprint lookup fails with an error other than not-found
      is refused without an error and without a new row, whatever the table holds. The
      lookup queries a column named `fingerprint`, while the migrated row type stores the
      fingerprint under `browser_fingerprint`; on that schema every call for an unbound
      SRN ends here. */
  lemma FailedFingerprintLookupRefuses(rows: seq<Row>, srn: string, fingerprint: string, faults: Faults)
    requires !SrnBound(rows, srn) && faults.srnLookup.None? && faults.fingerprintLookupFails
    ensures Decide(rows, srn, fingerprint, faults) == Outcome(false, None, false)
    ensures After(rows, srn, fingerprint, Decide(rows, srn, fingerprint, faults)) == rows
  {
    assert RowOfSrn(rows, srn) == |rows|;
  }

  /** An unbound SRN with an unclaimed fingerprint is bound to it when the database
      calls succeed. */
  lemma FreshPairBound(rows: seq<Row>, srn: string, fingerprint: string)
    requires !SrnBound(rows, srn) && !FingerprintBound(rows, fingerprint)
    ensures Decide(rows, srn, fingerprint, NoFaults) == Outcome(true, None, true)
    ensures After(rows, srn, fingerprint, Decide(rows, srn, fingerprint, NoFaults)) == rows + [Row(srn, fingerprint)]
  {
    assert RowOfSrn(rows, srn) == |rows|;
  }

  /** Without faults, and on a consistent table, a call succeeds exactly when the pair is
      already bound or neither half of it is. */
  lemma {:induction false} AcceptedPairs(rows: seq<Row>, srn: string, fingerprint: string)
    requires Consistent(rows)
    ensures Decide(rows, srn, fingerprint, NoFaults).valid <==>
      Row(srn, fingerprint) in rows || (!SrnBound(rows, srn) && !FingerprintBound(rows, fingerprint))
  {
    if SrnBound(rows, srn) {
      BoundSrnDecides(rows, srn, fingerprint, NoFaults);
    } else if FingerprintBound(rows, fingerprint) {
      TakenFingerprintRefused(rows, srn, fingerprint, NoFaults);
    } else {
      FreshPairBound(rows, srn, fingerprint);
    }
  }

  /** Every call keeps the table consistent: one row per SRN and one SRN per fingerprint. */
  lemma {:induction false} DecidePreservesConsistency(rows: seq<Row>, srn: string, fingerprint: string, faults: Faults)
    requires Consistent(rows)
    ensures Consistent(After(rows, srn, fingerprint, Decide(rows, srn, fingerprint, faults)))
  {
    var o := Decide(rows, srn, fingerprint, faults);
    if o.inserted {
      var r := After(rows, srn, fingerprint, o);
      assert !FingerprintBound(rows, fingerprint);
      forall i, j | 0 <= i < j < |r|
        ensures r[i].srn != r[j].srn && r[i].fingerprint != r[j].fingerprint
      {
        if j == |rows| {
          assert r[i] == rows[i];
        }
      }
    }
  }

  /** After a successful call, the same call again succeeds and changes nothing. */
  lemma {:induction false} RepeatAfterSuccess(rows: seq<Row>, srn: string, fingerprint: string, faults: Faults, again: Faults)
    requires Consistent(rows)
    requires Decide(rows, srn, fingerprint, faults).valid
    requires again.srnLookup.None?
    ensures
      var rows' := After(rows, srn, fingerprint, Decide(rows, srn, fingerprint, faults));
      Decide(rows', srn, fingerprint, again) == Outcome(true, None, false)
  {
    var o := Decide(rows, srn, fingerprint, faults);
    var rows' := After(rows, srn, fingerprint, o);
    DecidePreservesConsistency(rows, srn, fingerprint, faults);
    assert Row(srn, fingerprint) in rows' by {
      if o.inserted { assert rows'[|rows|] == Row(srn, fingerprint); }
    }
    var k :| 0 <= k < |rows'| && rows'[k] == Row(srn, fingerprint);
    assert SrnBound(rows', srn);
    BoundSrnDecides(rows', srn, fingerprint, again);
  }

  /** The fingerprint table. */
  class FingerprintStore {
    var rows: seq<Row>

    predicate Valid()
      reads this
    {
      Consistent(rows)
    }

    constructor()
      ensures Valid() && rows == []
    {
      rows := [];
    }

    /** ValidateFingerprint: looks the SRN up, refuses a taken fingerprint, and binds a
        fresh pair. */
    method ValidateFingerprint(srn: string, fingerprint: string, faults: Faults)
      returns (valid: bool, err: Option<string>)
      requires Valid()
      modifies this
      ensures Valid()
      ensures Outcome(valid, err, |rows| != |old(rows)|) == Decide(old(rows), srn, fingerprint, faults)
      ensures rows == After(old(rows), srn, fingerprint, Decide(old(rows), srn, fingerprint, faults))
    {
      DecidePreservesConsistency(rows, srn, fingerprint, faults);
      if faults.srnLookup.Some? {
        return false, faults.srnLookup;
      }
      var i := RowOfSrn(rows, srn);
      if i == |rows| {
        if faults.fingerprintLookupFails || FingerprintBound(rows, fingerprint) {
          return false, None;
        }
        if faults.create.Some? {
          return false, faults.create;
        }
        rows := rows + [Row(srn, fingerprint)];
        return true, None;
      }
      if rows[i].fingerprint != fingerprint {
        return false, None;
      }
      return true, None;
    }
  }
}
