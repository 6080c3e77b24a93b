# QR attendance session engine — a Dafny model

This project models the in-memory attendance engine of the qr-attendance-backend Go service. A presenter opens a **session** for a classroom, which creates a roster of students, all absent. Every 200 ms the presenter's connection mints a random 32-bit **code**, valid for 200 ms, and **rotates** it into the session. Rotation archives the previous code, stamped with the instant of the rotation.

Attendees scan the displayed code. The engine **validates** each scan as follows:

- it moves the scan instant onto the server clock using the clock drift and latencies measured when the connection was set up;
- it compares the result with the expiry of the current code;
- failing that, it searches the archived codes from newest to oldest.

An accepted scan **marks** the student present. The presenter may also **toggle** a student by hand. Each change pushes a snapshot into the session's bounded event queue, of capacity 10; the snapshot is the absentee and presentee lists. The presenter connection sorts both lists by the numeric value of the last three characters of the SRN before display.

Two database rules sit beside the engine:

- a browser-fingerprint binding: one fingerprint per SRN, and no fingerprint shared by two SRNs;
- the WebAuthn credential list of each user: create, look up, append, and replace by credential ID.

Files:

- `ints.dfy`: `uint32` and `int64`, with Go's silent two's-complement wrap-around written out (`Wrap64`, `Add64`, `Sub64`), and truncating division by two.
- `models.dfy`: the `Option`/`Result` wrappers and the engine's records (`Student`, `RandomId`, `Session`, `ScanMessage`, `AttendanceChangeEvent`).
- `roster.dfy`: the first-match SRN search shared by mark and toggle, and the absentee/presentee split, as functions with their lemmas.
- `rotation.dfy`: code minting, and one rotation and a run of rotations as functions, with the history lemmas.
- `scan.dfy`: the scan decision as a pure function, with the lemmas about it.
- `engine.dfy`: the class `SessionEngine`, which holds the session map and the per-session event queues. The operations of `sessions/teacher.go` and `sessions/student.go` are its methods. Each method is proved against the functions above.
- `presenter.dfy`: the presenter connection's own logic:
  - the render-latency estimate;
  - the in-place suffix sort of a snapshot;
  - the filter on override requests;
  - one rotation tick, and the ticker loop with its stop rule.
- `fingerprint.dfy`, `credentials.dfy`: the two database rules. Each is a class holding its table, with a decision function or spec function and its lemmas.
- `scenario.dfy`: a worked session that goes through all of the above with concrete numbers.

Two behaviours of the code differ from what a reader might expect; the model follows the code:

- **The tolerance is one-sided.** A symmetric window would accept a scan when |adjusted − expiry| ≤ 100 ms. The code only checks `adjusted − expiry <= 100` (sessions/student.go:37 and :47), so a scan made any time before a code's expiry passes. `Scan.WithinTolerance` is that check. `Scan.OneSidedTolerance` states it. `Scan.SymmetricWindowWouldDiffer` exhibits a scan that is 101 ms early: the code accepts it, and a symmetric window would not. The `abs` helper exists but nothing calls it.
- **Marking an unknown SRN succeeds.** Marking an SRN missing from the roster is not an error: `MarkStudentPresent` returns success and changes nothing in that case (sessions/student.go:67-87).

## Model

| member | source | states |
|---|---|---|
| Ints.Half64 | handlers/teacher.go:54 | Go's `/ 2` on int64: rounds toward zero, so the result times two lies within one of the argument on the argument's side of zero |
| Ints.Add64 | sessions/student.go:32 | int64 addition: congruent to the true sum modulo 2^64, and equal to it when that sum fits |
| Ints.Sub64 | sessions/student.go:37 | int64 subtraction: congruent to the true difference modulo 2^64, and equal to it when that difference fits |
| Roster.FirstMatch | sessions/teacher.go:107-113 | the index the search loop stops at: no earlier entry has the SRN, and the entry there has it, or the index is the roster length |
| Roster.Absentees | sessions/teacher.go:83-91 | every entry of the absentee list is absent and comes from the roster |
| Roster.Presentees | sessions/teacher.go:83-91 | every entry of the presentee list is present and comes from the roster |
| Roster.PartitionIsComplete | sessions/teacher.go:85-91 | the two lists together hold the roster exactly: their lengths sum to its length and their multisets add up to its multiset |
| Roster.SplitIsExact | sessions/teacher.go:85-91 | an absent entry occurs among the absentees exactly as often as in the roster and never among the presentees, and symmetrically for present entries |
| Roster.Toggled | sessions/teacher.go:105-117 | fails exactly when no entry has the SRN; otherwise only the first matching entry changes, and only in presence, which is flipped |
| Roster.FirstMatchIgnoresPresence | sessions/teacher.go:107-112 | changing presence flags never moves the first match of an SRN |
| Roster.ToggleTwice | sessions/teacher.go:96-126 | toggling the same SRN twice restores the original roster |
| Roster.MarkedPresent | sessions/student.go:66-78 | changes the roster exactly when the first entry with the SRN exists and is absent, and then sets only that entry present |
| Roster.MarkIsMonotoneAndIdempotent | sessions/student.go:66-78 | marking never clears a present entry, and marking the same SRN again changes nothing |
| Roster.SetPresentMovesOne | sessions/student.go:72-73 | setting one absent entry present grows the presentee list by one and shrinks the absentee list by one |
| Rotation.GenerateRandomId | handlers/teacher.go:221-228 | the code carries the given ID, is created at `now`, and expires at `now + 200` (modulo int64 wrap) |
| Rotation.Rotate | sessions/teacher.go:53-63 | the new code becomes current; a current code with non-zero ID is appended to the history with its expiry set to the rotation instant, and a zero ID leaves the history as it was; earlier history, roster, table and latency are unchanged |
| Rotation.RotationsKeepExpiriesOrdered | sessions/teacher.go:55-56 | when rotation instants never decrease, the archived expiries are non-decreasing in insertion order and bounded by the last instant |
| Rotation.RotationHistory | sessions/teacher.go:53-60 | from a fresh session, N rotations with non-zero codes leave the N-th code current and N-1 archived, the k-th stamped with the instant of the (k+1)-th rotation |
| Scan.AdjustedScanTime | sessions/student.go:31-32 | the adjusted instant is `scannedAt + clockDrift - studentLatency - renderLatency`, wrapped to int64 as a whole, and exact when no overflow occurs |
| Scan.OneSidedTolerance | sessions/student.go:37 | without overflow, the acceptance test holds exactly when the adjusted instant is at most 100 ms past the expiry, with no lower bound |
| Scan.Abs | sessions/student.go:90-95 | the result is x or −x and is non-negative for every x above the minimum int64; the minimum int64 maps to itself |
| Scan.SymmetricWindowWouldDiffer | sessions/student.go:37 | a scan 101 ms before expiry passes the one-sided test, although its absolute delta exceeds the tolerance |
| Scan.MessageIdentifiesReason | sessions/student.go:20-54 | the five rejection texts are pairwise distinct, so the text alone names the check that refused the scan |
| Scan.SearchHistory | sessions/student.go:44-54 | the history search yields accept, past-expired, or unknown, and unknown exactly when no archived code carries the scanned ID |
| Scan.NewestMatchDecides | sessions/student.go:44-52 | the newest archived entry with the scanned ID alone decides, by its own expiry |
| Scan.OlderEntriesIgnored | sessions/student.go:44-52 | once a newer archived entry matches, older entries, including ones with the same ID, never change the verdict |
| Scan.ValidateScan | sessions/student.go:13-55 | rejected as an invalid session exactly when the session is missing; rejected as already present when any entry with the SRN is present; acceptance implies the ID is current or archived; unknown exactly when no ID matches |
| Scan.CurrentCodeDecides | sessions/student.go:35-41 | a scan of the current code is accepted exactly when it passes the tolerance against the current expiry, is otherwise rejected as current-expired, and is independent of the history |
| Scan.PastCodeDecides | sessions/student.go:44-52 | a scan of a non-current code is decided by the newest archived entry with that ID, against that entry's expiry |
| Scan.ScanAfterMarkRejected | sessions/student.go:23-28 | after a scan marks its student present, any further scan by that SRN is rejected as already present |
| Scan.ClockDrift | handlers/student.go:50 | the drift is server time minus the client's reported time |
| Scan.StudentLatency | handlers/student.go:40 | the latency is the full elapsed handshake time, not half of it |
| Scan.AdjustedIgnoresServerTime | sessions/student.go:32 | with those two measurements, the server's handshake reading cancels out of the adjusted instant |
| Engine.NewSession | sessions/teacher.go:32-36 | a new session holds the given roster and latency, the zero code (ID 0), and no history |
| Engine.Snapshot | sessions/teacher.go:175-187 | the pushed event names its session and splits the whole roster |
| Engine.AfterNotify | sessions/teacher.go:165-193 | a snapshot is appended only when the session has a queue, the session exists, and fewer than 10 events are buffered; otherwise nothing changes; other queues are untouched and the bound of 10 is preserved |
| Engine.SessionEngine.CreateSession | sessions/teacher.go:19-40 | a failed roster lookup returns its error and stores nothing; otherwise the session is stored under the new ID, overwriting any entry there, and the roster is returned; the queues become `AfterNotify` of the old queues for the new ID, so a snapshot is pushed only if a queue for that ID already exists |
| Engine.SessionEngine.UpdateRandomID | sessions/teacher.go:43-65 | an unknown session gives "session not found" and no change; otherwise the session becomes its rotation |
| Engine.SessionEngine.DeleteSession | sessions/teacher.go:67-71 | removes exactly that key; other sessions and all queues are unchanged |
| Engine.SessionEngine.GetAttendanceList | sessions/teacher.go:74-94 | an unknown session is an error; otherwise the loop's lists are the absentee and presentee lists of the roster |
| Engine.SessionEngine.ToggleStudentAttendance | sessions/teacher.go:96-126 | an unknown session or SRN is an error and changes nothing; otherwise the roster becomes its toggle and a snapshot is pushed |
| Engine.SessionEngine.RegisterForAttendanceChanges | sessions/teacher.go:143-151 | the session gets a fresh empty queue, replacing any it had |
| Engine.SessionEngine.UnregisterFromAttendanceChanges | sessions/teacher.go:154-162 | the session's queue is removed; with no queue, nothing changes |
| Engine.SessionEngine.NotifyAttendanceChange | sessions/teacher.go:165-193 | the queues become their notified state, and no queue exceeds 10 |
| Engine.SessionEngine.ReceiveEvent | handlers/teacher.go:183-188 | the presenter receives the oldest buffered snapshot, which leaves the queue |
| Engine.SessionEngine.MarkStudentPresent | sessions/student.go:57-88 | an unknown session is an error; otherwise success; the roster changes, and a snapshot is pushed, only when the first entry with the SRN was absent |
| Engine.SessionEngine.ValidateScan | sessions/student.go:13-55 | the source's loops, including the backward history walk, compute the scan decision and change nothing |
| Presenter.PresenterLatency | handlers/teacher.go:47-64 | the latency is half the probe round trip, truncated, plus the reported render time; the halved part is within rounding of half the round trip |
| Presenter.Atoi | handlers/teacher.go:192 | strconv.Atoi: an optional sign and at least one digit give their decimal value; anything else is an error |
| Presenter.SuffixKey | handlers/teacher.go:192-193 | the sort key of an SRN is its last three characters as a number, lies in −99..999, and is 0 when they do not parse |
| Presenter.SortBy | handlers/teacher.go:191-195 | the array ends up in ascending key order and holds the same entries |
| Presenter.SortBySuffix | handlers/teacher.go:191-201 | a list of fewer than two entries is left as it is, whatever its SRNs; a longer list whose SRNs all have at least three characters ends sorted by suffix key, and in both cases it is a permutation of its input |
| Presenter.PrepareAttendanceUpdate | handlers/teacher.go:190-209 | each list of the sent update is a permutation of the snapshot's list; a list of two or more entries is sorted by suffix key, and a shorter one is sent unchanged |
| Presenter.ProcessPresenterMessage | handlers/teacher.go:156-171 | only a TOGGLE_ATTENDANCE message with a non-empty SRN reaches the engine; its reply is OK exactly when the toggle succeeded, and then the session holds the toggled roster and the queues are `AfterNotify` of the old ones; any other reply or no reply leaves sessions and queues unchanged |
| Presenter.RotationStep | handlers/teacher.go:106-123 | a failed rotation stops the ticker before anything is written; otherwise the minted code is rotated in and written, and the ticker continues exactly when the write succeeded |
| Presenter.RunRotation | handlers/teacher.go:98-126 | the written codes are the minted ones in order, up to and including the first failed write; the session is rotated once per written code |
| Fingerprints.RowOfSrn | database/fingerprint.go:15 | the SRN lookup finds the first row with the SRN, or none |
| Fingerprints.Decide | database/fingerprint.go:11-50 | an insertion happens only for an unbound SRN and reports success; errors imply refusal; a failed SRN lookup is reported as is; success without insertion means the pair is already a row |
| Fingerprints.BoundSrnDecides | database/fingerprint.go:46-49 | for a bound SRN the call succeeds exactly when the pair is already a row, and inserts nothing |
| Fingerprints.TakenFingerprintRefused | database/fingerprint.go:17-26 | an unbound SRN presenting a fingerprint another SRN owns is refused with no error and no insert |
| Fingerprints.FailedFingerprintLookupRefuses | database/fingerprint.go:17-25 | an unbound SRN whose fingerprint lookup fails with an error other than not-found is refused without an error, and the table is unchanged |
| Fingerprints.FreshPairBound | database/fingerprint.go:28-39 | an unbound SRN with an unclaimed fingerprint gets the row (SRN, fingerprint) appended and the call succeeds |
| Fingerprints.AcceptedPairs | database/fingerprint.go:11-50 | without faults, a call succeeds exactly when the pair is already bound or neither half of it is bound |
| Fingerprints.DecidePreservesConsistency | database/fingerprint.go:11-50 | every call keeps one row per SRN and one SRN per fingerprint |
| Fingerprints.RepeatAfterSuccess | database/fingerprint.go:11-50 | after a success, repeating the call succeeds and changes nothing |
| Fingerprints.FingerprintStore.ValidateFingerprint | database/fingerprint.go:11-50 | the table keeps its consistency, and the answer and the new table are those of the decision |
| Credentials.RowOf | database/auth.go:28 | the user lookup finds the first row with the SRN, or none |
| Credentials.FirstById | database/auth.go:64-65 | the first credential with the ID, or none |
| Credentials.ReplaceFirstById | database/auth.go:63-74 | fails exactly when no credential has the ID; otherwise only the first match is replaced by the new credential, and the length is kept |
| Credentials.ReplaceIsIdempotent | database/auth.go:63-70 | replacing again with the same credential changes nothing |
| Credentials.FindCredential | database/auth.go:63-70 | the search loop returns the first index whose ID is equal, or the list length |
| Credentials.UserStore.CreateUser | database/auth.go:11-22 | the returned user has the SRN and no credentials; a successful insert adds it as a row, and a failed one changes nothing |
| Credentials.UserStore.GetUser | database/auth.go:24-33 | returns the first row with the SRN, or the zero user and a not-found error exactly when there is none |
| Credentials.UserStore.Save | database/auth.go:49 | a successful save overwrites the fetched row; a failed one changes nothing |
| Credentials.UserStore.AddCredential | database/auth.go:35-50 | an unknown SRN returns the lookup error and changes nothing; otherwise exactly one credential is appended after the existing ones and saved |
| Credentials.UserStore.UpdateCredential | database/auth.go:52-78 | an unknown SRN returns the lookup error; no matching ID gives "credential not found" and saves nothing; otherwise the first match is replaced and saved |
| Scenario.FirstRotationInstallsCode | sessions/teacher.go:53-63 | the first rotation of a fresh session archives nothing and installs the minted code, which expires 200 ms after it was minted |
| Scenario.ScanWithinToleranceAccepted | sessions/student.go:35-38 | a scan of the current code 50 ms past its expiry is accepted |
| Scenario.MarkingS101 | sessions/student.go:57-88 | marking the scanner present changes only that student's entry |
| Scenario.SnapshotAfterMark | sessions/teacher.go:74-94 | the next snapshot has the marked student among the presentees and the other two among the absentees |
| Scenario.RepeatScanRefused | sessions/student.go:23-28 | the same student scanning again is refused as already present |
| Scenario.SecondRotationArchives | sessions/teacher.go:53-63 | the second rotation archives the first code with its expiry set to the rotation instant |
| Scenario.ArchivedCodeBoundary | sessions/student.go:44-54 | against the archived code: +100 ms is accepted, +110 ms is refused as expired, an early scan is accepted, and an ID never issued is refused as unknown |

## Left out

- WebSocket transport is not modelled: upgrade, origin check, JSON reads and writes, and the handshake exchange. Its results become parameters: the probe timestamps, the render time, whether a write succeeded, and one incoming message.
- Concurrency is not modelled: goroutines, mutexes, the ticker and context cancellation. Every operation is atomic and sequential, and `go notifyAttendanceChange` runs synchronously at the point where it is launched. One consequence: the presenter handler registers its queue only after CreateSession returns (handlers/teacher.go:67-75), and registering replaces any queue with an empty one. So in the model the snapshot CreateSession pushes is always lost. In Go, that goroutine races the registration and may deliver the snapshot.
- The window between ValidateScan's copy of the session and the later MarkStudentPresent is not modelled.
- `time.Now()` and `rand.Uint32()` are parameters. Minting a code and rotating it read the clock separately, so they take separate instants. Nothing checks session-ID or code-ID collisions, and neither does the model.
- `strconv.ParseInt` of the scan and client timestamps is not modelled; the model takes the parsed int64. The discarded parse error is therefore not modelled.
- The roster query (database/students.go) and the database connection (database/connect.go) are not part of this model. The roster arrives as a `Result` value.
- auth/register.go, auth/login.go and auth/init.go are not part of this model. They are thin handlers around the WebAuthn library.
- Database faults are parameters, not behaviour: an SRN lookup failing with an error other than not-found, a failed fingerprint lookup, a failed insert or save. In the model a failed insert or save leaves the table unchanged.
- Fingerprints.FreshPairBound: this lemma and Fingerprints.AcceptedPairs describe the fault-free path and assume the fingerprint lookup queries the stored fingerprint. The lookup at database/fingerprint.go:20 filters on a column `fingerprint`. The only migrated row type (models/database.go:8, migrated at database/connect.go:35) stores the field `BrowserFingerprint`, which GORM's default naming maps to `browser_fingerprint`. On that schema the lookup fails with an error other than not-found, so every call for an unbound SRN takes the `fingerprintLookupFails` path (Fingerprints.FailedFingerprintLookupRefuses) and no SRN is ever bound. A database created under an older schema might have a `fingerprint` column; the model keeps both paths.
- Credentials.UserStore.GetUser: a lookup error other than not-found is not modelled.
- The models.User record is not part of this model. A user is modelled as an SRN and a credential list, and a credential as its ID bytes plus an opaque payload. Whether the users table has a uniqueness constraint on SRN is unknown. A second CreateUser for the same SRN therefore adds a row that lookups never reach, and a constraint would show up as the create-error parameter.
- Presenter.SuffixKey: SRNs are sequences of characters, not bytes, so the last three characters stand for the last three bytes. This matters only for non-ASCII SRNs.
- Presenter.SortBySuffix: a list of two or more entries holding an SRN shorter than three characters makes the comparator's slice expression panic in Go (handlers/teacher.go:192-193, 198-199). The model does not cover that panic; it requires every SRN of such a list to have at least three characters. A list of zero or one entries is never compared and is covered for any SRN.
- Presenter.SortBySuffix: Go's sort.Slice is not stable. The model's insertion sort happens to keep equal keys in order. The contract promises only ascending keys and the same entries, which any order of equal keys satisfies.
- Presenter.RunRotation: the infinite ticker is modelled as the finite sequence of ticks that fire before teardown. The toggle reader loop is modelled one message at a time (Presenter.ProcessPresenterMessage), and timeouts and read errors are treated as transport.
- Sessions and handlers share the `Students` slice in Go: the roster CreateSession returns aliases the stored one. The model keeps rosters as values, so this aliasing is not modelled. It does not change any operation's outcome in the sequential model.
- Logging is not modelled.
