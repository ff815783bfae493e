# Verified models of the ecat data and resilience crates

A Dafny model of the hardest logic in the repository, and proofs about it. `dafny verify dfyconfig.toml`
checks everything.

- **Two-phase commit** (`TwoPhaseProtocol`, `TwoPhaseTheorems`, `TwoPhaseCleanup`, `TwoPhaseCoordinator`,
  `XaParticipant`). The protocol is a step system: a durable log row, a branch per participant and the await in
  flight. Each await may succeed, fail without effect or fail after its effect; futures are dropped, servers abandon
  branches and the process crashes between any two steps. The theorems hold in every state of every run. The
  coordinator and its recovery worker are a class whose methods loop as the code does; its invariant says that the
  states passed through are a trace of the protocol in which, between interruptions, the code skips no step. The sqlx participant is a class whose commands are shown to be
  commands the protocol allows.
- **Circuit breaker** (`CircuitBreaker`, `BreakerRuns`, `BreakerTheorems`). The locked sections of a call are
  methods; runs interleave any number of calls that enter, finish or are dropped, under a monotone clock that may
  advance between any two readings. Ratios are exact.
- **CQL conversion** (`DecimalText`, `CqlDecimal`, `DecimalFormat`, `CivilCalendar`, `TimestampText`): in-place
  base-256 division, scaled decimals, the Gregorian calendar and timestamps, each against an independent reader.
- **SQL Server pool, introspection cache, prefix scans** (`MssqlPool`, `IntrospectCache`, `PrefixScan`). `Basics` holds
  the types shared by the models.
- **HDFS paths and listing** (`HdfsPath`, `HdfsTree`, `HdfsList`) and **InfluxDB line protocol** (`SortedItems`,
  `LineProtocol`, `LineReader`).

## Findings

Some expected properties are false of the code. Each is stated exactly, with the condition under which it holds.

- A `rolled_back` row may be left over one open branch, because `begin` ignores the cleanup result of the
  participant whose START failed (`OpenBranchUnderRolledBackRow`). It happens if and only if that cleanup left the
  branch open and the server has not rolled it back since (`OpenUnderRolledBackIff`; for the code, `StartAll`). With
  sqlx participants it does not happen (`SqlxRolledBackIsComplete`).
- A PostgreSQL PREPARE TRANSACTION in a block where a statement has failed ends the block as a rollback and is
  not an error. `xa_prepare` reports it as prepared, and the unknown-xid rule then hides the loss. The protocol's
  guarantees need PREPARE to be honest; `PrepareServes` says exactly when it is, `HollowPrepareSplits` shows what
  follows when it is not.
- With `half_open_probes = 0` a half-open breaker can close only through a call that is already in flight, such as
  the one that ended the cooldown, which needs no permit (`CanCloseIff`). If no call is in flight, it refuses every
  call for ever (`WedgeIsForever`). Only the tower builder clamps the setting (`NeverWedgesIffProbes`).
- The limit on concurrent probes does not hold: permits of earlier periods free places in the present one, without
  bound (`ProbesCanExceedBy`). It holds if and only if it is zero or the breaker can never open
  (`ProbeLimitHoldsIff`), and the excess is known exactly (`ProbesInFlightAreExact`).
- Zero with a negative scale prints as a run of zeros (`LeadingZerosOnlyForScaledZero`).
- A transaction opened without the note being taken survives recycling unless the probe is due
  (`RecycleCleansIff`, `CleanWhateverHappensIff`).
- `list` refuses the prefix `.` or `..`, alone or after a slash, although valid keys such as `.profile` begin with it
  (`PrefixOfKeyIff`).
- A timestamp whose year is outside 0 to 9999 is not an RFC 3339 date-time (`TimestampFormIff`).
- The line printer does not escape everything the format gives a meaning: a newline in an unquoted part breaks the
  line, a measurement that starts with `#` makes it a comment, and empty names, empty tag values and infinite numbers
  are not line protocol. Nothing else stands in the way of the round trip (`RoundTripIff`).

## Model

| member | source | states |
|---|---|---|
| TwoPhaseTheorems.Atomicity | ecat-data-2pc/src/coordinator.rs:131-420 | in every state of every run, with any mix of failing calls, dropped futures, abandoned branches, crashes and recovery passes, a committed branch means that every branch of the transaction is prepared or committed, and a rolled-back one that none is committed |
| TwoPhaseTheorems.OutcomesAgreeAcrossTime | ecat-data-2pc/src/coordinator.rs:339-420 | a branch committed at one moment and a branch rolled back at any other moment of a run never belong to one transaction |
| TwoPhaseTheorems.LogTellsTheTruth | ecat-data-2pc/src/coordinator.rs:359-419 | in every reachable state the row describes the branches (prepared or committing: all prepared or committed; committed: all committed; rolled back: none prepared or committed) and the decision column is a function of the status |
| TwoPhaseTheorems.UnknownXidIsSound | ecat-data-2pc/src/xa.rs:115-151 | every COMMIT issued finds its branch prepared or committed and every ROLLBACK finds it not committed, so success through the unknown-xid rule never hides the opposite outcome |
| TwoPhaseTheorems.DecisionsAreIrreversible | ecat-data-2pc/src/coordinator.rs:366-406 | between any two moments of a run the log never moves between the commit side and the rollback side, final rows stay and branches keep their outcome |
| TwoPhaseTheorems.PreparedRollbackArmIsDead | ecat-data-2pc/src/recovery.rs:123-130 | a prepared row never carries a rollback decision, recovery cross-checks exactly the rows it commits, and the cross-checked rollback is never entered |
| TwoPhaseTheorems.TransactionsAreIndependent | ecat-data-2pc/src/recovery.rs:29-67 | a state of a transaction is reached in some run, with any number of others failing, crashing and recovering beside it, if and only if it is reached by that transaction alone |
| TwoPhaseTheorems.RunProjects | ecat-data-2pc/src/recovery.rs:29-67 | what any run does to one transaction is a trace of that transaction |
| TwoPhaseTheorems.CallsComeInOrder | ecat-data-2pc/src/coordinator.rs:351-372 | in every trace no PREPARE is issued before the END of every participant has succeeded, and no ROLLBACK before an END of that participant |
| TwoPhaseTheorems.RolledBackLeavesAtMostOneOpen | ecat-data-2pc/src/coordinator.rs:157-177 | under a rolled-back row no branch is prepared or committed and at most one is still open |
| TwoPhaseTheorems.OpenBranchUnderRolledBackRow | ecat-data-2pc/src/coordinator.rs:157-169 | a concrete run in which `begin` ignores a failed cleanup and a rolled-back row is left over an open branch |
| TwoPhaseCleanup.OpenUnderRolledBackIff | ecat-data-2pc/src/coordinator.rs:157-169 | under a rolled-back row, at any moment of any trace, a branch is open if and only if the cleanup whose answers `begin` ignores left it open and the server has not rolled it back since |
| TwoPhaseCleanup.RolledBackIsComplete | ecat-data-2pc/src/coordinator.rs:157-177 | if no ignored cleanup leaves a branch open, a rolled-back row means that no branch has work left |
| TwoPhaseTheorems.SkippingEqualsReplaying | ecat-data-2pc/src/recovery.rs:76-119 | skipping the participants that do not list the xid gives every branch the state plain replay gives it; `RecoverCommit` ties the loop to that replay |
| TwoPhaseTheorems.ReplayCommitsEverything | ecat-data-2pc/src/recovery.rs:76-89 | replaying COMMIT, with or without the skip, commits every prepared branch and touches nothing else |
| TwoPhaseTheorems.CrossCheckChangesNothing | ecat-data-2pc/src/recovery.rs:29-119 | for every row recovery would commit, in every run, both forms of replay end with all branches committed |
| TwoPhaseTheorems.TraceIsRun | ecat-data-2pc/src/coordinator.rs:131-177 | every trace of one transaction is a run, so the theorems hold for whatever the class below passes through |
| TwoPhaseProtocol.CallKeepsInv | ecat-data-2pc/src/xa.rs:50-151 | every participant call, succeeding, failing without effect or failing after its effect, keeps the invariant at every point of the code |
| TwoPhaseProtocol.WriteKeepsInv | ecat-data-2pc/src/coordinator.rs:231-254 | every log write, also one whose answer is lost, keeps the invariant |
| TwoPhaseProtocol.CrashKeepsInv | ecat-data-2pc/src/recovery.rs:8-11 | a crash that loses every handle and every unprepared branch keeps the invariant |
| TwoPhaseProtocol.NextKeepsInv | ecat-data-2pc/src/coordinator.rs:131-420 | every step of the whole system keeps the invariant of every transaction |
| TwoPhaseProtocol.InvHoldsThroughout | ecat-data-2pc/src/coordinator.rs:131-420 | the invariant holds in every state of every run |
| TwoPhaseCoordinator.CheckParticipants | ecat-data-2pc/src/coordinator.rs:135-150 | accepts exactly the non-empty lists of distinct registered names; otherwise reports the first name that offends, a repetition before a missing registration |
| TwoPhaseCoordinator.Begin | ecat-data-2pc/src/coordinator.rs:131-177 | an unacceptable list leaves no row; a failed insert is reported as such; success means a started row with every branch active; a failed START is named and everything before it is undone until a ROLLBACK fails, so if nothing fails after it the row is rolled back with nothing left; a rolled-back row has nothing open if and only if the ignored cleanup left nothing open |
| TwoPhaseCoordinator.Transaction.StartAll | ecat-data-2pc/src/coordinator.rs:156-172 | every participant is started in turn, or the position that failed is given up; the code makes no step but those of the protocol and stops only where it ends |
| TwoPhaseCoordinator.Transaction.GiveUp | ecat-data-2pc/src/coordinator.rs:157-169 | cleanup of the failed participant, ROLLBACK of those started, then the log: either a ROLLBACK failed and the row is untouched, or all participants before are settled; if no call or log write fails, the row is rolled back and no branch has work left; a rolled-back row has nothing open if and only if the ignored cleanup left nothing open |
| TwoPhaseCoordinator.Transaction.Unwind | ecat-data-2pc/src/coordinator.rs:179-189 | reverse END/ROLLBACK: on success none of the participants has work left; otherwise the error names the participant whose ROLLBACK failed; the others are untouched |
| TwoPhaseCoordinator.Transaction.SetLog | ecat-data-2pc/src/coordinator.rs:231-254 | the row is replaced as asked, or left as it was when the write fails without effect |
| TwoPhaseCoordinator.Transaction.ReadLog | ecat-data-2pc/src/coordinator.rs:422-438 | the status query: work continues only from a row that is not final |
| TwoPhaseCoordinator.Transaction.CommitTx | ecat-data-2pc/src/coordinator.rs:339-379 | success means a committed row and every branch committed; a failed COMMIT leaves the row committing; a failed END or PREPARE ends rolled back with nothing left if nothing fails on the way back, or rolling back; errors name the call that failed; after any outcome, a failed log write included, the row is left to recovery or is final and carried out in every branch; without call failures open branches commit |
| TwoPhaseCoordinator.Transaction.RollbackTx | ecat-data-2pc/src/coordinator.rs:382-406 | success means a rolled-back row and nothing left in any branch; a failed call leaves the row rolling back; after a failed log write the row is left to recovery or is final and carried out in every branch |
| TwoPhaseCoordinator.Transaction.Abort | ecat-data-2pc/src/coordinator.rs:408-420 | returns the original error only when everything was undone, and always then without call failures; a failed ROLLBACK leaves the row rolling back |
| TwoPhaseCoordinator.Transaction.AlreadyResolved | ecat-data-2pc/src/recovery.rs:111-119 | says gone only of a branch that is not prepared; an unanswered query counts as not gone |
| TwoPhaseCoordinator.Transaction.RecoverCommit | ecat-data-2pc/src/recovery.rs:76-89 | the row stays as it was or becomes committed with every branch committed; on success every branch is as plain replay of the log would leave it |
| TwoPhaseCoordinator.Transaction.RecoverRollback | ecat-data-2pc/src/recovery.rs:91-105 | the row stays as it was or becomes rolled back with nothing left in any branch |
| TwoPhaseCoordinator.Transaction.RecoverRow | ecat-data-2pc/src/recovery.rs:37-66 | one turn of the loop: an unregistered participant leaves the transaction alone and counts as failed |
| TwoPhaseCoordinator.RecoverableLogs | ecat-data-2pc/src/coordinator.rs:271-289 | selects exactly the rows that are neither committed nor rolled back, each once |
| TwoPhaseCoordinator.RecoverLocked | ecat-data-2pc/src/recovery.rs:29-67 | every row keeps its state or gets the outcome its log calls for; unscanned rows are untouched; a row whose own calls do not fail is resolved exactly if its participants are registered, whatever happens to the other rows; recovered + failed = rows scanned, and recovered lies between the number of rows sure to be resolved and the number of rows now final, which are equal when no call fails |
| TwoPhaseCoordinator.CountsAreRight | ecat-data-2pc/src/recovery.rs:33-65 | those bounds, for any pass, and a pass that reports no failure leaves no row to recover |
| TwoPhaseCoordinator.RecoverConverges | ecat-data-2pc/src/recovery.rs:29-67 | one pass without call failures over registered participants resolves every row; the second pass scans no row, reports nothing and changes nothing |
| XaParticipant.EndServes | ecat-data-2pc/src/xa.rs:84-98 | MySQL: whatever XA END does on a pinned connection is one of the outcomes the protocol allows, and the branch is not active afterwards; on a live connection it succeeds exactly for an active branch |
| XaParticipant.PrepareServes | ecat-data-2pc/src/xa.rs:100-113 | whatever PREPARE does is an outcome the protocol allows, unless it is accepted on a PostgreSQL connection whose block has failed or is over; then, and only then, it is not; on a live connection it is refused exactly for a MySQL branch that is not ended |
| XaParticipant.CommitServes | ecat-data-2pc/src/xa.rs:115-132 | COMMIT with the unknown-xid rule is an outcome the protocol allows for every branch that is not open, and on a live connection it never fails; an open branch is refused and kept, or lost with its connection |
| XaParticipant.RollbackServes | ecat-data-2pc/src/xa.rs:134-151 | ROLLBACK in the form chosen by dialect and pin is an outcome the protocol allows; it leaves the branch open if and only if MySQL refuses it for an active branch; otherwise it never fails on a live connection |
| XaParticipant.Participant.XaStart | ecat-data-2pc/src/xa.rs:50-82 | is a START the protocol allows if and only if the id is pinned or new, or the call fails without effect; pins a connection exactly when it succeeds; an xid already pinned is accepted unchanged |
| XaParticipant.Participant.XaEnd | ecat-data-2pc/src/xa.rs:84-98 | refines END; an unpinned xid is refused, PostgreSQL is not asked and says yes, and on MySQL no active branch remains; on a live connection it succeeds exactly on PostgreSQL or for an active branch |
| XaParticipant.Participant.XaPrepare | ecat-data-2pc/src/xa.rs:100-113 | refines PREPARE if and only if it is not a success on a failed or finished PostgreSQL block; on a live connection it succeeds exactly on PostgreSQL or for an ended branch, and then an open one is prepared; the prepared flag follows the answer |
| XaParticipant.Participant.XaCommit | ecat-data-2pc/src/xa.rs:115-132 | is a COMMIT the protocol allows; the pin goes with every attempt, so a broken connection costs one try, and pins and branches still agree afterwards if and only if the branch is not left open |
| XaParticipant.Participant.XaRollback | ecat-data-2pc/src/xa.rs:134-151 | is a ROLLBACK the protocol allows; the pin goes with every attempt; a branch is left open, and without its pin, only by MySQL refusing an active one, which a live connection then does |
| XaParticipant.Participant.EndAndRollback | ecat-data-2pc/src/coordinator.rs:184-187 | END with its answer ignored, then ROLLBACK: in either dialect nothing open is left, and success leaves nothing at all |
| XaParticipant.Participant.RunStatement | ecat-data-2pc/src/xa.rs:185-191 | a statement fails without a pin; on a live connection it succeeds unless it is rejected or the block has failed, and changes no branch; a failing one on PostgreSQL that leaves the branch open makes the next PREPARE hollow |
| XaParticipant.Participant.XaRecover | ecat-data-2pc/src/xa.rs:153-183 | the answer is exactly the set of prepared transactions |
| XaParticipant.HollowPrepareSplits | ecat-data-2pc/src/xa.rs:100-132 | a trace of `begin` and `commit` up to the last PREPARE, the answer PostgreSQL gives to it in a failed block, and the protocol steps that follow: a committed row, one branch committed and the other rolled back |
| XaParticipant.SqlxRolledBackIsComplete | ecat-data-2pc/src/coordinator.rs:157-177 | with these participants, of either dialect, a rolled-back row means that no branch has work left, although the ignored cleanup may fail |
| BreakerTheorems.ExhaustedMeansProbesInFlight | ecat-circuit-breaker/src/breaker.rs:145-173 | in every run a call is refused for lack of permits only while at least `half_open_probes` calls of the present half-open period are in flight, whatever stale permits came back |
| BreakerTheorems.ProbesInFlightAreExact | ecat-circuit-breaker/src/breaker.rs:277-305 | in every half-open state of every run the probes in flight are exactly the permits counted as taken plus the places freed by permits of earlier periods and not made up for |
| BreakerTheorems.ProbesCanExceedBy | ecat-circuit-breaker/src/breaker.rs:291-305 | with any positive limit, any number of probes of one half-open period can be in flight beyond it |
| BreakerTheorems.ProbeLimitHoldsIff | ecat-circuit-breaker/src/breaker.rs:161-170 | for every configuration the limit on probes in flight holds in every reachable half-open state if and only if it is zero or the breaker can never open |
| BreakerTheorems.NeverWedgesIffProbes | ecat-circuit-breaker/src/tower.rs:47-50 | for every configuration: no reachable half-open state without probes in flight refuses the next call, if and only if at least one probe is configured or the breaker can never open |
| BreakerTheorems.WedgeIsForever | ecat-circuit-breaker/src/breaker.rs:145-173 | without a probe, from a half-open state with no call in flight, every event of every continuation is a refused call and nothing but the clock ever changes |
| BreakerTheorems.CanCloseIff | ecat-circuit-breaker/src/breaker.rs:148-214 | a reachable half-open breaker can still close if and only if a probe is configured or some call is in flight |
| BreakerTheorems.UntrippableStaysClosed | ecat-circuit-breaker/src/breaker.rs:194-214 | an empty window or a threshold above one keeps the breaker closed in every run |
| BreakerTheorems.NothingAdmittedWhileCooling | ecat-circuit-breaker/src/breaker.rs:148-160 | from an opening until `open_duration` has passed every call is refused as open and the state does not change |
| BreakerTheorems.AdmissionIff | ecat-circuit-breaker/src/breaker.rs:145-173 | exactly who is let in, in every state of every run: everybody while closed; from the end of the cooldown after the last opening while open; below the limit, places freed by earlier permits included, while half-open |
| BreakerTheorems.CooldownEnds | ecat-circuit-breaker/src/breaker.rs:148-159 | the call that ends the cooldown opens a half-open period without permits taken |
| BreakerTheorems.FinishDecides | ecat-circuit-breaker/src/breaker.rs:207-225 | in the half-open state the transport result of the first call to finish closes the breaker with a fresh window or opens it again; in the open state a late finish changes only the window |
| BreakerTheorems.OpeningsAreRare | ecat-circuit-breaker/src/breaker.rs:194-223 | in any stretch of length L the breaker opens N times with (N - 1) * open_duration at most L |
| BreakerTheorems.BooksBalance | ecat-circuit-breaker/src/breaker.rs:243-262 | the open instant is absent exactly when closed; openings minus half-open periods is 1 if open and 0 otherwise; `state()` reports the state a call at that instant would meet, so open exactly when it would be refused as open |
| BreakerTheorems.TripNeedsFreshOutcomes | ecat-circuit-breaker/src/breaker.rs:178-214 | a trip needs five outcomes recorded since the breaker last closed |
| BreakerTheorems.TripDoesNotRotate | ecat-circuit-breaker/src/window.rs:30-49 | for a positive threshold the two reads of a tripping call see one and the same window |
| BreakerTheorems.TripIsJustified | ecat-circuit-breaker/src/breaker.rs:178-214 | for a positive threshold a trip is backed by the window in force: all outcomes since it began, at least five, none older than the last close, all within one window length, with a failure share at or above the threshold |
| BreakerTheorems.TripsIff | ecat-circuit-breaker/src/breaker.rs:194-206 | a closed breaker opens at a finishing call if and only if its window is still in force at the deciding reading, at least five outcomes have come in since the window began, this one included, and their failure share reaches the threshold |
| BreakerTheorems.YoungWindowKeeps | ecat-circuit-breaker/src/window.rs:43-49 | a window younger than its length keeps its outcomes, and entering or cancelling a call never touches it |
| BreakerTheorems.OldWindowGoes | ecat-circuit-breaker/src/window.rs:43-49 | a window that has reached its length loses all its outcomes at the next one |
| BreakerTheorems.ImpossibleThresholdNeverTrips | ecat-data-hadoop/src/lib.rs:62-63 | a threshold above one keeps the breaker closed in every run |
| BreakerRuns.EventKeepsInv | ecat-circuit-breaker/src/breaker.rs:145-231 | entering, finishing and cancelling calls in any order keeps the accounts, the permit count and the agreement of the window with the log of outcomes |
| BreakerRuns.InvThroughout | ecat-circuit-breaker/src/breaker.rs:145-231 | that invariant holds in every state of every run |
| BreakerRuns.FinishCounts | ecat-circuit-breaker/src/window.rs:21-56 | through every read of a finishing call the window counts exactly the outcomes recorded since its last rotation or clear |
| CircuitBreaker.SlidingWindow.Record | ecat-circuit-breaker/src/window.rs:21-28 | rotates if due, then counts one outcome |
| CircuitBreaker.SlidingWindow.ReadTotal | ecat-circuit-breaker/src/window.rs:30-33 | the number of outcomes after a due rotation |
| CircuitBreaker.SlidingWindow.ReadRatio | ecat-circuit-breaker/src/window.rs:35-41 | the failure share after a due rotation, zero for an empty window |
| CircuitBreaker.SlidingWindow.Rotate | ecat-circuit-breaker/src/window.rs:43-49 | empties the window once its length has passed |
| CircuitBreaker.SlidingWindow.Clear | ecat-circuit-breaker/src/window.rs:52-56 | empties the window now |
| CircuitBreaker.Breaker.Enter | ecat-circuit-breaker/src/breaker.rs:145-173 | the first locked section, against the transition function the run theorems are about |
| CircuitBreaker.Breaker.Finish | ecat-circuit-breaker/src/breaker.rs:175-231 | the second locked section, against the same transition function |
| CircuitBreaker.Breaker.ReturnPermit | ecat-circuit-breaker/src/breaker.rs:291-305 | returning an armed permit takes one from the count, but not below zero |
| CircuitBreaker.Breaker.ReadState | ecat-circuit-breaker/src/breaker.rs:243-253 | the reported state, without changing anything |
| CqlDecimal.SignedToDecimal | ecat-data-cassandra/src/convert.rs:132-173 | for every byte string the canonical decimal numeral of its two's-complement big-endian value |
| CqlDecimal.ComplementValue | ecat-data-cassandra/src/convert.rs:139-141 | complementing the bytes gives 256^n - 1 minus the value |
| CqlDecimal.Increment | ecat-data-cassandra/src/convert.rs:142-147 | adds one with carry from the last byte, the lost carry accounted for |
| CqlDecimal.DivideByTen | ecat-data-cassandra/src/convert.rs:153-158 | divides the number in place by ten and returns the remainder |
| CqlDecimal.DigitsOf | ecat-data-cassandra/src/convert.rs:150-163 | repeated division yields exactly the digits of the value and ends because the magnitude shrinks |
| DecimalText.PrintNatIsCanonical | ecat-data-cassandra/src/convert.rs:165-172 | a printed number has no leading zero and reads back |
| DecimalFormat.FormatDecimalBytes | ecat-data-cassandra/src/convert.rs:175-200 | formats the value of the bytes with its scale |
| DecimalFormat.DecimalReadsBack | ecat-data-cassandra/src/convert.rs:175-200 | an independent reader gets back the value with exactly `scale` fractional digits when the scale is positive, the whole number when it is negative, and the exponent form beyond 1000 |
| DecimalFormat.DecimalIsExact | ecat-data-cassandra/src/convert.rs:175-200 | for every byte string and every scale the text denotes value * 10^(-scale) |
| DecimalFormat.DecimalForm | ecat-data-cassandra/src/convert.rs:184-199 | the text has an exponent exactly for a scale beyond 1000 either way, and otherwise a point exactly for a positive scale, with that many digits behind it |
| DecimalFormat.DecimalIsInjective | ecat-data-cassandra/src/convert.rs:175-200 | different values of one scale print differently |
| DecimalFormat.LeadingZerosOnlyForScaledZero | ecat-data-cassandra/src/convert.rs:175-200 | for every value and scale the leading digits have no superfluous zero, if and only if the value is not zero with a negative scale that is spelled out |
| CivilCalendar.CivilIsRight | ecat-data-cassandra/src/convert.rs:233-253 | every day number gets a date valid under the leap rule, and counting the days up to that date gives the number back |
| CivilCalendar.CivilIsBijective | ecat-data-cassandra/src/convert.rs:233-253 | every valid date is the date of its day number |
| CivilCalendar.CivilFollowsTheCalendar | ecat-data-cassandra/src/convert.rs:233-253 | day 0 is 1 January 1970 and the next day number is the next calendar day, before the epoch too |
| CivilCalendar.DayNumbersAreUnique | ecat-data-cassandra/src/convert.rs:233-253 | two valid dates with one day number are equal |
| CivilCalendar.YearOfEraIsRight | ecat-data-cassandra/src/convert.rs:236-239 | the year formula finds the year whose days contain the day of the era |
| TimestampText.FieldsAreExact | ecat-data-cassandra/src/convert.rs:218-230 | every instant, negative ones too, gets fields in range that recombine to exactly the input milliseconds |
| TimestampText.TimestampReadsBack | ecat-data-cassandra/src/convert.rs:218-230 | the printed timestamp reads back as the instant, so printing is injective |
| TimestampText.TimestampFormIff | ecat-data-cassandra/src/convert.rs:218-230 | the text is a date-time of section 5.6 of RFC 3339 if and only if the year is between 0 and 9999 |
| TimestampText.FractionIff | ecat-data-cassandra/src/convert.rs:218-230 | a fraction is printed exactly for an instant between two seconds |
| TimestampText.DateReadsBack | ecat-data-cassandra/src/convert.rs:202-205 | the printed date reads back as the calendar date of the day number less 2^31 |
| TimestampText.DateFormIff | ecat-data-cassandra/src/convert.rs:202-205 | the text is a full-date of section 5.6 of RFC 3339 if and only if the year is between 0 and 9999 |
| MssqlPool.PoolIsClean | ecat-data-mssql/src/pool.rs:197-227 | if begin opens a transaction and returns success or opens none, then in every interleaving an open transaction is noted and no statement runs inside another borrower's transaction |
| MssqlPool.RecycleCleansIff | ecat-data-mssql/src/pool.rs:197-227 | a connection that passes `recycle` is free of transactions if and only if there was none, it was noted, or the probe was due |
| MssqlPool.RecycleDiscardsIff | ecat-data-mssql/src/pool.rs:197-227 | a connection is discarded if and only if a rollback or probe that was called for did not run |
| MssqlPool.NextBorrowerGets | ecat-data-mssql/src/pool.rs:103-227 | a connection idle for at least the threshold, or with a noted transaction, is clean if it is kept; any other is handed out untouched |
| MssqlPool.FinishedCleanlyIff | ecat-data-mssql/src/client.rs:274-337 | a transaction leaves nothing to clean if and only if its end succeeded; otherwise it stays noted |
| MssqlPool.CleanWhateverHappensIff | ecat-data-mssql/src/pool.rs:103-123 | without the assumption on begin every run is clean if and only if the idle threshold is zero |
| MssqlPool.Session.Recycle | ecat-data-mssql/src/pool.rs:197-227 | passes or discards the connection as the recycling function says |
| MssqlPool.Session.RollbackIfOpen | ecat-data-mssql/src/pool.rs:112-123 | success means that no transaction is open |
| MssqlPool.Session.Begin | ecat-data-mssql/src/client.rs:342-353 | an accepted begin is noted together with its owner |
| MssqlPool.Session.Finish | ecat-data-mssql/src/client.rs:274-337 | only a successful commit or rollback clears the note |
| IntrospectCache.FilterKeepsOnlyWhitelisted | ecat-auth/src/oauth2.rs:56-66 | filtering keeps the structured claims, keeps exactly the whitelisted extras with their values, and is idempotent |
| IntrospectCache.StoreKeepsConsistent | ecat-auth/src/oauth2.rs:300-326 | every write keeps the queue free of duplicates and equal to the key set, and the size within the capacity |
| IntrospectCache.RunIsConsistent | ecat-auth/src/oauth2.rs:132-326 | so does every sequence of writes |
| IntrospectCache.PurgeKeepsHits | ecat-auth/src/oauth2.rs:46-50 | purging changes no later lookup |
| IntrospectCache.ScansOnlyWhenNearlyFull | ecat-auth/src/oauth2.rs:302-307 | a write drops exactly the expired entries once the cache is at nine tenths of its capacity and not empty, and nothing before |
| IntrospectCache.StoreKeepsOtherHits | ecat-auth/src/oauth2.rs:300-326 | a write answers its own key for its time to live and leaves every other lookup as it was, except that of the key it evicts |
| IntrospectCache.EvictionOnlyWhenAllFresh | ecat-auth/src/oauth2.rs:300-326 | when a write evicts, the cache holds a full capacity of entries that have not expired |
| IntrospectCache.EvictionIsFirstIn | ecat-auth/src/oauth2.rs:300-326 | in every sequence of writes the evicted key is the one that entered the queue earliest of those present |
| IntrospectCache.HitIsLatestAndFresh | ecat-auth/src/oauth2.rs:218-225 | in every sequence of writes a hit is the whitelisted claims of the latest write of that key, younger than the time to live |
| IntrospectCache.Introspection.PurgeExpired | ecat-auth/src/oauth2.rs:46-50 | drops the expired entries and their places in the queue |
| IntrospectCache.Introspection.Lookup | ecat-auth/src/oauth2.rs:218-225 | the read section: the stored claims if they have not expired |
| IntrospectCache.Introspection.Store | ecat-auth/src/oauth2.rs:300-326 | the write section: purge, evict and enqueue |
| PrefixScan.PrefixRangeIsExact | ecat-data-hbase/src/cellset.rs:16-26 | for all byte strings a key has the prefix if and only if it lies between the prefix and its end, or above the prefix when there is no end |
| PrefixScan.LessIff | ecat-data-hbase/src/cellset.rs:16-26 | the order of keys is that of the first differing byte, the shorter first |
| PrefixScan.ComputePrefixEnd | ecat-data-hbase/src/cellset.rs:16-26 | the pop-and-increment loop computes that end |
| PrefixScan.EtcdPrefixEnd | ecat-config-remote/src/etcd.rs:134-145 | the second form gives the same end, and the sentinel `[0]` exactly when there is none |
| PrefixScan.EndIsNotSentinel | ecat-config-remote/src/etcd.rs:134-145 | no prefix has the sentinel as its proper end |
| PrefixScan.CollectScanner | ecat-data-hbase/src/lib.rs:269-305 | at most `limit` pages are fetched whatever the gateway answers, and the rows are the received ones cut at the limit |
| PrefixScan.RangeSelectsPrefix | ecat-data-hbase/src/lib.rs:417-433 | the requested range of a table is exactly its rows with the prefix |
| PrefixScan.Scan | ecat-data-hbase/src/lib.rs:417-433 | whatever the gateway answers, at most `limit` pages are fetched and the rows are the received ones cut at the limit, an error stemming from a failed page; against a gateway that serves the range in pages they are exactly the first `limit` rows with the prefix, 1000 when no limit is given |
| HdfsPath.PercentEncodeSegment | ecat-data-hadoop/src/path.rs:17-28 | the byte loop computes the percent-encoding the next rows are about |
| HdfsPath.DecodeEncode | ecat-data-hadoop/src/path.rs:17-28 | percent-decoding undoes it, for every byte string |
| HdfsPath.EncodedIsSafe | ecat-data-hadoop/src/path.rs:17-28 | only letters, digits, `-`, `.`, `_`, `~` and percent signs come out |
| HdfsPath.UnreservedIsKept | ecat-data-hadoop/src/path.rs:17-28 | a segment of unreserved characters (section 2.3 of RFC 3986) is its own encoding |
| HdfsPath.OtherIsEscaped | ecat-data-hadoop/src/path.rs:17-28 | every other byte, wherever it stands, becomes a percent sign and its two upper-case hexadecimal digits |
| HdfsPath.EncodedIsProper | ecat-data-hadoop/src/path.rs:17-28 | a dot segment comes out only if one went in |
| HdfsPath.ValidateKey | ecat-data-hadoop/src/path.rs:46-58 | passes exactly the keys all of whose segments are proper child names |
| HdfsPath.ChildNameIff | ecat-data-hadoop/src/path.rs:76-80 | a name is accepted if and only if it is one non-empty segment without a backslash that dot-segment removal leaves alone |
| HdfsPath.PathExistsIff | ecat-data-hadoop/src/lib.rs:258-266 | a bucket and key have a path if and only if the bucket and every segment of the key are such names |
| HdfsPath.PathSegments | ecat-data-hadoop/src/lib.rs:258-266 | the object path splits into the encoded bucket and the encoded segments of the key |
| HdfsPath.PathReadsBack | ecat-data-hadoop/src/lib.rs:258-266 | splitting and decoding it gives bucket and segments back |
| HdfsPath.PathIsInjective | ecat-data-hadoop/src/lib.rs:258-266 | different bucket and key pairs have different paths |
| HdfsPath.PathIsNormalised | ecat-data-hadoop/src/lib.rs:258-266 | it is a fixed point of dot-segment removal (section 5.2.4 of RFC 3986) |
| HdfsTree.FilesAreExact | ecat-data-hadoop/src/lib.rs:396-461 | in a well-formed tree a key is wanted once if its segments lead to a file and it has the prefix, and not at all otherwise |
| HdfsList.SizeIsConserved | ecat-data-hadoop/src/lib.rs:427-456 | replacing a directory in the worklist by its subdirectories accounts for exactly its own entries |
| HdfsList.FilesAreConserved | ecat-data-hadoop/src/lib.rs:427-456 | and for exactly its own wanted files |
| HdfsList.RequestsStayInside | ecat-data-hadoop/src/lib.rs:404-410 | a request for a directory goes to its object path, that for the root to the bucket; it lies at or below the bucket, also after dot-segment removal, and holds only characters that stand for themselves in a URL path |
| HdfsList.ValidatePrefix | ecat-data-hadoop/src/path.rs:62-74 | the loop accepts exactly the prefixes the next row is about |
| HdfsList.PrefixOfKeyIff | ecat-data-hadoop/src/path.rs:60-74 | every beginning of a valid key is accepted, the empty one and one that ends in a slash included, except exactly those whose last segment is one or two dots |
| HdfsList.Absorb | ecat-data-hadoop/src/lib.rs:427-456 | one answer: the limit is checked before the name, directories are pushed and wanted files returned |
| HdfsList.List | ecat-data-hadoop/src/lib.rs:396-461 | at most 10,001 requests and none outside the bucket whatever the server answers; a complete walk visits the root and each reported directory as often as reported and returns each reported file with the prefix; the first answer that is an error, goes over the limit or holds an invalid name ends it; on a server holding a well-formed tree each wanted file is returned exactly once, or the call fails exactly when the tree has more than 10,000 entries |
| LineProtocol.EscapeLinePart | ecat-data-influxdb/src/lib.rs:174-186 | the character loop computes the escaping the reader undoes |
| LineProtocol.EscapeFieldString | ecat-data-influxdb/src/lib.rs:191-203 | the same for quoted values |
| LineProtocol.Write | ecat-data-influxdb/src/lib.rs:207-246 | the text sent is a function of the points alone, whatever order their hash maps are iterated in |
| SortedItems.CollectIsListing | ecat-data-influxdb/src/lib.rs:211-226 | collecting a map in any iteration order gives its one sorted listing |
| SortedItems.LessIff | ecat-data-influxdb/src/lib.rs:210-226 | the order of tags and fields is that of the first differing code point, the shorter first |
| LineReader.RoundTripIff | ecat-data-influxdb/src/lib.rs:207-246 | an escape- and quote-aware reader gets back every measurement, tag, typed field and timestamp of a batch if and only if every point has a field, no unquoted part is empty or holds a newline, no measurement starts with `#` and no number is infinite |
| LineReader.PrintIsInjective | ecat-data-influxdb/src/lib.rs:207-246 | different batches of such points are sent as different texts |
| LineReader.NewlineBreaksTheLine | ecat-data-influxdb/src/lib.rs:174-186 | a concrete point with a newline in its measurement does not read back |
| LineReader.HashMakesAComment | ecat-data-influxdb/src/lib.rs:174-186 | every point whose measurement starts with `#` is printed as a line that starts with `#` and does not read back |
| LineReader.CommentIsLost | ecat-data-influxdb/src/lib.rs:174-186 | such a line is lost without an error |

## Left out

- Two-phase commit: SQL text, dialect placeholders, UUID generation, the JSON participant list, timestamps and the order of rows in the log table; a row is updated atomically and a transaction id is never reused.
- Two-phase commit: the recovery fence lock, schema creation, and the identity of the participant passed to `begin` (only its name is compared). Recovery runs only while no transaction is live, as the code asks of its caller.
- Two-phase commit: heuristic outcomes, by which a server or an operator resolves a prepared branch on its own.
- Two-phase commit: a call whose future was dropped takes effect before the next step of its transaction or not at all; effects that arrive later still are not modelled.
- XaParticipant.Participant.XaStart: does not take an unpinned id that is prepared on PostgreSQL, because the model has one branch per id and PostgreSQL would start a second transaction beside the prepared one; ids are UUIDs. Two concurrent calls for one id, and the rollback of the loser, are not modelled.
- XaParticipant: a statement that fails with its effect on a live connection, cancellation inside a command, the decoding of MySQL xids and the matching of error texts; `xa_recover` is exact because the pool is pinned to one server.
- CircuitBreaker: rounding of the failure ratio as a float; metrics and tracing.
- TimestampText: `format_time`, and i64 overflow of the calendar arithmetic near the ends of its range.
- MssqlPool: the pool's own queueing and the driver; one connection is followed through its borrowers.
- IntrospectCache: one clock reading per locked section instead of one per entry; the HTTP exchange, SHA-256 keys (taken as injective) and the JWT and API-key layers.
- PrefixScan: base64 and JSON of the gateway protocol and the deletion of scanners.
- HdfsList: transport, HTTP status and JSON errors are one failing answer; the query string and the time limit of a call.
- LineProtocol: floats are the text that printing them gives; the HTTP exchange; what the server does with a backslash it would not itself require to be escaped.
- Everything else in the repository: HTTP and TLS clients, tower and axum wiring, configuration loaders, metrics, health probes, balancers, sharding, saga, tiering and ORM code, command-line tools. These would add only easy members or depend on code outside the crates modelled here.
