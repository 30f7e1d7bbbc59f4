# Verified model of an intrusion-detection event store

A Dafny model of the parts of the system that carry state and promise something over time. Each
module keeps one component: functions on explicit tables say what an operation means, classes and
methods with the source's own loops are proved against those functions, and lemmas prove what the
system promises over whole runs.

* **Audit chain** (`RowFingerprint`, `AuditChain`, `AuditAnchor`, `AuditHistory`, `AuditTheorems`,
  `AuditReport`, `AuditEvidence`, `AuditLog`): append, seal, purge and verify over `audit_events`,
  `audit_checkpoints` and `audit_retention_hashes`. Honest stores always verify; a store that
  verifies is pinned by its hash, and accounts for every row a run appended; and for any store each
  counter and finding of the report is exact.
* **Authentication** (`AuthStore`, `AuthProtocol`, `AuthSingleUse`, `AuthLedger`, `AuthRevocation`,
  `AuthBackoff`, `AuthGuessBound`, `AuthCooldown`, `AuthRetention`, `AuthOverlap`, `AuthRuns`,
  `AuthLimits`, `AuthSuccessBound`, `AuthIsolation`, `AuthTables`): calls as phases of any number of
  interleaving callers with enrollment, revocation, retention and a clock that never runs back.
  `AuthLimits`, `AuthRetention` and `AuthOverlap` hold runs that show where the guarantees stop, and
  exact conditions for them.
* **Packet windows** (`DistinctWindow`, `ArpChanges`), **login limiter** (`LoginRateLimiter`) and
  **deduplicator** (`EventDeduplicator`): incremental state against a scan of the whole history.
* **Correlation** (`WindowRules`, `WindowRuleProofs`, `ChainRules`, `ChainProofs`, `DedupeKeys`,
  `CorrelationSweep`, `SweepExact`, `SweepProofs`, `SweepLimits`): seven exact rules and an idempotent
  sweep.
* **Edit distance** (`EditDistance`) and **file integrity** (`FileIntegrity`).
* `Sequences`, `StableSort` and `Decimals` hold the facts the other modules share.

Verify everything with `dafny verify dfyconfig.toml`.

## Conventions

* A SQLite table is a sequence in primary-key order, or a map; a committed transaction is one step.
* SHA-256 and scrypt are free terms: a digest is the term built from its input, so collisions are
  excluded and nothing else is assumed. A store that did not come from honest operations may hold
  `Foreign` texts that are no digest at all.
* Audit timestamps are integers counting ticks of 2^-22 s, and their decimal text stands for the
  `repr` of the float; only its injectivity and freedom from separators are used. Other clocks are
  real numbers, and SQLite DATETIME columns are whole seconds.
* TOTP digits are an arbitrary function of seed and step, so distinct steps may share digits.
* Environment variables are constructor or `Settings` parameters.

## Where the code differs from what is written about it

* logs/integrity.py:34 expects that the separator never occurs in audit text; nothing enforces it,
  and `FingerprintPinsRow` shows that a row is pinned exactly when it does not occur.
* logs/schema.sql:18-20 describes a segment as `(from_id, through_id]`; the code and the column
  comments include `from_id`, and so does the model.
* auth/README.md:87 says that "any future authentication attempts by a revoked user will fail
  immediately", which attempts that begin later do. One in flight need not: `use_recovery_code` reads
  `is_active` only once, before its backoff. `RevokedSucceedsExactly` says which calls can succeed.
* The backoff delay is not enforced when a failure is recorded: a call that counted before another
  failure was recorded can record its own at once (`OverlappingCallsSkipBackoff`), so the delays hold
  exactly when at most one call of a user is in flight (`OverlapExactly`).
* The backoff window can be configured longer than retention keeps attempts, and then delays are cut
  short (`RetentionExactly`).
* detection/correlation.py:106 joins entities with a bar, so candidates about different entities can
  share a key; `KeyIdentifiesExactly` says for which candidates, and `LostIncident` is a sweep that
  loses an incident this way.
* Nothing in auth/core.py limits the wait between the clock reading and the transaction. Single use
  needs that wait to be at most 86370 s, one day less one time step, because retention keeps a day.
* network/detectors/arp_detector.py reports changes "within window", yet can miss the oldest of them.

## Model

| member | source | states |
|---|---|---|
| `RowFingerprint.RawPrefix` | logs/integrity.py:51-63 | Two rows with one preimage have the same id, the same timestamp and the same joined text columns, whatever the text holds. |
| `RowFingerprint.FingerprintInjective` | logs/integrity.py:51-63 | A separator-free row shares its fingerprint with no other row at all, up to a NULL context and an empty one. |
| `RowFingerprint.SharedFingerprint` | logs/integrity.py:34 | Every row with a separator inside a text column has a different row with the same fingerprint. |
| `RowFingerprint.FingerprintPinsRow` | logs/integrity.py:51-63 | A fingerprint pins its row if and only if no text column contains the separator: the exact scope of the "won't appear in audit text" comment. |
| `AuditLog.AuditStore.Append` | logs/schema.sql:5-12 | An appended row gets an id above every id ever used by a live, retired or sealed row, and a valid store stays valid. |
| `AuditLog.AuditStore.Seal` | logs/integrity.py:98-141 | Sealing adds one checkpoint over exactly the live rows above the last seal, or changes nothing when there are none; a valid store stays valid, with those rows as its new segment. |
| `AuditLog.SealMeaning` | logs/integrity.py:107-132 | The new checkpoint starts and ends at the first and last live row above the last one, counts them, links to its chain hash and folds their fingerprints. |
| `AuditLog.AuditStore.PurgeOldEvents` | logs/maintenance.py:58-82 | After a purge a row is live if and only if it was live and is at most retention_days days old; the retired table gains exactly the fingerprints of the sealed rows that went; the report is the number of deleted rows. It changes nothing if and only if a row to retire has the id of a stored fingerprint, which never happens to a valid store, or the horizon is below one day. |
| `AuditLog.PurgeMeaning` | logs/maintenance.py:62-82 | The same about the transaction on the tables, with the horizon in clock ticks; a conflict is a row to retire whose id is already retired. |
| `AuditLog.AuditStore.Retire` | logs/maintenance.py:65-82 | The audit half of the purge transaction: with a key conflict nothing changes. |
| `AuditLog.AuditStore.VerifySegment` | logs/integrity.py:178-214 | One checkpoint is judged by the fold over its surviving rows and retired fingerprints merged by id; an intact one is aged out when no row is left, else verified. |
| `AuditLog.AuditStore.VerifyAuditLog` | logs/integrity.py:144-224 | For any store, tampered or not, the checker counts as verified the intact checkpoints with a live row, as aged out those with none, as partial those with a retired fingerprint too, and reports each finding exactly when its test fails, in order; a valid store passes with no finding. |
| `AuditLog.FoldEntries` | logs/integrity.py:190-192 | The inner loop is the fold of all fingerprints in order. |
| `AuditLog.FoldRows` | logs/integrity.py:120-122 | The sealing loop is the fold of the fingerprints of the new rows. |
| `AuditAnchor.CheckedMeaning` | logs/integrity.py:167-214 | The accumulated result is clean if and only if every checkpoint so far has an unbroken seed, the sealed count, distinct ids and the sealed hash; then verified + aged_out counts them all. |
| `AuditAnchor.VerifyMeaning` | logs/integrity.py:144-224 | ok holds if and only if every checkpoint holds, if and only if there is no failure; partial <= verified. |
| `AuditReport.VerifyCounts` | logs/integrity.py:209-214 | In any store verified, aged_out and partial count the intact checkpoints with a live row in range, with none, and with both a live row and a retired fingerprint. |
| `AuditReport.PassingCounts` | logs/integrity.py:209-214 | In a store that passes, every checkpoint is counted by those three conditions alone. |
| `AuditReport.VerifyFindings` | logs/integrity.py:167-208 | A seed, count or hash finding names a checkpoint exactly when that test fails for it, each once and in checkpoint order; a hash is judged only when the count holds. |
| `AuditReport.VerifyTotals` | logs/integrity.py:156-222 | checkpoints_total, last_chain_hash and unsealed_events are the number of checkpoints, the chain hash of the last one and, with rows in id order, the number of live rows behind it. |
| `AuditAnchor.FoldInjective` | logs/integrity.py:66-67 | Two folds from one seed agree if and only if they folded the same fingerprints in the same order. |
| `AuditAnchor.ChainIsFold` | logs/integrity.py:167-192 | In a store that verifies, the last chain hash is one fold from GENESIS over all segments, however they are cut. |
| `AuditAnchor.AnchorDeterminesFingerprints` | logs/integrity.py:167-217 | Two stores that both verify and report one last_chain_hash hold the same fingerprint sequence over all checkpoints. |
| `AuditHistory.SegmentIsSealed` | logs/integrity.py:178-192 | Live rows and retired fingerprints are disjoint and together rebuild exactly the segment of a checkpoint. |
| `AuditHistory.HonestAppend` | logs/schema.sql:5-12 | Appending keeps the invariant of honest stores. |
| `AuditHistory.HonestSeal` | logs/integrity.py:98-132 | Sealing keeps the invariant, and the new segment is the list of rows that were live above the last seal. |
| `AuditHistory.HonestPurge` | logs/maintenance.py:68-82 | A purge with any horizon keeps the invariant and never hits a key conflict, so no sealed row is lost. |
| `AuditHistory.HonestRun` | logs/maintenance.py:48-112 | Every run of append, seal and purge from an empty store satisfies the invariant, with the rows each seal found as its segments. |
| `AuditTheorems.HonestRunVerifies` | logs/integrity.py:98-224 | Every such run verifies with no failure: the rows each seal covered are partitioned into survivors and retired fingerprints, verified + aged_out = checkpoints_total, unsealed_events is the number of live rows above the last seal. |
| `AuditTheorems.VerifyIffIntact` | logs/integrity.py:188-208 | With its checkpoints unchanged, an arbitrarily altered store passes if and only if every segment carries the sealed fingerprints in order under distinct ids. |
| `AuditTheorems.SurvivorUnmodified` | logs/integrity.py:188-208 | In a store that passes, a live row in a sealed range has the fingerprint of the sealed row of that id, and equals it when either is separator-free. |
| `AuditTheorems.MissingRowRetained` | logs/integrity.py:183-189 | In a store that passes, a sealed row is still live or its fingerprint is retained inside its segment. |
| `AuditEvidence.OwnIdsExactly` | logs/integrity.py:183-208 | Every passing store accounts for each row of a segment under its own id, live or retired, if and only if the segment has no gap in its ids. |
| `AuditEvidence.RowsAreAppended` | logs/integrity.py:107-132 | Every live row and every sealed row of a run is one it appended, unchanged, whatever was purged. |
| `AuditEvidence.SegmentsAreSlices` | logs/integrity.py:107-132 | When purges spare unsealed rows, checkpoints cut the appended rows into consecutive slices without gaps. |
| `AuditEvidence.RunEvidence` | logs/integrity.py:144-224 | After such a run, an altered store with its checkpoints passes if and only if each appended row up to the last seal is held exactly once: live with its fingerprint, or retained under its id. |
| `AuditEvidence.SurvivorIsAppended` | logs/integrity.py:188-208 | After any run, a live row in a sealed range of a passing store has the fingerprint of the appended row of its id, and equals it when either is separator-free. |
| `AuditTheorems.SealIdempotent` | logs/integrity.py:107-118 | Sealing again with nothing new changes nothing. |
| `AuditTheorems.ChainIsHistoryFold` | logs/integrity.py:107-132 | After any run that purges only sealed rows, the chain once sealed is the fold of every row ever appended. |
| `AuditTheorems.SplitInvariance` | logs/integrity.py:107-132 | Two runs that append the same rows end in one chain hash however seals are batched and whatever sealed rows are purged between them. |
| `AuditTheorems.AnchorPinsHistory` | logs/integrity.py:13-17 | A hash exported after sealing pins the history: any store that later verifies with it carries the fingerprints of exactly the rows appended. |
| `AuthStore.UserNamed` | auth/core.py:291-296 | Finds a row of that user name, and nothing only when no row has it. |
| `AuthStore.MatchStep` | auth/core.py:310-320 | Returns the current step if its digits equal the token, else the previous, else the next one, and nothing only when no non-negative step of the window matches. |
| `AuthStore.MatchCode` | auth/core.py:452-462 | Returns the id of a row of this user with this code, and nothing only when the user has none. |
| `AuthStore.MatchesFirst` | auth/core.py:457-462 | The id is that of the first row of this user with this code. |
| `AuthStore.AuthDatabase.EnrollUser` | auth/core.py:232-260 | One user row and one row per issued code with fresh ids, or no change for a name already taken. |
| `AuthStore.AuthDatabase.RevokeUser` | auth/core.py:521-549 | Only the named user becomes inactive; reports whether that user was active. |
| `AuthStore.AuthDatabase.CalculateBackoffDelay` | auth/core.py:162-180 | The delay is min(base * 2^n, max) for n failures inside the window, and 0 for none. |
| `AuthStore.AuthDatabase.VerifyTransaction` | auth/core.py:333-383 | Consumption and attempt commit together or not at all, under a re-read of is_active; the attempt tells user, second, outcome, token and step. |
| `AuthStore.AuthDatabase.ScanRecoveryCodes` | auth/core.py:457-462 | The scan finds the first matching row of the user. |
| `AuthStore.AuthDatabase.ConsumeRecoveryCode` | auth/core.py:464-518 | Deleting the row and recording the attempt commit together; a row already gone rolls both back. |
| `AuthStore.AuthDatabase.PurgeOldEvents` | logs/maintenance.py:91-102 | Removes old attempts, and a consumed step only when both its use and the step itself lie before the horizon. |
| `AuthTables.PurgeExactly` | logs/maintenance.py:91-102 | An attempt stays if and only if it is at most that many days old; a consumed step goes if and only if it was used and was over more than that many days ago; nothing else changes. |
| `AuthTables.AttemptsAreTrail` | auth/core.py:341-375 | After any run the attempts table tells exactly of the successes and recorded failures of the log since the last retention cutoff, each once and in order. |
| `AuthTables.NamesUnique` | auth/core.py:232-260 | In every run no two users have one name, so a name resolves to its only user. |
| `AuthIsolation.DecisionIsOwn` | auth/core.py:333-363 | Databases that agree on whether a user is active, on its attempts and on its consumed steps give the same verify decision for that user. |
| `AuthIsolation.OthersChangeNothing` | auth/core.py:226-549 | No verify, recovery, enrollment or revocation of another user changes the verify decision about this one. |
| `AuthIsolation.ConsumesOwnStep` | auth/core.py:364-375 | An accepted call consumes its own user and step, with the time its clock was read, and no other key. |
| `AuthIsolation.LegacyBlocksRepeat` | auth/core.py:341-351 | A success recorded without a step blocks the same token of the same user for the rest of its 90 s, and nothing else. |
| `AuthIsolation.AcceptedExactly` | auth/core.py:307-383 | In every run without long stalls a verify call succeeds if and only if its user is active, its token matched a step, and that same user has not succeeded with that step. |
| `AuthIsolation.BothSucceed` | auth/core.py:352-375 | At every time and for every step of its validation window, a run in which two users each succeed once with that step. |
| `AuthSingleUse.PurgedStepIsOld` | logs/maintenance.py:98-102 | Retention drops a consumed step only when it ended a whole day before the purge. |
| `AuthSingleUse.PromptStepIsRecent` | auth/core.py:307-320 | A step presented within 86370 s of the clock reading is too recent to have been purged. |
| `AuthSingleUse.AtMostOneSuccessPerStep` | auth/core.py:307-383 | Over every interleaving of calls and purges with stalls of at most 86370 s, a (user, step) succeeds at most once (RFC 6238, section 5.2). |
| `AuthSingleUse.InvalidNeverReserves` | auth/core.py:341-375 | An invalid code changes no later verify decision of any user, so invalid attempts cannot reserve a step. |
| `AuthSingleUse.RecoveryAttemptBlocksRepeat` | auth/core.py:430-450 | A recorded recovery attempt, valid or not, blocks the same code of that user for 90 s and blocks nothing else. |
| `AuthSingleUse.SuccessesBounded` | auth/core.py:311-320 | For clock readings in [t1, t2] a user gets at most floor(t2/30) - floor(t1/30) + 3 successes. |
| `AuthSuccessBound.SuccessBoundReached` | auth/core.py:311-320 | For all 30 <= t1 <= t2 some run has exactly that many. |
| `AuthSuccessBound.SuccessBoundExactly` | auth/core.py:311-320 | A number bounds those successes in every run without long stalls if and only if it is at least that. |
| `AuthLimits.StalledCallReusesStep` | auth/core.py:307-383 | For every stall longer than 86370 s there is a run within it that accepts one step twice. |
| `AuthLimits.SingleUseExactly` | auth/core.py:307-383 | Every run whose stalls are at most B uses each step once if and only if B <= 86370 s. |
| `AuthLedger.RunKeepsLedger` | auth/core.py:452-518 | Under any interleaving, code rows stay uniquely keyed, a spent row never reappears, and the ledger of every user balances. |
| `AuthLedger.RecoveryCodesConserved` | auth/core.py:244-250 | Each stored row pays for at most one success, and stored codes + recovery successes = codes issued, for every user. |
| `AuthRevocation.StaysRevoked` | auth/core.py:296-300 | At no step does a revoked user become active, begin a call or complete a verify call. |
| `AuthRevocation.RevocationIsFinal` | auth/core.py:336-340 | After a revocation commits no verify transaction of that user succeeds, and nothing succeeds at all unless a recovery call then in flight carries a stored code or has found a stored row. |
| `AuthRevocation.RevokedSucceedsExactly` | auth/core.py:395-477 | A revoked user can still succeed in some continuation if and only if such a recovery call is in flight at that moment. |
| `AuthRevocation.RedeemerCanFinish` | auth/core.py:422-486 | Such a call succeeds when it waits out the delay and 90 s and then goes on. |
| `AuthRevocation.RevokeTakesEffect` | auth/core.py:521-538 | Revoking an enrolled name takes effect at that step. |
| `AuthLimits.RevokedUserRedeemsCode` | auth/core.py:395-477 | A run in which a recovery call that had resolved the user succeeds after the revocation committed. |
| `AuthStore.DoubledIsPower` | auth/core.py:176-180 | The doubled delay of the specification is base * 2^n, as the code computes it. |
| `AuthBackoff.DelayMonotone` | auth/core.py:176-180 | Fewer counted failures never mean a longer wait. |
| `AuthBackoff.RejectionBounds` | auth/core.py:86-114 | No rejection at or after last failure + max delay, none without a counted failure; the returned wait is at least 1 s and reaches the end of the delay. |
| `AuthBackoff.DelayExactly` | auth/core.py:162-180 | With positive settings there is a delay if and only if a failure of the user lies inside the window, and it never exceeds the maximum. |
| `AuthBackoff.RejectsExactly` | auth/core.py:86-114 | In reject mode a call is rejected if and only if its delay after the last failure is still running, for the least number of whole seconds that ends it. |
| `AuthCooldown.CooldownNeverGrows` | auth/core.py:86-114 | Over any continuation in which no failure of the user is recorded, whatever rejections, other users, successes and retention do, neither the delay owed nor the last failure grows. |
| `AuthCooldown.RejectionRecordsNothing` | auth/core.py:90-114 | A rejection changes no table, so it and whatever follows it without a recorded failure extend no cooldown of any user. |
| `AuthCooldown.WaitSuffices` | auth/core.py:86-114 | A call that counts its failures the returned seconds after a rejection gets past the gate, if no failure of the user was recorded since the rejected call counted, whatever else happens in between. |
| `AuthBackoff.NeedShrinks` | auth/core.py:162-180 | A later clock or a retention purge never lengthens the wait owed, and never moves the last failure while a wait is still owed. |
| `AuthGuessBound.FailuresAreSpaced` | auth/core.py:86-99 | In reject mode, over TOTP and recovery together, once j failures fall in one window the next recorded one comes at least min(base * 2^j, max) s after the latest. |
| `AuthGuessBound.SerialCallsAreFresh` | auth/core.py:162-180 | Calls that do not overlap meet the condition under which failures are spaced. |
| `AuthRetention.RetentionExactly` | logs/maintenance.py:91-95 | When every purge keeps attempts for at least D days, failures are spaced for a backoff window W if and only if W <= 86400 D + 1 s. |
| `AuthGuessBound.FailuresPerWindow` | auth/core.py:162-180 | For any configuration, n + 1 recorded failures inside one window span at least the sum of the first n delays. |
| `AuthGuessBound.NinePerWindow` | auth/core.py:162-180 | With defaults 1/60/300, ten recorded failures of a user span at least 300 s. |
| `AuthOverlap.OverlappingCallsSkipBackoff` | auth/core.py:302-374 | A run of two overlapping calls that records two failures in one second, with a failure recorded between the second call's count and its own. |
| `AuthOverlap.OverlapExactly` | auth/core.py:86-114 | Every run in reject mode that retains the backoff window and has at most n calls of a user in flight keeps failures spaced if and only if n <= 1. |
| `EditDistance.Levenshtein` | detection/phishing.py:104-118 | The two-row loop returns the distance, early exits included. |
| `EditDistance.BestScript` | detection/phishing.py:104-118 | Some edit script between the words costs exactly the distance. |
| `EditDistance.NoCheaperScript` | detection/phishing.py:104-118 | No edit script between two words costs less than their distance. |
| `EditDistance.DistanceIsShortestPath` | detection/phishing.py:104-118 | The distance is the length of a shortest chain of single-character insertions, deletions and replacements at any positions in any order. |
| `EditDistance.Symmetric` | detection/phishing.py:104-118 | The distance is symmetric. |
| `EditDistance.Triangle` | detection/phishing.py:104-118 | The triangle inequality. |
| `EditDistance.Bounds` | detection/phishing.py:104-118 | The distance lies between the length difference and the longer length. |
| `EditDistance.Identity` | detection/phishing.py:104-118 | Distance 0 if and only if the words are equal. |
| `DistinctWindow.Detector.ProcessPacket` | network/detectors/syn_detector.py:25-75 | For in-order packets, alerts exactly when the distinct keys of that source since its last alert within the window exceed the threshold; the reported count is always the threshold + 1. |
| `DistinctWindow.Evict` | network/detectors/syn_detector.py:40-45 | The eviction loop keeps the counter equal to the multiset of the deque and leaves exactly the packets inside the window. |
| `DistinctWindow.EvictionIsSelection` | network/detectors/icmp_detector.py:42-46 | In time order, popping stale packets from the front selects exactly the fresh ones. |
| `DistinctWindow.ConsistentStep` | network/detectors/icmp_detector.py:48-74 | The reference-counted map is the multiset of its deque after every packet, so its size is the distinct count, at most threshold + 1. |
| `DistinctWindow.Refines` | network/detectors/syn_detector.py:37-52 | The evicted deque plus the packet equals a recount of the whole history since the last alert. |
| `DistinctWindow.ExactStep` | network/detectors/syn_detector.py:37-73 | A packet keeps every source's deque equal to the naive selection, reset included. |
| `ArpChanges.ArpDetector.ProcessPacket` | network/detectors/arp_detector.py:16-61 | Alerts exactly when the naive count of MAC changes inside the window exceeds the limit, by one more when one change is missed; reports the MAC addresses of the records held, max_changes + 1 genuine changes. |
| `ArpChanges.EvictOld` | network/detectors/arp_detector.py:27-29 | The eviction loop leaves the records from the oldest fresh one on. |
| `ArpChanges.Record` | network/detectors/arp_detector.py:31-38 | Recording a packet only after a different MAC keeps the list equal to the changes since its oldest record. |
| `ArpChanges.SeenAgainstNaive` | network/detectors/arp_detector.py:27-38 | The detector sees every change inside the window except one, missed if and only if the oldest record is itself a change from a packet still inside the window. |
| `ArpChanges.MissedChange` | network/detectors/arp_detector.py:27-38 | A run with one change inside 60 s, none allowed, and no alert. |
| `ArpChanges.RecordsFacts` | network/detectors/arp_detector.py:31-36 | Records start at the oldest packet held, neighbours differ in MAC, and there is one more than there are changes. |
| `ArpChanges.RecordsMember` | network/detectors/arp_detector.py:27-38 | The records are the oldest packet held and every later one that changes the MAC, and no other packet. |
| `LoginRateLimiter.Limiter.Check` | dashboard/security.py:33-49 | For a non-decreasing clock, the answer is that of a limiter that never cleans up; a cleanup happens exactly above 10000 entries and drops exactly those that began more than a window ago. |
| `LoginRateLimiter.AgreesStep` | dashboard/security.py:42-45 | Cleanup drops only entries whose window the full history would also treat as run out. |
| `LoginRateLimiter.LimitPerWindow` | dashboard/security.py:33-49 | Of the attempts an address makes in its current window, exactly the first max_attempts are allowed. |
| `LoginRateLimiter.BelowTwicePerInterval` | dashboard/security.py:33-49 | At most 2 * max_attempts - 1 are allowed in any half-open interval of one window. |
| `LoginRateLimiter.IntervalBoundIsSharp` | dashboard/security.py:33-49 | For every limit and window, a run that has 2 * max_attempts - 1 allowed within one window length. |
| `LoginRateLimiter.IntervalBoundExactly` | dashboard/security.py:33-49 | A number bounds the attempts allowed in every interval of one window if and only if it is at least 2 * max_attempts - 1. |
| `LoginRateLimiter.RetryAfterEndsBlock` | dashboard/security.py:46-49 | An address that stays away for retry_after seconds is allowed again, whatever others do; retry_after is at least 1. |
| `LoginRateLimiter.RetryAfterLeast` | dashboard/security.py:46-48 | retry_after is the least number of whole seconds that passes the end of the window. |
| `EventDeduplicator.Deduplicator.IsDuplicate` | detection/dedup.py:30-42 | Reports a duplicate only for a fingerprint admitted less than a window earlier. As long as every call finds fewer than max_entries fingerprints admitted within its window, nothing is halved and, for a clock that never runs back, every answer is that of an unbounded table. |
| `EventDeduplicator.Deduplicator.Evict` | detection/dedup.py:44-53 | Below max_entries nothing goes; else the entries older than the window go, and of max_entries or more fresh ones the older half: so a table is halved exactly when it holds that many, and never exceeds max_entries (>= 2). |
| `EventDeduplicator.HalvedExactly` | detection/dedup.py:44-53 | A halving needs max_entries fingerprints admitted within the window of its call; with a clock that never runs back, some halving has happened if and only if some call found that many. |
| `EventDeduplicator.RecentAreFresh` | detection/dedup.py:46-50 | A table that forgot nothing still holds every fingerprint admitted within the window. |
| `EventDeduplicator.HalvingKeepsNewest` | detection/dedup.py:50-53 | Halving drops n / 2 entries, none newer than one it keeps. |
| `EventDeduplicator.SinceLookup` | detection/dedup.py:48-49 | Dropping expired entries changes no lookup that could still report a duplicate. |
| `EventDeduplicator.AgreesThroughCall` | detection/dedup.py:30-49 | A call with or without expiry keeps the table in agreement with one that forgets nothing. |
| `WindowRules.FirstAnchor` | detection/correlation.py:125-127 | The anchor reaches the threshold and none before it does. |
| `WindowRules.FindBurst` | detection/correlation.py:125-139 | The anchor scan with its early stop finds the first qualifying cluster. |
| `WindowRules.GroupFailures` | detection/correlation.py:116-119 | The dictionary holds each user's failures in event order, users in order of first failure. |
| `WindowRules.RuleBruteForce` | detection/correlation.py:110-140 | The loop computes one candidate per user with a burst. |
| `WindowRules.RulePasswordSpray` | detection/correlation.py:227-262 | The loop computes the spray candidate, early exit included. |
| `WindowRuleProofs.BruteForceExact` | detection/correlation.py:110-140 | A user gets an incident if and only if the user has a failure and some span of window_seconds holds at least threshold of that user's failures. |
| `WindowRuleProofs.BruteForceCandidates` | detection/correlation.py:121-140 | The candidates are one burst per user who has one, and nothing else. |
| `WindowRuleProofs.OneBurstPerUser` | detection/correlation.py:121-140 | The candidates are the bursts of distinct users, one each, in order of their first failures. |
| `WindowRuleProofs.SprayExact` | detection/correlation.py:239-262 | Spray fires if and only if there is a failure and some span holds enough distinct users; the early exit never changes the answer. |
| `WindowRuleProofs.BurstIsEarliestAndMaximal` | detection/correlation.py:124-139 | The reported cluster is everything from the earliest qualifying anchor that fits in its window. |
| `WindowRuleProofs.BruteForceAnchorStays` | detection/correlation.py:122-139 | Appending events no earlier than all existing ones keeps a raised incident and its first event. |
| `ChainRules.RuleAuthSuccessAfterFailures` | detection/correlation.py:265-310 | Looking up a user's own failures, the loop finds the chains that a scan of all failures finds. |
| `ChainRules.SplitByOutcome` | detection/correlation.py:277-285 | One pass splits the events into successes and each user's failures. |
| `ChainRules.RuleReconThenAuth` | detection/correlation.py:167-196 | The loop computes one chain per reconnaissance event that has followers. |
| `ChainRules.RuleNetworkThenFim` | detection/correlation.py:199-224 | The loop computes one chain per critical network event that is followed by tampering. |
| `ChainRules.RuleIocMatch` | detection/correlation.py:313-354 | The nested loops gather, per watched name, every event that mentions it. |
| `ChainProofs.NetworkThenFimExact` | detection/correlation.py:199-224 | One candidate for each critical network event that a file event of the same host follows within the window, in order, with that event and all such file events. |
| `ChainProofs.ReconThenAuthExact` | detection/correlation.py:167-196 | One candidate for each probe that failed logins of its host and address follow within the window, in order, with the probe and all of them. |
| `ChainProofs.SuccessAfterFailuresExact` | detection/correlation.py:265-310 | One candidate for each success preceded within the window by at least threshold failures of its user, in order, with those failures by time and the success. |
| `ChainProofs.ReplayExact` | detection/correlation.py:143-155 | One candidate for each replay event, in order, with that event alone. |
| `ChainProofs.IocMatchExact` | detection/correlation.py:313-354 | One candidate for each watched name that some event mentions as entity, domain or address, by first mention, with every event that mentions it. |
| `CorrelationSweep.CorrelationEngine.Detect` | detection/correlation.py:411-419 | The candidates of all seven rules over the loaded events, in rule order. |
| `SweepExact.LoadsExactly` | detection/correlation.py:395-409 | The loaded events are, with multiplicity, those of the rows not older than since_ts, ordered by time; only the six sensor modules are parsed. |
| `SweepExact.DetectedByRule` | detection/correlation.py:357-365 | The candidates under the name of each rule are those of that rule, with its own thresholds and window, and there are no others. |
| `CorrelationSweep.CorrelationEngine.InsertOrIgnore` | detection/correlation.py:421-448 | Inserts exactly the candidates whose key is not yet present and counts them. |
| `CorrelationSweep.CorrelationEngine.Persist` | detection/correlation.py:421-455 | One audit row is logged if and only if something was new; an aborted transaction changes nothing. |
| `CorrelationSweep.CorrelationEngine.Sweep` | detection/correlation.py:411-455 | A sweep stores the new candidates and returns how many there were. |
| `SweepProofs.RulesIgnoreSilent` | detection/normalize.py:158 | A system event that mentions nothing changes no rule's candidates, wherever it stands. |
| `SweepProofs.OwnRowChangesNothing` | detection/correlation.py:450-454 | The sweep's own audit row leaves the next sweep's candidates as they were. |
| `SweepProofs.InsertAllFacts` | detection/correlation.py:423-447 | Earlier incidents stay, keys stay unique, every candidate's key ends up present and no other key does. |
| `SweepExact.StoresExactly` | detection/correlation.py:421-447 | The incidents stored behind the earlier ones are the first candidates of each key that no incident had, one for each such key. |
| `SweepExact.SweepExactly` | detection/correlation.py:421-455 | The returned number is that of the keys no incident had, and the one audit row is logged if and only if there is such a key. |
| `SweepExact.AbortsExactly` | detection/correlation.py:96-107 | A sweep aborts if and only if some candidate has no events, and then changes nothing. |
| `SweepProofs.ResweepInsertsNothing` | detection/correlation.py:395-455 | A second sweep with the same since_ts over otherwise unchanged data inserts, reports and logs nothing. |
| `SweepProofs.SweepTwice` | detection/correlation.py:411-455 | The same for two calls of the imperative sweep. |
| `SweepProofs.BruteForceKey` | detection/correlation.py:102-107 | A brute-force key is the text of the rule, its one user and the id of the first event of its cluster. |
| `SweepProofs.BruteForceKeyStays` | detection/correlation.py:102-107 | Later events never move the dedupe key of a raised brute-force incident. |
| `SweepProofs.BurstReportedOnce` | detection/correlation.py:411-448 | After a sweep that raised a brute-force incident for a user, and any later-stamped rows, the next sweep with the same since_ts stores no further one for that user. |
| `DedupeKeys.KeysTellApart` | detection/correlation.py:74-107 | Candidates whose rules and entities hold no bar share a key if and only if they have the same rule, the same set of entities and the same first event. |
| `DedupeKeys.KeyIdentifiesExactly` | detection/correlation.py:74-107 | Every candidate with the key of c has the rule, the entities and the first event of c if and only if c has at most one entity and that entity is not two others, in order, joined by a bar. |
| `DedupeKeys.Twin` | detection/correlation.py:102-107 | For every other candidate, one with different entities and the same key. |
| `SweepLimits.LostIncident` | detection/correlation.py:313-354 | A sweep over two rows that raises two watchlist incidents about different entities and stores only one. |
| `FileIntegrity.FileMonitor.InitializeBaselines` | fim/monitor.py:111-120 | Every readable file gets its digest as baseline; unreadable ones are skipped. |
| `FileIntegrity.FileMonitor.PersistFimEvent` | fim/monitor.py:150-166 | The event row and its audit row are written together. |
| `FileIntegrity.FileMonitor.PersistCreated` | fim/monitor.py:196-212 | Event, audit row and baseline are written together, only if the path had no baseline, and not at all when persisting raises. |
| `FileIntegrity.FileMonitor.CheckDirectoriesForCreated` | fim/monitor.py:176-212 | The directory pass, with the known set it grows and the failed transactions it skips. |
| `FileIntegrity.FileMonitor.CheckIntegrity` | fim/monitor.py:126-147 | The pass over the baselines read at its start, then the directory pass. |
| `FileIntegrity.AlterationsExactly` | fim/monitor.py:134-146 | The pass raises one event for each baseline whose file no longer has its digest, in order: DELETED when it cannot be read, else MODIFIED; it changes no baseline. |
| `FileIntegrity.BaselineDigest` | fim/monitor.py:118-208 | Over every interleaving a baseline holds the digest last initialized for its path, or else that of the CREATED event that recorded it. |
| `FileIntegrity.CreatedWasVisited` | fim/monitor.py:185-206 | Every CREATED event of a run has the path and digest of a file some checker visited and could persist, with the given severity or WARNING. |
| `FileIntegrity.CreatedOncePerPath` | fim/monitor.py:126-212 | Over every interleaving of checkers, a path gets at most one CREATED event whose digest was read, baselines are exactly the initialized paths plus those of such events, and every event has its audit row. |
| `FileIntegrity.CheckCovers` | fim/monitor.py:185-212 | After a pass the paths with a baseline are exactly those that had one and those it listed, read and recorded. |
| `FileIntegrity.SilentExactly` | fim/monitor.py:185-212 | A pass raises no event if and only if every listed path has a baseline or fails to persist. |
| `FileIntegrity.RecheckRaisesNothing` | fim/monitor.py:176-212 | Re-checking files that were all listed, readable and recorded before raises no event. |
| `FileIntegrity.UnreadableIsReportedAgain` | fim/monitor.py:189-208 | After any pass, the next raises an event if and only if it lists a file that had no baseline, persists without error and was not recorded by the pass before: an unreadable file is reported by every pass. |

## Left out

- AuthSingleUse.AtMostOneSuccessPerStep: needs stalls of at most 86370 s, which the code does not enforce; `AuthLimits.SingleUseExactly` shows that no larger bound will do.
- AuthGuessBound.FailuresAreSpaced: needs reject mode, purges that keep what the backoff window reaches (`AuthRetention.RetentionExactly`), and no failure of the user recorded between another failing call's count and its own; that last condition is a finer sufficient one, and `AuthOverlap.OverlapExactly` gives the exact number of calls that may be in flight.
- AuthCooldown.WaitSuffices: counts from the moment the rejected call counted its failures, because the returned seconds are computed from that count.
- AuditTheorems.SplitInvariance: excludes purges of rows that were never sealed, since those rows leave no trace in any chain.
- AuditTheorems.MissingRowRetained: places a retained fingerprint in the right segment, not under its original id, because the chain does not fold the ids of retired rows; `AuditEvidence.OwnIdsExactly` says exactly when the id is fixed too.
- AuditLog.AuditStore.PurgeOldEvents: covers the audit tables; the attempts and consumed steps are in `AuthStore.AuthDatabase.PurgeOldEvents`, and the deletes of `fim_events` and closed incidents by age, with their counters, are not modelled.
- DistinctWindow.Detector.ProcessPacket: the recount is stated for a non-negative window and packets in time order; packet times come from the capture and are not checked by the code.
- ArpChanges.ArpDetector.ProcessPacket: the naive count is stated for a non-negative window and the monotonic clock the code uses.
- SweepProofs.BruteForceKeyStays: stated for the brute-force rule only: a spray key contains its growing entity set, and a moving lookback horizon can change anchors.
- SweepProofs.ResweepInsertsNothing: a row stamped exactly 0.0, which the code re-stamps with the current time, keeps its stamp here.
- AuthProtocol.Exec: runs start from empty tables, so the 90 s replay check against successes recorded before the `totp_step` column existed (auth/core.py:341-351) is part of every verify transaction but finds nothing in the theorems about runs.
- Non-string context values, JSON and regular-expression details of normalization: the classification of network, auth and FIM rows is an arbitrary function.
- Titles, summaries, severities, risk scores, MITRE techniques and timestamps of incidents: constant data and small sums.
- The clock stamps `created_at` and `purged_at` of checkpoints and retired fingerprints: no result depends on them.
- Sleep mode of the backoff: a sleeping call is a call that passes the gate later; only reject mode has timing results.
- `EventDeduplicator.fingerprint`: one hash of three texts; calls take the fingerprint as it is.
- Directory listing and digest reading: what a check finds is its input.
- `analyze_url`, `DnsWatchlistDetector`, `risk_score`, `confidence_for`, threat-intel file and CIDR matching: stateless arithmetic and library calls.
- SQLite itself, locks and file handles, email alerts, the dashboard, packet parsing and the vision engine: input and output.
