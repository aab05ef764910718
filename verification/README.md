# Ratline: a verified model

Ratline is a control plane that signs instructions for agents on managed hosts, and authenticates the people
who drive it. This project models five of its state machines in Dafny and proves what they promise over
every input, every interleaving and every run.

**Signed instructions.** `Canonical`, `Signing` and `Arguments` are the two halves of one protocol: the
length-prefixed encoding, written once in Go and once in TypeScript, and the argument checkers on both sides.
`NameOrder` compares the two sorts the halves use.
`NonceFile`, `NonceSpec` and `NonceStore` are the agent's replay store: a map, an append-only file, amortised
pruning, rewriting by rename, a size bound and reloading after a crash. `VerifySpec` and `Verification` are
the agent's checks in their order. `StoreSoundness`, `ReplayRuns` and `StoreHistory` prove what holds over
whole runs of calls, faults between any two file operations, crashes and restarts, and `StorePruning` what each
call leaves and how large the file gets; `ReplayWitnesses` are runs that show what the hypotheses are for.

**Key rotation.** `RotationSpec` and `Rotation` are three files changed in a fixed order, `RotationOutcomes` what
each step leaves of them. `EndToEnd` joins
rotation, signing and verification: an instruction delivered in time is executed exactly once, however often
it is delivered, across any finished, unforced rotations (`EndToEnd.ExecutedOnceAcrossRotations`).

**Rate limiting.** `RateSpec` and `RateLimiter` are the counting statement, its transaction and the policy
around it. `Locking` proves that the lock order excludes deadlock and `LockingProgress` that everybody finishes,
`RateBounds` how many attempts can be counted, `RateDecisions` what an answer says about the rows, `RatePolicy` what
the routes see one request after the other, and `RateInterleaving` what they see when their statements, reads and
sweeps included, interleave.

**Second factor and sessions.** `Base32Spec`, `Base32` and `Totp` are the arithmetic; `FactorSpec`,
`TwoFactor` and `FactorRuns` the challenges, enrolments and recovery codes, and `FactorOutcomes` what their holders
are owed; `FactorRequests` the requests that read in one transaction and write in another, `FactorPresented` when
what is presented is accepted, and `FactorWitnesses` runs of them; `SessionSpec`, `SignIn` and `SessionRuns` the
sign-in, one transaction at a time, and `SessionOutcomes` who gets a session.

**The task tracker.** `TaskText`, `TaskSyntax` and `TaskParser` are the hand-written parser; `TaskLines` is what
its line forms mean, `TaskDocuments` the documents it reads as they were meant, `TaskErrors` the lines it reports.
`TaskTokens`, `TaskSurgery` and `TaskDoc` are the line surgery, and `TaskOrder` where it puts a new scalar;
`TaskCycles` is the cycle check; `TaskSyncSpec` and `TaskSync` are the command that derives `blocks` from
`depends_on`; `TaskWitnesses` are small documents at which an edit goes wrong.

Classes and methods carry the source's own imperative form. Each is proved against a specification function,
and the lemmas then reason about runs of those functions. `Wrappers`, `Sequences`, `Listings`, `Sorting`,
`Bytes`, `Utf` and `TextOrder` are shared vocabulary.

Four hypotheses carry the theorems over runs, and are written as predicates. `ReplayRuns.ClockOrdered`: no prune
reads an instant later than the `now` of a verification whose nonce check comes after it; without it an envelope
is executed twice (`ReplayWitnesses.ExecutedTwice`). `ReplayRuns.Whole`, with `NonceFile.Intact` for the file a
run starts from: a record is appended whole or not at all; over a torn one an accepted nonce is forgotten
(`StoreHistory.TornTailForgetsAccepted`), and a line of another make can be misread by a failing scan
(`NonceFile.StrangeLineIsDishonest`). `StoreHistory.NoneAhead`: no envelope was judged at a later instant than the
store prunes at; without it a store is full without a flood (`ReplayWitnesses.FullWithoutFlood`).
`RotationSpec.Orderly`: rotations and prunings are finished, unforced and at instants that never go back; a half
rotation orphans envelopes (`RotationSpec.HalfRotationOrphans`).

Where code and commentary part, the model follows the code:

- The comment on rotation says a crash leaves no stamp; an older stamp can be left behind and admit the outgoing
  key (`RotationSpec.HalfRotationClosesOverlap`, `RotationSpec.StaleStampReadmits`).
- Base 32 decoding is said to throw at a character outside the alphabet. It upper-cases first, so it throws
  exactly when the upper case leaves the alphabet (`Base32.RefusedIff`), and accepts a sharp s
  (`Base32.SharpSIsAccepted`). What upper-casing does beyond ASCII is a parameter.
- Line surgery on a key that stands on its item's opening line takes the item with it
  (`TaskSurgery.OpenerOverwritten`, `TaskWitnesses.OpeningFieldLost`), and a first note can take in a comment
  below it (`TaskSurgery.NoteAsWrittenIff`, `TaskWitnesses.CommentBecomesNotes`).
- A rule the counter refuses makes recording fail closed while checking goes on
  (`RatePolicy.CheckForetellsRecordIff`).
- The two argument checkers are said to agree. The agent's ceiling on numbers, and its reading of an absent
  upper bound as zero, cut short kinds the control plane accepts in full (`Arguments.KindsAgreeIff`).
- A code from the pending secret is said to be what an enrolment proves. It is judged in one transaction and
  recorded in another, and proves the secret exactly when nothing replaced it in between
  (`FactorRequests.ConfirmsWhatWasJudgedIff`); a secret asked for in between is confirmed unproved
  (`FactorWitnesses.UnprovedIsConfirmed`). So with redeeming (`FactorRequests.SpendsWhatWasJudgedIff`,
  `FactorWitnesses.OldCodeIsAccepted`).

Three limits of what holds are theorems too. The replay store is called bounded, and its map is; its file is rewritten
only at the 256th append of one process, so processes that end sooner let it grow (`StorePruning.FileTracksMap`,
`StorePruning.ShortLivedNeverRewrite`). The canonical lock order excludes deadlock among counting transactions
(`Locking.SomeTransactionCanStep`), but the sweep does not follow it (`Locking.SweepDeadlocks`). A password change
ends the sessions held when it began (`SessionRuns.PasswordChangeEndsSessions`), not one minted between that and
the writing of the new password (`SessionRuns.OldSessionLivesIff`, `SessionRuns.SessionOutlivesChange`).

## Model

| member | source | states |
|---|---|---|
| `NonceFile.RecordReadsBack` | agent/internal/protocol/nonces.go:237-274 | a record written by `append` parses back to the nonce and the stamp it was written from |
| `NonceFile.RecordIff` | agent/internal/protocol/nonces.go:237-247 | a line is a record exactly when it is a nonce without spaces, a space and a 64-bit stamp |
| `NonceFile.AppendRecalls` | agent/internal/protocol/nonces.go:192-274 | one whole record appended to a file that ends on a boundary is exactly one more remembered nonce to the next scan, whatever the file holds |
| `NonceFile.AppendSurvivesIffTerminated` | agent/internal/protocol/nonces.go:192-274 | because no leading line feed is written and bad lines are skipped, an appended record of a new nonce is seen by the next scan if and only if the file ended on a record boundary |
| `NonceFile.TornRecordIsSwallowed` | agent/internal/protocol/nonces.go:192-274 | a torn but readable record at the end of the file is lost too, together with the record appended after it |
| `NonceFile.RecordIsHonest` | agent/internal/protocol/nonces.go:217-229 | a record read in part, as a failing scan hands it over, names its own nonce or nothing |
| `NonceFile.StrangeLineIsDishonest` | agent/internal/protocol/nonces.go:217-229 | a line the store never writes can be read in part as a record the whole of it is not |
| `NonceFile.ReturnIsDropped` | agent/internal/protocol/nonces.go:205-247 | a record whose line ends in a carriage return as well is the same record, and a second one spoils it |
| `NonceStore.FileNonceStore.constructor` | agent/internal/protocol/nonces.go:91-109 | a new store knows nothing, has not loaded and has the default bound |
| `NonceStore.FileNonceStore.WithLimit` | agent/internal/protocol/nonces.go:112-117 | only the bound changes |
| `NonceStore.FileNonceStore.PruneSeen` | agent/internal/protocol/nonces.go:277-284 | the map keeps exactly the nonces whose expiry is after the clock reading |
| `NonceStore.FileNonceStore.Scan` | agent/internal/protocol/nonces.go:205-229 | the scan adds to the map what the file recalls, up to the record an oversized line or a failed read stops it at; what was read of the line a read fails in is taken for a record if it can be |
| `NonceStore.FileNonceStore.LoadFile` | agent/internal/protocol/nonces.go:192-235 | a load reads the file once, prunes, and fails without marking itself done |
| `NonceStore.FileNonceStore.Append` | agent/internal/protocol/nonces.go:249-274 | the file gains the record, or the part of it a failing write left |
| `NonceStore.FileNonceStore.Rewrite` | agent/internal/protocol/nonces.go:291-329 | whichever of its eight kinds of file operation fails, a record write part of the way included, the file is as it was; when none does it holds exactly the map's records |
| `NonceStore.FileNonceStore.SettleAppends` | agent/internal/protocol/nonces.go:163-188 | every 256 appends the store prunes and rewrites, and a rewrite that fails is tried again at the next append |
| `NonceStore.FileNonceStore.RecordNonce` | agent/internal/protocol/nonces.go:163-188 | the nonce is in the map only once its record was appended without error |
| `NonceStore.FileNonceStore.AdmitNonce` | agent/internal/protocol/nonces.go:140-161 | a known nonce is refused before room is made for it; a full map is pruned once and then refuses |
| `NonceStore.FileNonceStore.Remember` | agent/internal/protocol/nonces.go:125-188 | the whole call, with every fault the file operations can meet, does to map, file and counters what the specification function says |
| `NonceStore.FileNonceStore.Size` | agent/internal/protocol/nonces.go:331-340 | a health probe loads like a call, answers how many nonces are remembered, and fails when the load does |
| `StoreSoundness.LoadSound` | agent/internal/protocol/nonces.go:192-235 | a first load that succeeds leaves exactly the file's unexpired records in the map and does not touch the file |
| `StoreSoundness.RewriteRecalls` | agent/internal/protocol/nonces.go:291-329 | the rewritten file recalls exactly the map, in whatever order the map was visited |
| `StoreSoundness.RememberSound` | agent/internal/protocol/nonces.go:125-188 | every call keeps the map a cache of the file, and says which records the file may have gained or lost |
| `StoreSoundness.CrashSound` | agent/internal/protocol/nonces.go:125-188 | so does a crash between any two file operations followed by a restart |
| `StorePruning.CrashLeaves` | agent/internal/protocol/nonces.go:163-188 | what the file holds after a crash at each point: nothing of the record, so much of it, all of it, or what the call itself would have left |
| `StorePruning.CrashedCallLeaves` | agent/internal/protocol/nonces.go:163-188 | over a run: a process that dies inside a call forgets its map and its count, and a record once appended is not lost |
| `StorePruning.PrunesAtIff` | agent/internal/protocol/nonces.go:140-187 | the instants an event can forget a nonce at, exactly: that of a first load, that of making room at the bound, and that of a 256th append |
| `StoreSoundness.ReloadKeepsLive` | agent/internal/protocol/nonces.go:192-235 | restarting and loading at any later instant forgets no nonce that is still live |
| `StorePruning.LoadMeans` | agent/internal/protocol/nonces.go:192-235 | what a load learns, whatever the file and the fault: all records less the expired ones when it reads to the end, the records before a line of 4096 bytes or more, or those before a failed read with what was read of its line taken for a record; only the first is not repeated |
| `StorePruning.AnswerMeans` | agent/internal/protocol/nonces.go:125-188 | which answer a call gives: an empty or spaced nonce, a failed load, a nonce already held, as many live nonces as the bound, a failed append, and otherwise new |
| `StorePruning.RefusalLeaves` | agent/internal/protocol/nonces.go:140-171 | a refused nonce is not in the map, nothing but expired nonces was dropped to make room, and the file gained nothing but what the failed append wrote |
| `StorePruning.NewNonceSettles` | agent/internal/protocol/nonces.go:163-188 | from the 256th append on the map holds exactly the live nonces, the new one among them, and the file exactly the map with the counter at zero, unless the rewrite fails, which keeps the counter and the records; before the 256th nothing is pruned and the file gains one record |
| `StorePruning.FileTracksMap` | agent/internal/protocol/nonces.go:163-188 | in every run without rewrite faults the counter stays below 256, and the file has at most that many lines more than the map last rewritten into it, 256 for each process that ended since, and one for each failed append |
| `StorePruning.ShortLivedNeverRewrite` | agent/internal/protocol/nonces.go:163-188 | processes that end before their 256th append never rewrite: every record stays in the file and every new nonce adds a line |
| `ReplayRuns.RunSound` | agent/internal/protocol/nonces.go:125-188 | the map is a sound cache in every state of every run of calls, failed calls, health probes, crashes and restarts |
| `ReplayRuns.RunGoesOn` | agent/internal/protocol/nonces.go:125-188 | every run goes on with a crash, with a health probe, or with any call whose writes are whole |
| `ReplayRuns.AcceptedAtIff` | agent/internal/protocol/envelope.go:244-265 | in every run an envelope is accepted if and only if it reaches the store, its nonce is found new, its operation is known and its arguments are valid; with a new nonce an unknown operation and refused arguments have each their own error |
| `ReplayRuns.NonceSpentOnce` | agent/internal/protocol/envelope.go:244-265 | an envelope the catalogue refuses uses up its nonce like an accepted one: with ordered clocks a nonce is found new once |
| `ReplayRuns.NewTwiceOnlyPastALatePrune` | agent/internal/protocol/envelope.go:208-266 | in every run two calls that find one nonce with one expiry new force a prune between them that read a clock past the expiry |
| `ReplayRuns.TwiceOnlyPastALatePrune` | agent/internal/protocol/envelope.go:208-266 | in every run two acceptances of one nonce and expiry force a prune between them that read a clock past the expiry although the second call was judged before it |
| `ReplayRuns.NeverExecutedTwice` | agent/internal/protocol/envelope.go:208-266 | when no prune reads later than the `now` of a later check, no envelope is executed twice, although the store forgets nonces |
| `ReplayRuns.HeldNonceAcceptedIff` | agent/internal/protocol/envelope.go:208-266 | what the loading prune forgets, exactly: with the nonce held and room to spare, a second presentation is accepted if and only if this process has yet to load and its loading prune reads a clock at or past the expiry |
| `ReplayWitnesses.ExecutedTwice` | agent/internal/protocol/envelope.go:208-266 | a run of three events with clocks out of order in which one envelope is executed twice |
| `StoreHistory.CacheIsFaithful` | agent/internal/protocol/nonces.go:140-187 | in every reachable loaded state the last record of each nonce in the map carries the map's expiry, and a record of any other nonce expired at some prune or came from a call that returned an error |
| `StoreHistory.RecordsArePresented` | agent/internal/protocol/envelope.go:208-266 | every recorded nonce belongs to an envelope that was signed, correctly addressed and fresh |
| `StoreHistory.FullNeedsEnvelopes` | agent/internal/protocol/nonces.go:151-161 | the store-full refusal needs at least `limit` different nonces on earlier envelopes past checks 1 to 3 at instants later than the pruning clock less 330 s, and neither loading nor pruning in that call drops a nonce live at the instants they read |
| `StoreHistory.FullOnlyUnderFlood` | agent/internal/protocol/nonces.go:151-161 | when none of those was judged at a later instant than the store pruned at, at least `limit` different nonces fall within the 330 s that end there, however often each was presented |
| `StoreHistory.CalmIsNeverFull` | agent/internal/protocol/nonces.go:151-161 | so with fewer than `limit` different nonces in every 330 s, and that clock order, no call is ever refused for want of room |
| `ReplayWitnesses.FullWithoutFlood` | agent/internal/protocol/nonces.go:151-161 | without the clock order that fails: a store of two is full although no 330 s hold two nonces |
| `StoreHistory.TornTailForgetsAccepted` | agent/internal/protocol/nonces.go:249-274 | without whole appends the claim fails: over a torn tail a nonce accepted without error is unknown to every later process until a rewrite |
| `VerifySpec.PrecheckPasses` | agent/internal/protocol/envelope.go:208-254 | what an envelope that reaches the store has shown: shape, signature by an accepted key, target, and both freshness bounds, with saturating durations |
| `VerifySpec.PrecheckMeans` | agent/internal/protocol/envelope.go:208-349 | what each refusal before the store means: 64 hexadecimal digits, a signature of 64 bytes that a key of 32 verifies, this host, unexpired, issued no more than 30 s ahead and valid for no more than 300 s, in that order |
| `VerifySpec.VerdictMeans` | agent/internal/protocol/envelope.go:208-266 | accepted if and only if all four checks pass, the store finds the nonce new, the operation is known and its arguments are valid; each later refusal exactly when it is the first of these to fail |
| `VerifySpec.ExpiryIsNear` | agent/internal/protocol/envelope.go:331-349 | an envelope that passes dies at most 330 s after it was judged |
| `VerifySpec.UnverifiedLeavesNoTrace` | agent/internal/protocol/envelope.go:208-266 | nothing reaches the store, and no argument is looked at, until shape, signature, target and freshness have passed |
| `VerifySpec.RefusalsInOrder` | agent/internal/protocol/envelope.go:208-254 | the order of refusals: each of shape, signature and target is refused whatever the later checks would have found, and freshness is asked last |
| `Verification.VerifySignature` | agent/internal/protocol/envelope.go:288-327 | the loop over accepted keys accepts if and only if the named key is present and the signature holds under it |
| `Verification.Verify` | agent/internal/protocol/envelope.go:208-266 | the method leaves the store and returns the verdict the specification function gives, check by check |
| `Canonical.LayoutReads` | agent/internal/protocol/envelope.go:110-158 | a decoder recovers operation, host, nonce, both stamps and every pair from the length-prefixed layout, in whatever order the names are laid out |
| `Canonical.SortIgnoresOrder` | agent/internal/protocol/envelope.go:128-131 | every visiting order of the argument map sorts to one sequence |
| `Listings.Gather` | agent/internal/protocol/envelope.go:128-130 | the loop over the argument map lists each name once, in the order the map is visited |
| `Canonical.CanonicalReads` | agent/internal/protocol/envelope.go:110-158 | the encoding decodes to the envelope it was made from, for all strings under 2^32 bytes and all stamps |
| `Canonical.CanonicalInjective` | agent/internal/protocol/envelope.go:110-158 | equal signed bytes mean equal operation, host, nonce, stamps and argument map |
| `Canonical.LayoutFixesOrder` | agent/internal/protocol/envelope.go:132-141 | the bytes determine the order the names were laid out in |
| `Canonical.WritePairs` | agent/internal/protocol/envelope.go:132-136 | the loop appends each pair's name and value fields, in order |
| `Canonical.Encode` | agent/internal/protocol/envelope.go:110-141 | the buffer ends up holding the canonical bytes |
| `Signing.SignedBytesRead` | src/agent/envelope.ts:105-152 | the agent's decoder recovers the instruction from the control plane's bytes |
| `Signing.SignedBytesInjective` | src/agent/envelope.ts:105-152 | no two instructions over well-formed text share the bytes the control plane signs |
| `Signing.BothSidesAgree` | src/agent/envelope.ts:119-152 | with ASCII argument names, as the catalogue has, the UTF-16 sort and the byte sort give identical bytes, whatever the values and the visiting orders |
| `NameOrder.OrdersAgreeIff` | src/agent/envelope.ts:137-137 | two names are ordered alike by code unit and by byte if and only if the scalars they first differ at are not one past the surrogates and one past the basic plane |
| `Utf.UnitsMean` | src/agent/envelope.ts:137-137 | JavaScript compares a character of the basic plane as itself and any other as a surrogate pair of ten bits each |
| `Signing.BothSidesAgreeIff` | src/agent/envelope.ts:119-152 | for any names at all, both sides derive the same bytes if and only if no two names straddle in that way |
| `Signing.SortsDifferBeyondAscii` | src/agent/envelope.ts:137-137 | a pair of names beyond ASCII that the two sorts order differently |
| `Signing.Join` | src/agent/envelope.ts:143-151 | the output array filled by offset is the parts one after another |
| `Signing.PairParts` | src/agent/envelope.ts:136-141 | the loop pushes each pair's parts in sorted order |
| `Signing.EncodeInstruction` | src/agent/envelope.ts:119-152 | the array returned holds the signed bytes of the instruction |
| `Arguments.ValidateNumber` | agent/internal/protocol/validate.go:272-303 | accepts exactly the canonical decimals between the kind's bounds, computed in an int64 whose every operation is checked to stay in range |
| `Arguments.ValidateValue` | agent/internal/protocol/validate.go:179-260 | accepts a value exactly when the agent's reading of the kind does |
| `Arguments.Validate` | agent/internal/protocol/validate.go:128-170 | accepts exactly when no name is unexpected and every declared argument is present, of a known kind and accepted; counts the arguments checked, and refuses at the first that is not |
| `Arguments.NumeralFits` | agent/internal/protocol/validate.go:179-200 | a numeral keeps within a length limit exactly when its number is below that power of ten |
| `Arguments.KindsAgreeIff` | src/agent/envelope.ts:228-314 | for every well-formed kind, number kinds with a length limit included, control plane and agent accept the same values if and only if the kind is within the agent's reach: the largest number its upper bound and length limit leave is within the agent's ceiling, and an absent upper bound is not read as zero beside a lower one, or the range is empty |
| `Arguments.EmptyPatternIsRefused` | agent/internal/protocol/validate.go:217-270 | a kind that is not well formed, on which they part: a pattern with an empty source, which the agent is never given |
| `Arguments.CheckersAgree` | src/agent/envelope.ts:228-314 | lifted to whole argument maps: `assertArgumentsMatch` accepts if and only if `Validate` does |
| `Rotation.SecretsDir.LoadSecrets` | src/crypto/secrets.ts:188-230 | starting up mints a key only when no current file is there, and refuses instead when generation is disabled |
| `Rotation.SecretsDir.RotationState` | src/crypto/rotation.ts:138-168 | the end of the overlap follows from the stamp, and an unreadable stamp is an error |
| `Rotation.SecretsDir.AcceptedInstructionKeys` | src/crypto/rotation.ts:170-196 | current key first, the previous one only while the overlap is open |
| `Rotation.SecretsDir.RotateInstructionKey` | src/crypto/rotation.ts:210-272 | the file steps of a rotation, stopped after any of them, leave the files the specification function says |
| `Rotation.SecretsDir.PruneRetiredKey` | src/crypto/rotation.ts:285-310 | a retired key is removed only after its overlap, unless forced |
| `RotationSpec.ReplayAdjacent` | src/crypto/rotation.ts:210-272 | after any sequence of whole or interrupted steps the previous key is the one before the current |
| `RotationSpec.NeverOlderThanPredecessor` | src/crypto/rotation.ts:170-196 | in every state, crashes and forced prunings included, at most two keys are accepted and none older than the immediate predecessor |
| `RotationOutcomes.AcceptedMeans` | src/crypto/rotation.ts:170-196 | the newest key, and the outgoing one exactly while its stamp plus the overlap is ahead; an unreadable stamp is an error |
| `RotationOutcomes.RotationMeans` | src/crypto/rotation.ts:210-272 | each refusal exactly when its condition on the three files holds, five minutes being the least overlap, and otherwise what each step leaves in them |
| `RotationOutcomes.BootMeans` | src/crypto/secrets.ts:188-230 | a start with no current key mints one and leaves the other files |
| `RotationOutcomes.PruningMeans` | src/crypto/rotation.ts:285-310 | the retired key goes once its overlap has ended or by force, and never when the stamp cannot be read |
| `RotationOutcomes.OverlapOpensAndCloses` | src/crypto/rotation.ts:138-310 | from a rotation on, both keys are accepted until the overlap ends and only the new one from then on, and exactly then the next rotation and the removal of the old key are allowed |
| `RotationOutcomes.OrderlyIff` | src/crypto/rotation.ts:210-310 | what the theorems on rotations ask of a run, event by event: finished, unforced, with five minutes of overlap at least, at instants that do not go back |
| `RotationSpec.HalfRotationClosesOverlap` | src/crypto/rotation.ts:210-272 | a rotation that dies before the stamp leaves the outgoing key unaccepted, unless an older stamp left behind is still open |
| `RotationSpec.HalfRotationOrphans` | src/crypto/rotation.ts:210-272 | a run in which the outgoing key is no longer accepted the moment after |
| `RotationSpec.StaleStampReadmits` | src/crypto/rotation.ts:285-310 | a run that leaves an older stamp behind, by a forced pruning that dies between its removals, and so has the outgoing key of a half rotation accepted |
| `RotationSpec.ReplayServes` | src/crypto/rotation.ts:138-310 | over any sequence of finished, unforced steps a key in use goes on being served while the envelope lives |
| `RotationSpec.InFlightKeyAccepted` | src/crypto/rotation.ts:138-310 | the key current at signing is accepted at every instant before an envelope of at most the minimum overlap expires |
| `RotationSpec.ShortReadOverlapOrphans` | src/crypto/rotation.ts:138-196 | a reader given a shorter overlap than the rotation's loses live envelopes |
| `EndToEnd.SealedPasses` | agent/internal/protocol/envelope.go:208-254 | what the control plane signs, addressed to a host that holds the key and judged while alive, passes every check before the store |
| `EndToEnd.RotationOrphansNothing` | src/agent/envelope.ts:175-220 | signed with the current key, an envelope passes at every instant before it expires across any sequence of finished, unforced rotations |
| `EndToEnd.ExecutedExactlyOnce` | agent/internal/protocol/envelope.go:208-266 | delivered in time to an unhindered host it is executed, and on no later delivery, crashes included, while clocks are ordered |
| `EndToEnd.ExecutedOnceAcrossRotations` | src/agent/envelope.ts:175-220 | from the request: signed with the current key, then any finished, unforced rotations and prunings, then delivered in time to an unhindered host under the keys accepted by then, it is executed by that delivery and by no other, earlier or later, while clocks are ordered |
| `EndToEnd.DraftIsSendable` | src/agent/envelope.ts:175-205 | a request is drafted exactly when its validity is within bounds, and the draft is one the protocol can carry |
| `RateLimiter.Counters.CountOne` | src/repo/rate_limits.ts:219-253 | the counting statement: create, reset in place, increment or leave a spent bucket alone, and the answer of that branch |
| `RateLimiter.Counters.CountAuthAttempts` | src/repo/rate_limits.ts:293-312 | all buckets counted in lock order in one transaction, each result at its bucket's own position; a bad key or rule, or a store that fails, changes nothing |
| `RateLimiter.Counters.CountInOrder` | src/repo/rate_limits.ts:300-311 | the loop fills the results array so that each statement's answer stands at the caller's position |
| `RateDecisions.TransactionMeans` | src/repo/rate_limits.ts:293-312 | over different buckets and in any order: each row is counted once at its own statement's instant, one more while it has room, the same once used up, a new window when none runs; each statement answers for its own row and no other row changes |
| `RateLimiter.Counters.ReadAuthRateLimits` | src/repo/rate_limits.ts:340-364 | exactly the live windows, in lock order, and no row touched |
| `RateDecisions.ReadMeans` | src/repo/rate_limits.ts:340-364 | one window for each live row, in the order of the statements, and nothing for the others |
| `RateLimiter.Counters.ClearAuthRateLimit` | src/repo/rate_limits.ts:393-403 | the one row goes; the answer says whether it was there, live or not |
| `RateLimiter.Counters.PruneAuthRateLimits` | src/repo/rate_limits.ts:412-421 | exactly the ended rows go, and their number is returned |
| `RateLimiter.Counters.CheckAuthRateLimit` | src/auth/rate_limit.ts:312-348 | the loop over the two buckets reaches the decision of looking at account, then address |
| `RateLimiter.Counters.RecordAuthAttempt` | src/auth/rate_limit.ts:371-405 | both buckets are counted whatever either says, and the first without room is the refusal |
| `RateLimiter.Counters.ResetAuthRateLimit` | src/auth/rate_limit.ts:438-444 | a success clears the account's bucket of that path and no other row |
| `Locking.RankInjective` | src/repo/rate_limits.ts:180-184 | two buckets have the same rank only if they are the same bucket |
| `Locking.LockOrderVisitsEach` | src/repo/rate_limits.ts:180-187 | the lock order is a permutation of the caller's positions |
| `Locking.LockOrderAscends` | src/repo/rate_limits.ts:180-187 | ranks never go down along it |
| `Locking.SomeTransactionCanStep` | src/repo/rate_limits.ts:293-312 | after any moves of any number of transactions over any bucket lists, while one is open some one can take its next lock or commit |
| `LockingProgress.EverybodyCommits` | src/repo/rate_limits.ts:293-312 | however they got where they are, there is an order in which every transaction gets each of its remaining locks, once, and commits |
| `LockingProgress.MovesMean` | src/repo/rate_limits.ts:293-312 | a transaction begins with no lock, gets the next one exactly when nobody else holds it, and commits with all of them |
| `Locking.CallerOrderDeadlocks` | src/repo/rate_limits.ts:172-179 | without that order two transactions over two buckets can block each other for good |
| `Locking.SweepDeadlocks` | src/repo/rate_limits.ts:405-421 | the sweep, whose delete follows no lock order, and a counting transaction over two of the same rows can block each other for good |
| `RateLimiter.AccountFirst` | src/repo/rate_limits.ts:78-78 | an account bucket is always locked before an address bucket |
| `RateBounds.CountPays` | src/repo/rate_limits.ts:219-253 | a counted attempt is paid out of the budget left to the end of the span |
| `RateBounds.SpanBound` | src/repo/rate_limits.ts:219-253 | with one rule and instants that never go back, any half-open span of length L counts at most (ceil(L/W)+1)*limit - 1 attempts of a bucket, or ceil(L/W)*limit when L is one more than whole windows, plus limit for each clear in it |
| `RateBounds.BoundIsReached` | src/repo/rate_limits.ts:219-253 | for every rule and a span of every length a run without clears meets that bound exactly |
| `RatePolicy.AddressLetThrough` | src/auth/rate_limit.ts:371-444 | requests one after the other: the routes let an address through no more often than the bound, whoever succeeds meanwhile |
| `RatePolicy.AccountLetThrough` | src/auth/rate_limit.ts:371-444 | requests one after the other: an account is let through no more often than the bound plus limit for each of its successes |
| `RateInterleaving.InterleavedBound` | src/auth/rate_limit.ts:371-444 | however the statements of any requests interleave, the requests let through against one bucket in a span are no more than the bound plus limit for each clear |
| `RateInterleaving.InterleavedAddressBound` | src/auth/rate_limit.ts:371-444 | and no more than the bound for an address, which nothing clears |
| `RateInterleaving.SweepsAreInvisible` | src/repo/rate_limits.ts:405-421 | with sweeps anywhere among the statements of any requests, counts and reads answer as if nothing had ever been pruned, and a reset differs only in whether it found a row whose window was over |
| `RatePolicy.PruningIsInvisible` | src/repo/rate_limits.ts:405-421 | requests and sweeps one after the other: every check and every record answers, and counts, as if nothing had ever been pruned |
| `RatePolicy.CheckForetellsRecord` | src/auth/rate_limit.ts:312-405 | a check allows, refuses and releases just as recording at the same instants would |
| `RatePolicy.CheckForetellsRecordIff` | src/auth/rate_limit.ts:312-405 | and the two name the same refusal if and only if both rules are ones the counter applies |
| `RateDecisions.CheckMeans` | src/auth/rate_limit.ts:312-348 | on the rows: the account is named if and only if its row is live and used up, the address if and only if only its own is, the release is the end of the refusing row, and the counters are the live rows, account first |
| `RateDecisions.RecordMeans` | src/auth/rate_limit.ts:371-405 | the same for a record, which counts on both rows whatever either says, leaves every other row alone, and reports both rows as it leaves them |
| `RateDecisions.UnavailableIff` | src/auth/rate_limit.ts:266-276 | the store-unavailable refusal, with no counters and no release, exactly when the store cannot be reached or a key or a rule is one its statements refuse |
| `Base32.Base32Encode` | src/auth/totp.ts:86-101 | the loop over an unmasked signed 32-bit buffer computes the encoding defined on bits |
| `Base32.Base32Decode` | src/auth/totp.ts:122-138 | so does decoding; a character whose upper case is outside the alphabet is the error |
| `Base32.WrapKeepsLowBits` | src/auth/totp.ts:86-101 | the buffer's wrap-around never touches a pending bit |
| `Base32.ShiftIn` | src/auth/totp.ts:91-92 | shifting a group in keeps the pending bits above it, however often the buffer has overflowed |
| `Base32.RoundTrip` | src/auth/totp.ts:86-138 | decoding what was encoded gives back every byte string, and the length is ceil(8n/5) |
| `Base32.IgnoredAnywhere` | src/auth/totp.ts:122-138 | padding and white space anywhere decode to the same bytes or the same error |
| `Base32.PaddingAnywhere` | src/auth/totp.ts:122-138 | that is a padding sign, a space, a tab or a line end |
| `Base32.LowerCaseAnywhere` | src/auth/totp.ts:122-138 | so does a lower-case letter |
| `Base32.ForeignIsRefused` | src/auth/totp.ts:122-138 | any other ASCII character is refused wherever it stands |
| `Base32.RefusedIff` | src/auth/totp.ts:122-138 | for every character that is not passed over, decoding fails if and only if its upper case leaves the alphabet or the rest fails without it |
| `Base32.FoldsAnywhere` | src/auth/totp.ts:122-138 | and otherwise it decodes as its upper case, wherever it stands |
| `Base32.SharpSIsAccepted` | src/auth/totp.ts:122-138 | so a character outside the alphabet is not always the error: a sharp s decodes as two letters |
| `Totp.StepsFollowTheClock` | src/auth/totp.ts:204-209 | a later instant never has an earlier step |
| `Totp.TotpCode` | src/auth/totp.ts:226-257 | shifts and ors read the 31-bit number at the digest's own offset, in range for every digest of at least 20 bytes |
| `Totp.TruncatedMeans` | src/auth/totp.ts:226-257 | from the byte the digest's last nibble points at, four bytes, highest first, without the top bit |
| `Totp.Rfc4226Example` | src/auth/totp.ts:226-257 | the digest worked through in section 5.4 of RFC 4226 gives 872921 |
| `Totp.CodeIsDigits` | src/auth/totp.ts:240-257 | a code has exactly the digits asked for, and they spell the truncation modulo the power of ten |
| `Totp.VerifyTotp` | src/auth/totp.ts:300-320 | the least matching step of the window, and none exactly when no step matches |
| `Totp.PrintedCodeNormalises` | src/auth/totp.ts:389-403 | a recovery code normalises to the same text with its dashes as without, and its bytes can be read back |
| `Totp.SeparatorAnywhere` | src/auth/totp.ts:360-403 | a space or a dash anywhere in what is typed makes no difference |
| `Totp.GroupsOfFour` | src/auth/totp.ts:360-403 | printed codes have a dash after every four characters |
| `TwoFactor.TwoFactorStore.StartChallenge` | src/repo/two_factor.ts:260-278 | a challenge is written for a member, once per digest, or nothing is |
| `TwoFactor.TwoFactorStore.ResolveSubject` | src/repo/two_factor.ts:422-433 | a challenge names somebody only while it is live |
| `TwoFactor.TwoFactorStore.StartEnrolment` | src/repo/two_factor.ts:455-499 | the secret becomes pending, except that a challenge may not replace a confirmed one |
| `TwoFactor.TwoFactorStore.ConfirmEnrolment` | src/repo/two_factor.ts:558-599 | confirmation, step, codes and challenge together, or none of them |
| `TwoFactor.TwoFactorStore.SpendFactor` | src/repo/two_factor.ts:794-822 | the guarded updates find their row exactly for a step that moves forward or a code not yet used |
| `TwoFactor.TwoFactorStore.RedeemChallenge` | src/repo/two_factor.ts:745-783 | factor and challenge are spent together; a refusal leaves both |
| `TwoFactor.TwoFactorStore.ClearSecondFactor` | src/repo/two_factor.ts:631-664 | enrolment and codes go together, and only for somebody else's account |
| `TwoFactor.TwoFactorStore.VerifySecondFactor` | src/auth/two_factor.ts:432-497 | what is redeemed is the factor the code stands for under the secret the first transaction read, spent by the second one on whatever the transactions committed in between have left |
| `FactorRuns.ChallengeSpentOnce` | src/repo/two_factor.ts:558-599 | over any interleaving a challenge yields at most one redemption or confirmation, and that one while live |
| `FactorRuns.AcceptedStepsIncrease` | src/repo/two_factor.ts:794-812 | while one secret stands every accepted step exceeds every earlier one, the confirming step included |
| `FactorRequests.MatchHasLeast` | src/auth/totp.ts:300-320 | a code that any step of the window matches is judged a one-time code, never a recovery code |
| `FactorRequests.RowsAre` | src/auth/two_factor.ts:338-462 | requests of two transactions each, interleaved with any others, leave the rows that the written transactions leave |
| `FactorRequests.JudgedAgainstStanding` | src/auth/two_factor.ts:432-462 | while nothing replaces it, the secret a code was judged against is the one it is spent on, and the accepted step is the least the code matches within the window of its instant |
| `FactorRequests.TotpBound` | src/repo/two_factor.ts:799-812 | of the codes both read and accepted while one secret stands, and judged between two instants, at most step(t1)-step(t0)+2w+1 are accepted, whatever the interleaving of reads and redemptions |
| `FactorPresented.PresentedIsAcceptedIff` | src/auth/two_factor.ts:432-462 | the converse for a request, whatever commits between its two transactions: with its challenge live and its user enrolled at both, the code is accepted if and only if the factor it stands for under the secret that was read, the earliest step of the window it comes from or else a recovery code, is a later step than the last or a code not yet used |
| `FactorPresented.PendingIsConfirmedIff` | src/auth/two_factor.ts:338-386 | and a pending secret is confirmed if and only if the code comes from some step of the secret that was read, the earliest past the first, and no two recovery codes are the same |
| `FactorRequests.ConfirmsWhatWasJudged` | src/auth/two_factor.ts:338-386 | if nothing replaced it between the two transactions, the secret an enrolment confirms is the one whose code was presented, and the step it records is the least that code matches |
| `FactorRequests.ConfirmsWhatWasJudgedIff` | src/auth/two_factor.ts:338-386 | exactly: as no secret is minted twice, the secret confirmed is the one read if and only if nothing replaced it between the two transactions |
| `FactorRequests.SpendsWhatWasJudgedIff` | src/auth/two_factor.ts:432-462 | and an accepted code is one of the secret it is spent on if and only if nothing replaced that secret since it was read |
| `FactorRequests.ConfirmsAnotherSecret` | src/auth/two_factor.ts:338-386 | from any tables with a pending secret, a code of it can confirm a new one that was asked for in between |
| `FactorRequests.RedeemsOnAnotherSecret` | src/auth/two_factor.ts:432-462 | from any tables with a factor and a challenge, a code of the old secret is accepted although a new one has been confirmed in between |
| `FactorWitnesses.UnprovedIsConfirmed` | src/auth/two_factor.ts:338-386 | a run of four events from empty tables that confirms a secret nothing has proved |
| `FactorWitnesses.OldCodeIsAccepted` | src/auth/two_factor.ts:432-462 | a run of nine events from empty tables that accepts a code of a secret already replaced and reconfirmed |
| `FactorRequests.OnlyStorableIsStored` | src/repo/two_factor.ts:455-499 | no run stores a secret outside the table's constraints |
| `FactorRuns.UnspentWasIssued` | src/repo/two_factor.ts:558-599 | a code that would be accepted was issued by the latest confirmation, and nothing has happened to it or the secret since |
| `FactorOutcomes.IssuedCodeIsAccepted` | src/repo/two_factor.ts:745-822 | the converse over runs: a code issued by the latest confirmation, and neither used nor its secret replaced since, is accepted with any live challenge of its owner; one fewer is left, the challenge is used up, and the code is then refused to every challenge |
| `FactorOutcomes.SpentCodeIsRefused` | src/repo/two_factor.ts:813-822 | however the run goes on, until the code is issued again |
| `FactorOutcomes.LaterStepIsAccepted` | src/repo/two_factor.ts:794-812 | with a live challenge a step is accepted if and only if it is later than the last one accepted since the secret was confirmed |
| `FactorOutcomes.LastStepWasAccepted` | src/repo/two_factor.ts:794-812 | and the last step in the row of anybody enrolled is one that was accepted, the last since the secret was confirmed |
| `FactorOutcomes.RedeemMeans` | src/repo/two_factor.ts:745-822 | on the rows: with a live challenge, refused unless enrolled, refused for a step not later than the last or a code not unused, and otherwise exactly that factor and that challenge are used up and the unused codes counted |
| `FactorOutcomes.ConfirmMeans` | src/repo/two_factor.ts:558-599 | on the rows: the pending secret confirmed at its step, exactly the issued codes and all of them unused, the challenge used up, nobody else's rows touched |
| `FactorOutcomes.EnrolMeans` | src/repo/two_factor.ts:455-499 | on the rows: a new pending secret for whoever acts, unless a challenge would replace a confirmed one, the user is no member, or the table's constraints refuse the secret |
| `FactorOutcomes.DeadChallengeMeans` | src/repo/two_factor.ts:422-433 | through a challenge that is not live nobody enrols, confirms or redeems anything |
| `FactorOutcomes.SpendableIff` | src/repo/two_factor.ts:794-822 | the guarded updates find their row exactly for a later step of somebody enrolled or a code not yet used |
| `FactorOutcomes.ClearMeans` | src/repo/two_factor.ts:631-664 | rows change only for somebody with the permission, other than the member concerned, and then exactly the enrolment and its codes go |
| `FactorRuns.CodeSpentOncePerIssue` | src/repo/two_factor.ts:813-822 | between two uses of a recovery code it was issued again |
| `FactorRuns.NoCodeOutlivesItsSecret` | src/repo/two_factor.ts:455-499 | a code accepted after a re-enrolment started or a factor was cleared was issued after it |
| `FactorRuns.ConfirmedSecretStays` | src/repo/two_factor.ts:464-470 | however many challenges are held, a confirmed secret stays until its owner's own session or somebody else with the permission acts |
| `FactorRuns.RefusalsLeaveNoTrace` | src/repo/two_factor.ts:733-736 | however many transactions of a run are refused or rolled back, its rows are those of the run without them |
| `SignIn.SessionStore.WriteSession` | src/repo/sessions.ts:258-276 | the one insert, or nothing |
| `SignIn.SessionStore.UseSessionToken` | src/repo/sessions.ts:303-317 | only a live session is found, and its last use is stamped |
| `SignIn.SessionStore.RevokeSessionByToken` | src/repo/sessions.ts:333-357 | only a live session is ended |
| `SignIn.SessionStore.ReplaceSession` | src/repo/sessions.ts:388-410 | the old identifier ends and the new one is written, or neither |
| `SignIn.SessionStore.RevokeSessionsOfUser` | src/repo/sessions.ts:469-492 | every live session of the person ends, and the number returned is how many those were |
| `SignIn.Authentication.DemandFor` | src/auth/two_factor.ts:165-183 | an enrolled person owes a code whatever the policy says; otherwise the policy decides |
| `SignIn.Authentication.SignIn` | src/auth/sessions.ts:210-265 | the ordered calls are the run: retire what was presented, read the demand, then a challenge or a session |
| `SignIn.SignInMeans` | src/auth/sessions.ts:210-265 | on the rows: with a confirmed factor a challenge to verify it, without one a challenge to enrol if the policy asks, otherwise a session that replaces the one presented if that was live and the same user's; a refused statement is an exception and the presented identifier is gone by then |
| `SessionRuns.EndedStaysEnded` | src/repo/sessions.ts:333-357 | no ended session becomes live again in any run |
| `SessionRuns.ChainHasOneLive` | src/auth/sessions.ts:249-262 | of the sessions descending by rotation from one, at most one has not ended |
| `SessionRuns.SessionProvenance` | src/auth/sessions.ts:210-326 | every session came from a sign-in that observed nothing owed, from a spent challenge, or by rotating a session live in the same step |
| `SessionRuns.OneSessionPerChallenge` | src/auth/two_factor.ts:573-591 | a challenge becomes at most one session |
| `SessionRuns.ChallengeProvenance` | src/auth/two_factor.ts:200-216 | every challenge was issued after an accepted password to somebody who owed a factor: one to verify if they had one, and one to enrol only where the policy asked and they had none |
| `SessionOutcomes.JudgedOwes` | src/auth/two_factor.ts:165-183 | over any interleaving a request stands where its readings put it: whoever had a confirmed factor when it was read verifies it, whoever had none enrols if the policy asked when it was read, and anybody else owes nothing |
| `SessionOutcomes.PasswordSignsIn` | src/auth/sessions.ts:210-265 | who owes nothing gets a session, in place of the one presented if that was live and the same user's, and it lasts until it expires or something ends it |
| `SessionOutcomes.OwingIsChallenged` | src/auth/two_factor.ts:200-216 | who owes a factor gets a live challenge of their own and no session |
| `SessionOutcomes.FactorSignsIn` | src/auth/two_factor.ts:573-591 | a good factor with a live challenge becomes a session that lasts |
| `SessionOutcomes.EnrolmentSignsIn` | src/auth/two_factor.ts:573-591 | and so does proving a pending secret with one |
| `SessionOutcomes.RotateMeans` | src/repo/sessions.ts:388-410 | on the rows: a live identifier is ended and a fresh one of the same user's written, both or neither |
| `SessionOutcomes.EndAllMeans` | src/repo/sessions.ts:469-492 | on the rows: exactly the user's live sessions are ended, and those are the ones counted |
| `SessionOutcomes.EndOneMeans` | src/repo/sessions.ts:333-357 | on the rows: exactly that session is ended, if it was live |
| `SessionOutcomes.UseMeans` | src/repo/sessions.ts:303-317 | on the rows: a use stamps a live session and changes nothing else |
| `SessionOutcomes.OthersMean` | src/repo/two_factor.ts:455-664 | asking for a secret, removing a factor and setting the policy change those and no session or request |
| `SessionOutcomes.ChangeMeans` | src/auth/sessions.ts:503-517 | beginning a change of one's own password ends exactly one's own live sessions |
| `SessionOutcomes.OutOfTurn` | src/auth/sessions.ts:210-265 | a transaction out of its request's turn does nothing |
| `SessionRuns.PresentedIsDead` | src/auth/sessions.ts:228-233 | the identifier presented to a sign-in whose password was accepted is dead from then on, whatever the outcome |
| `SessionRuns.PasswordChangeEndsSessions` | src/auth/sessions.ts:503-517 | once a person's new password is written every session held when the change began is dead |
| `SessionRuns.OldSessionLivesIff` | src/auth/sessions.ts:503-517 | of the sessions accepted under an older password version, unless something else ends them, exactly those started after the change had begun and not yet expired are live after it |
| `SessionRuns.SessionOutlivesChange` | src/auth/sessions.ts:503-517 | a run in which a sign-in accepted under the old password version starts a session between the ending and the writing, which is live under the new version |
| `TaskCycles.CycleCheck.Walk` | scripts/tasks.ts:465-478 | one call colours the task black or reports, keeps the stack, and recolours nothing |
| `TaskCycles.CycleCheck.Report` | scripts/tasks.ts:468-470 | the reported stretch of the stack, closed by the task itself, is a cycle |
| `TaskCycles.CycleCheck.CheckAll` | scripts/tasks.ts:464-479 | a cycle is reported if and only if the graph over known ids has one, every report is a real cycle, and each task is left exactly once |
| `TaskCycles.TopologicalIsAcyclic` | scripts/tasks.ts:464-479 | a listing in which every edge leads backwards rules every cycle out |
| `TaskParser.ReadBlockScalar` | scripts/tasks.ts:131-144 | the block's text and where it ends, trailing blank lines popped |
| `TaskParser.ReadBlockSequence` | scripts/tasks.ts:152-169 | the entries, with blank lines and comments passed over |
| `TaskParser.Round` | scripts/tasks.ts:101-173 | one round of the loop takes one token and does to the items what that token means |
| `TaskParser.ParseLines` | scripts/tasks.ts:97-180 | the advancing loop builds the items and errors defined on the document's tokens |
| `TaskText.RenderedKeyParses` | scripts/tasks.ts:83-83 | a rendered key line parses as the key and value it was made from |
| `TaskText.ListReads` | scripts/tasks.ts:145-151 | a rendered list reads back as the list |
| `TaskDocuments.DocumentReads` | scripts/tasks.ts:82-180 | what is written is what is read: any items with any values, on the opening line or below it, bare or between either kind of quotation marks, in lists, in block sequences with blank lines and comments between the entries, and in block texts, parse without an error to exactly those items and values |
| `TaskErrors.ErrorsMean` | scripts/tasks.ts:97-180 | everything reported is wrong and everything wrong is reported: a line is named with a problem if and only if a round of the parser begins on it and it is astray, no key line, outside any item, a second giving of its key, or an unclosed list |
| `TaskLines.KeyLineParts` | scripts/tasks.ts:83-83 | a key line is two characters of indentation or an opening, a name, a colon, and nothing or a space and the rest of one line, trimmed |
| `TaskLines.KeyLineParses` | scripts/tasks.ts:83-83 | and every such line is one |
| `TaskLines.ListItemIff` | scripts/tasks.ts:84-84 | a list item is four spaces, a dash, a space and the rest of one line |
| `TaskLines.TrimMeans` | scripts/tasks.ts:85-90 | trimming takes off the white space at both ends, all of it and nothing else |
| `TaskLines.OneLineIff` | scripts/tasks.ts:83-84 | the rest of a line ends at a line feed, a carriage return or one of the two Unicode separators |
| `TaskLines.KeyNameIff` | scripts/tasks.ts:83-83 | a key is a letter or an underscore followed by any of those and digits |
| `TaskLines.InertIff` | scripts/tasks.ts:85-86 | a blank line is white space throughout, a comment white space up to a number sign |
| `TaskDocuments.QuotedValueReads` | scripts/tasks.ts:88-95 | any text on one line, put between double quotation marks with its own escaped, is the value read |
| `TaskDocuments.QuotedEntryReads` | scripts/tasks.ts:145-151 | and so as an entry of a list, when it is not empty and no comma is in it |
| `TaskDocuments.QuotedItemReads` | scripts/tasks.ts:152-169 | and as an entry of a block sequence, whatever is in it |
| `TaskTokens.PrefixKept` | scripts/tasks.ts:97-180 | the tokens before a cut stay what they were when a hard line follows it: blocks and sequences end there |
| `TaskTokens.FieldWasGiven` | scripts/tasks.ts:175-176 | every field stands on the lines of the one token that gave it |
| `TaskTokens.InsertDiffers` | scripts/tasks.ts:97-180 | one more entry among the tokens is one more field of its item and nothing else |
| `TaskTokens.ReplaceDiffers` | scripts/tasks.ts:97-180 | an entry exchanged for another of its key exchanges that field and nothing else |
| `TaskDoc.Doc.RequireTask` | scripts/tasks.ts:1089-1093 | the first task of that id |
| `TaskDoc.Doc.FindAnchor` | scripts/tasks.ts:315-321 | the last line of any canonical scalar that sorts before the key |
| `TaskOrder.AnchorKeepsOrder` | scripts/tasks.ts:298-321 | a scalar the item lacks goes in below every key that comes before it in the canonical order and, when the item's keys stand in that order, above every one that comes after, save on the opening line |
| `TaskOrder.EditsDieIff` | scripts/tasks.ts:304-346 | an edit dies exactly over a key that is there in a form it cannot write: a scalar over anything else, a list over a block sequence, a note over anything but block text |
| `TaskDoc.Doc.SetScalar` | scripts/tasks.ts:304-321 | the lines after the edit, or none edited when it dies |
| `TaskDoc.Doc.SetFlowList` | scripts/tasks.ts:323-333 | the same for a list |
| `TaskDoc.Doc.AppendNote` | scripts/tasks.ts:335-346 | the same for a note |
| `TaskDoc.SavedLinesRead` | scripts/tasks.ts:348-360 | what was saved reads back line for line |
| `TaskSurgery.FlowListCommutes` | scripts/tasks.ts:323-333 | re-parsing gives the same items with exactly that list changed if and only if the key does not stand on the item's opening line; then every item also still opens with the same key |
| `TaskSurgery.ScalarCommutes` | scripts/tasks.ts:304-321 | the same for a scalar, put in after its anchor or written over |
| `TaskSurgery.OpenerOverwritten` | scripts/tasks.ts:304-333 | written over the opening line, the field always costs an item or an error |
| `TaskWitnesses.OpeningFieldLost` | scripts/tasks.ts:304-321 | whatever the names and values, setting the field a two-line task opens with reports success and leaves a document that no longer parses |
| `TaskWitnesses.StatusFirst` | scripts/tasks.ts:304-321 | one such document: a task written with its status first |
| `TaskSurgery.NoteExtends` | scripts/tasks.ts:335-346 | a further note changes only the notes, whose old text is a prefix of the new, wherever they stand |
| `TaskSurgery.NoteBegins` | scripts/tasks.ts:335-346 | a first note adds only the notes; their text is what was written, then any comment below the item that is indented as far as the block |
| `TaskSurgery.NoteAsWrittenIff` | scripts/tasks.ts:335-346 | the text of a first note is the one written if and only if every line below the item that the block runs on through is blank |
| `TaskWitnesses.CommentBecomesNotes` | scripts/tasks.ts:335-346 | any document with a deep comment below a task: its first note has another text than was written |
| `TaskSync.Invert` | scripts/tasks.ts:760-771 | the nested loops gather who depends on each task and count the references to none |
| `TaskSync.SyncBlocks` | scripts/tasks.ts:760-785 | edited, saved and re-read task by task, the document ends with every `blocks` up to date and nothing else changed; it dies exactly over a dangling reference or a block sequence it would have to rewrite, then with the tasks before that one done; it counts exactly the tasks that were not up to date and writes nothing when that is none; and it leaves a document that can be synced again |
| `TaskSync.SyncTwice` | scripts/tasks.ts:760-785 | run again, a sync that ran to its end succeeds and changes nothing |
| `TaskSyncSpec.SyncedIsInverse` | scripts/tasks.ts:752-785 | `blocks` is then exactly the inverse of `depends_on` |
| `TaskSyncSpec.SyncedIsSymmetric` | scripts/tasks.ts:445-462 | and the validator's symmetry checks find nothing |
| `TaskSyncSpec.SymmetricIff` | scripts/tasks.ts:445-462 | which they do if and only if `blocks` is the inverse of `depends_on` |
| `TaskSyncSpec.SyncedIsUpToDate` | scripts/tasks.ts:776-778 | every task is up to date after a sync |
| `TaskSyncSpec.SyncedDangling` | scripts/tasks.ts:760-771 | a sync leaves the number of references to no task as it was |
| `TaskSyncSpec.StaleCounts` | scripts/tasks.ts:776-785 | the changes counted are the tasks that were not up to date |

## Left out

- Ed25519, HMAC, SHA-256, scrypt, AES-GCM and base64 are parameters; a signature is whatever a `World` says it is, a digest is the value itself.
- Regular expressions: a kind's pattern is one predicate both checkers share, and the catalogue's lookup enters `Verify` as a predicate on the operation and its arguments.
- Files: modes, PEM parsing, durability of the directory after a rename, and torn writes of a key or a stamp.
- Text: lone surrogates and Unicode normalisation; strings are sequences of characters, so characters beyond the basic plane sort by code point in `TextOrder` (bucket ranks are ASCII, task ids are in practice).
- Postgres: a transaction is one atomic step and a failed one changes nothing; row-level security, tenants, permissions and the audit log are not modelled, and a permission decision is a parameter.
- Time: instants are whole milliseconds (nanoseconds for the agent); the double rounding in `totpStepAt` is taken as exact, and the database's clock is a parameter of each statement.
- ValidateValue: values are well-formed text, so the agent's refusal of a value that is not UTF-8 cannot arise.
- KindsAgreeIff: kinds are well formed, that is no declared field equals the zero value the generator renders an absent one as, patterns and choices belong to strings, and bounds are integers a double holds exactly.
- TaskSurgery.ScalarCommutes: values are plain, that is non-empty, trimmed, on one line, unquoted, and neither `|` nor opening a bracket, as statuses and dates are; a status given on the command line need not be.
- TaskSync.SyncBlocks: ids are distinct and plain and no task opens with `blocks`; the validator asks for more than the first two.
- Envelope parsing, lookup and performability in the catalogue: no state, nothing that spans operations.
- HTTP, cookies, CSRF, refusal rendering, the dashboard, the generators and the command line of the task tracker; its milestones, dates, status rendering and the other checks of `validate`.
- The published limits and the catalogue are finite tables.
