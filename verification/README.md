# gpg-agent: a model of its caches, connections and key formats

This project models the parts of gpg-agent whose correctness depends on more than one function: the
passphrase cache and its timer queue, the manager of the connections to a helper daemon, the
recursive lock around the pinentry, the in-place editing of canonical S-expressions, the OpenPGP
protection of secret keys, the SSH wire format with the key types built on it, the sshcontrol file,
and the expansion of key descriptions.  `dafny verify dfyconfig.toml` checks all of it.

Code that changes things in place is modelled by classes, arrays and loops, and each such procedure is
proved against a function on values; what the code promises is then proved about those functions.

| files | what they model |
|---|---|
| `CanonicalSexp`, `EccFixup`, `KeyToCard` | canonical S-expressions in byte buffers and two edits of them |
| `TimerQueue`, `TimerLists`, `CacheSlots`, `CacheModel`, `PassphraseCache` | the cache: deadlines as deltas, the linked lists, the slots, its steps and runs on values, the operations in memory |
| `CacheLifetime`, `CacheOrigin`, `CacheExpiry` | what the cache remembers, where its answers come from, what it forgets |
| `DaemonProtocol`, `DaemonConnections`, `DaemonManager` | the connection manager as a transition system, what it promises a session, and its procedures |
| `PinentryLock`, `Pinentry` | the pinentry lock as a transition system, and the dialogs |
| `OpenPgpFormat`, `OpenPgpProtection`, `OpenPgpAcceptance`, `OpenPgpProcedures` | key parameters, protection and retries, which passphrases are let through, the procedures |
| `SshWire`, `SshTable`, `SshConstruct`, `SshKeys`, `SshSecretKeys`, `SshFraming`, `SshKeyStream` | SSH data types, key types, public and secret keys, what reading takes from a stream, the procedures |
| `SshControlFormat`, `SshControlFile` | the sshcontrol file |
| `Description` | the two-pass expander |
| `Wrappers`, `Bytes`, `BigEndian`, `Buffers` | shared vocabulary |

Modelling conventions:

- An octet is a character below 256, so protocol tokens can be written as literals; C strings end at
  the first NUL.
- Clocks, the results of calls into other libraries, of the pinentry and of callbacks are parameters.
  Ciphers, digests and key conversion are functions; the only laws used are that decryption undoes
  encryption and keeps lengths, and that a SHA-1 digest has 20 octets.
- A step of a protocol is what one thread does under the lock, or without giving up control.
  Contexts get a new identity each time one is allocated.

Where the promise of the code does not hold for all inputs, the code is modelled as it is, and the exact
condition is proved:

- Updating a pending cache item clears its link and cuts off the items behind it
  (`CacheModel.CoverageAfterUpdate`, `CacheModel.CoveredThroughoutIff`, `PassphraseCache.LostTimer`).
- In the second in which the maximum lifetime ends it counts as no maximum
  (`CacheModel.MaximumRespected`, `CacheModel.MaximumMissed`).
- A start that insists on a socket can lose the primary connection, and nothing else is ever lost
  (`DaemonProtocol.NothingIsLostUnless`, `DaemonProtocol.OnlyPrimaryIsLost`,
  `DaemonProtocol.SocketLosesPrimary`).
- A failed mutex operation, flush or allocation in a first start leaves the pinentry lock in
  disagreement with its counter (`PinentryLock.StepKeepsUnless`); the mutex failure is even reported as
  success.
- A passphrase turned down by the key test is reported as bad like any other, but it has already
  replaced the encrypted value, so no later attempt can succeed
  (`OpenPgpProtection.BadPassphraseIsForgottenIff`, `OpenPgpProtection.TurnedDownExample`).
- If the fingerprint cannot be computed at first but can later, the second pass of the expander writes
  more than the first one counted (`Description.PassesAgreeIff`, `Description.OverrunExample`).
- Repairing an ECC key twice drops a second leading zero (`EccFixup.FixParamsTwice`).
- A timestamp of more than ten digits does not give a canonical key (`KeyToCard.SpliceIsCanonical`).

Where code and comments disagree, the code is followed: an invalid caching time in sshcontrol is
reported as "assuming 0", but the number read is used (`agent/command-ssh.c:1001-1006`).

## Model

| member | source | states |
|---|---|---|
| `CanonicalSexp.EncodingIsPrefixFree` | common/sexp-parse.h:36-49 | two trees whose encodings start the same bytes are the same tree and leave the same rest, so a buffer holds at most one S-expression |
| `CanonicalSexp.EncodingExamples` | common/sexp-parse.h:36-49 | the octets of a long atom, of a list with an empty atom and of the empty list |
| `CanonicalSexp.SNext` | common/sexp-parse.h:36-49 | the digit loop returns the announced length and the position of the data, or zero without moving when there is no number, the number is zero or no colon follows |
| `CanonicalSexp.NextLengthAtAtom` | common/sexp-parse.h:36-49 | at an encoded atom the reader finds exactly its data; an empty atom counts as a failure |
| `EccFixup.FixupWhenEccPrivateKey` | agent/sexp-secret.c:28-120 | for every buffer that holds a canonical S-expression: the outcome is that of the repair on trees, the buffer holds the canonical encoding of the repaired tree, the new length is exact, the freed tail is zero and nothing else moves, also on error returns after an earlier edit |
| `EccFixup.WellFormedKeyIsRepaired` | agent/sexp-secret.c:55-117 | a well-formed ECC key is always repaired; `d` loses one leading zero unless the last curve before it is Ed25519, Ed448 or X448, and every other element is unchanged |
| `EccFixup.FixParamsPointwise` | agent/sexp-secret.c:55-117 | each parameter keeps its place and name, and only an affected `d` changes |
| `EccFixup.RepairedIff` | agent/sexp-secret.c:55-117 | the repair ends without an error if and only if every parameter is a list of two nonempty atoms and every curve name has at most 255 octets |
| `EccFixup.StopsAt` | agent/sexp-secret.c:55-114 | otherwise the parameters in front of the first of another shape are repaired and those behind it stay |
| `EccFixup.StopsHere` | agent/sexp-secret.c:57-113 | a parameter of another shape stays as it is, but for a `d` with a leading zero that is followed by more than its value |
| `EccFixup.OthersAreLeftAlone` | agent/sexp-secret.c:36-53 | shadowed keys and keys of other algorithms are in order, other tags are unknown, no tag is an error, and none of them is changed |
| `EccFixup.FixParamsTwice` | agent/sexp-secret.c:55-114 | for every list of well-formed parameters: repairing them a second time changes nothing if and only if no `d` from which a zero is dropped starts with two zeros or consists of one |
| `EccFixup.FixupParams` | agent/sexp-secret.c:55-114 | the cursor loop rewrites the parameter region to the encoding of the repaired parameters, shrinking also when the length prefix loses a digit |
| `EccFixup.FixupParam` | agent/sexp-secret.c:57-113 | one round rewrites one parameter in place and keeps the curve name for the next |
| `EccFixup.DropLeadingZero` | agent/sexp-secret.c:89-98 | print, move and wipe leave the shorter atom, the bytes behind it moved up and zeros at the end |
| `KeyToCard.SpliceIsCanonical` | agent/command.c:3382-3415 | the bytes are the canonical encoding of the key list with `created-at` and, if given, `ecdh-params` appended if and only if the timestamp is below 10^10 |
| `KeyToCard.SplicedKeyIs` | agent/command.c:3382-3415 | for the ten digits that denote the timestamp, the result is the encoding of the key list with exactly these two attributes |
| `KeyToCard.PaddedValue` | agent/command.c:3400-3403 | the text printed for a timestamp denotes it |
| `KeyToCard.AppendAttributes` | agent/command.c:3382-3415 | every write stays inside the allocated buffer and the length is exact for every timestamp and every parameter |
| `KeyToCard.PrintTimestamp` | agent/command.c:3400-3403 | the timestamp text overwrites the last bracket and the length grows by 28 |
| `KeyToCard.PrintEcdh` | agent/command.c:3405-3415 | the parameter text, the octets and two brackets overwrite the last bracket |
| `TimerQueue.InsertSpec` | agent/cache.c:222-264 | insertion keeps the order and non-negative deltas; away from the head every deadline stays, at the head all move by one common amount of at most half a second; the new deadline is the requested one plus the fraction of the timeout |
| `TimerQueue.InsertPlaces` | agent/cache.c:222-264 | where the new item goes: to the head, with the timeout set to its request and the others rounded to the nearest second, if the queue is empty or the timeout is not shorter; otherwise behind exactly the items that are due no later |
| `TimerQueue.DrainSpec` | agent/cache.c:483-490 | draining any number of pending items shifts the old deadlines by one rounding in total and meets every request within one second |
| `TimerQueue.DrainContents` | agent/cache.c:483-490 | draining loses and adds nothing: the active items become the old ones and the pending ones, as multisets |
| `TimerQueue.PassSpec` | agent/cache.c:424-510 | one expiration pass: pending empty, active = old − popped head + requests as multisets, head delta zero, deltas non-negative, old deadlines moved by the lateness plus at most half a second, requests met within one second |
| `TimerQueue.RemoveDeadlines` | agent/cache.c:266-290 | taking an item off the active list, with its delta added to the next one, keeps the deadline of every other item |
| `TimerLists.TimerLists.InsertToTimerList` | agent/cache.c:222-264 | the linked list after the call is the queue insertion of its old contents |
| `TimerLists.TimerLists.RemoveFromTimerList` | agent/cache.c:266-290 | the item leaves the active list with its delta added to its successor; for a pending item the cleared link cuts off everything behind it |
| `TimerLists.TimerLists.RemoveFromTimerListNew` | agent/cache.c:292-313 | the item leaves the pending list |
| `TimerLists.TimerLists.InsertToTimerListNew` | agent/cache.c:214-219 | the item becomes the head of the pending list |
| `TimerLists.TimerLists.Detach` | agent/cache.c:377-381 | both removals together, with all deltas: the schedule is the old one without the item on the active list, its delta added to the next, and the pending list up to the item |
| `TimerLists.TimerLists.DrainPending` | agent/cache.c:483-490 | the loop moves every pending item to its place: the lists are the drained queue |
| `TimerLists.TimerLists.ArmHead` | agent/cache.c:491-503 | the head delta moves into the timeout and the absolute time of its end is remembered |
| `TimerLists.TimerLists.PopActive` | agent/cache.c:450-451 | the head of the active list is unlinked |
| `TimerLists.TimerLists.SchedIsValid` | agent/cache.c:214-313 | the linked lists of every reachable state are a valid schedule of the same items, so what is proved about schedules holds of them |
| `CacheSlots.PaddedLengthFits` | agent/cache.c:164-211 | the padded size is a multiple of 32 and has room for the string, its terminator and the key-wrap overhead |
| `CacheSlots.StoredDataIsReadBack` | agent/cache.c:164-211 | decrypting what was stored gives the string |
| `CacheSlots.StoredIsEncrypted` | agent/cache.c:164-211 | what is kept is the ciphertext of the string, its terminator and padding, with the length of all of it |
| `CacheSlots.LookupIff` | agent/cache.c:704-716 | a get finds something if and only if a slot with data has its key and, but for a PIN, its restriction; a user or nonce request needs a slot of its own mode or of any mode |
| `CacheSlots.FoundAt` | agent/cache.c:704-716 | what is found is the data of the first slot that may answer |
| `CacheSlots.PutIs` | agent/cache.c:596-660 | a put overwrites the first slot it is about, which keeps its restriction, or adds one in front; without data that slot loses its own |
| `CacheSlots.PutTouches` | agent/cache.c:596-660 | a put changes at most one slot, of its own key and restriction |
| `CacheSlots.PutThenGet` | agent/cache.c:596-668 | a lookup with the mode, key and restriction of a put finds what was put |
| `CacheModel.NeverExpires` | agent/cache.c:315-371 | an item with data gets no timer if and only if it is a PIN, or it has no lifetime and its mode has no maximum or reaches it in this very second |
| `CacheModel.MaximumRespected` | agent/cache.c:343-371 | the maximum lifetime is respected if and only if the computation does not fall into the second in which it ends with a lifetime other than zero |
| `CacheModel.MaximumMissed` | agent/cache.c:343-371 | concrete case: in that second the item never expires, one second later it expires at once |
| `CacheModel.CoverageAfterUpdate` | agent/cache.c:374-388 | an update keeps every expirable item on a timer list if and only if it cuts no expirable item off the pending list and gives the updated item a timer when it can expire |
| `CacheModel.StepCovers` | agent/cache.c:424-751 | from a covered state a put, get, flush or expiration pass leads to a covered one if and only if it is safe: it updates no pending item with an expirable one behind it, and is no get in the second in which the maximum of an item without own lifetime ends |
| `CacheModel.CoveredThroughoutIff` | agent/cache.c:214-751 | in every run every item that is supposed to expire has a timer in all states if and only if that holds at the start and every step is safe in the state it is taken from |
| `CacheModel.SpacedRunIsCovered` | agent/cache.c:214-751 | a guard on the operations alone: coverage is kept if an expiration pass or a complete flush lies between any two puts or gets and no get falls into the second in which a maximum ends |
| `CacheModel.UpdateDeadlines` | agent/cache.c:374-388 | updating an item moves the deadline of no other active item |
| `CacheModel.ExpireDeadlines` | agent/cache.c:424-510 | an expiration pass of the cache drains the pending list, moves what stays active by its lateness and at most half a second, and meets every request, also that of a popped item with data, within one second |
| `CacheLifetime.StepEvent` | agent/cache.c:424-751 | every step changes the slots by one event that is a function of the state and the operation: nothing else is stored, taken or dropped |
| `CacheLifetime.SparingRunRemembers` | agent/cache.c:513-751 | a run whose steps leave a key alone does not change what a get for it finds |
| `CacheLifetime.PutThenSpared` | agent/cache.c:548-751 | a put that stores, followed by any steps that leave its key alone: the lookup finds what was put |
| `CacheLifetime.PoppedIsOverdue` | agent/cache.c:448-451 | a pass pops an item only when its deadline has passed |
| `CacheLifetime.PassLasts` | agent/cache.c:424-510 | a pass that comes before the deadline of an item does not pop it and brings its deadline forward by at most half a second |
| `CacheLifetime.PutIsKept` | agent/cache.c:548-751 | a put is found again after any operations on other keys and any expiration passes that come within its lifetime, less half a second for each earlier pass; the condition speaks of the operations only |
| `CacheLifetime.TimerIsLost` | agent/cache.c:266-290 | on every cipher and option set: two puts and a get of the second leave the first without a timer |
| `CacheOrigin.FoundWasPut` | agent/cache.c:548-751 | in every run from an empty cache what a get finds was put before under the same key, for the same restriction unless a PIN is concerned, and with a mode that may answer |
| `CacheOrigin.NothingPutNothingFound` | agent/cache.c:548-751 | a session gets nothing if nothing was put under the key for its restriction |
| `CacheExpiry.LifetimeOfMode` | agent/cache.c:315-371 | the lifetime of a put, mode by mode, in terms of the options: the time asked for or the default, cut at the maximum |
| `CacheExpiry.DroppedPuts` | agent/cache.c:582-594 | exactly which puts are dropped: ignored ones and those with data whose default lifetime is zero |
| `CacheExpiry.PutIsScheduled` | agent/cache.c:618-656 | a put that stores makes its item the head of the pending list with its lifetime as the delay, or leaves it without a timer |
| `CacheExpiry.GetRestarts` | agent/cache.c:704-727 | a hit restarts the timer of its item unless that is in data mode; a miss changes nothing |
| `CacheExpiry.DelayIsLess` | agent/cache.c:333-371 | the delay is the lesser of the own lifetime and what is left until the maximum, zero after it, and half an hour for an unused slot |
| `CacheExpiry.FlushForgets` | agent/cache.c:513-544 | a flush takes the data of every slot, or of the PINs alone, and nothing else |
| `CacheExpiry.FlushedAreUnused` | agent/cache.c:525-538 | every item that a complete flush empties, but for PINs, waits for half an hour although each update cuts the pending list |
| `CacheExpiry.PopsWhenOverdue` | agent/cache.c:438-448 | on an armed list a pass pops the head if and only if some deadline has passed |
| `CacheExpiry.ExpireTakes` | agent/cache.c:448-478 | a pass takes the data of the popped item, or the item if it had none, and changes no other slot |
| `CacheExpiry.PassMeans` | agent/cache.c:424-510 | the whole pass on absolute deadlines, with the conditions written out: pops, lateness, rounding of at most half a second, and every request met within a second |
| `CacheExpiry.EverythingExpires` | agent/cache.c:424-510 | from a covered state, enough passes that come after all deadlines leave no data that is supposed to expire |
| `PassphraseCache.Cache.ComputeExpiration` | agent/cache.c:315-371 | stores delay and reason as specified for every mode, maximum and lifetime |
| `PassphraseCache.Cache.UpdateExpiration` | agent/cache.c:374-388 | the schedule becomes the one with the item taken off its list, everything behind it on the pending list cut off, and the item pending with its new delay if it has one; listed items stay in the cache |
| `PassphraseCache.Cache.Put` | agent/cache.c:548-668 | the whole state, slots and schedule, takes the put step of the model, which names replacing, forgetting, adding and refusing; the invariant holds, and success is reported unless the cipher failed |
| `PassphraseCache.Cache.Get` | agent/cache.c:673-751 | returns the data of the first matching slot; no slot changes, and the schedule restarts the timer of that item unless its mode is the data mode |
| `PassphraseCache.Cache.Flush` | agent/cache.c:513-544 | every slot loses its data, or only PINs do if asked so, and the timer of each item concerned is computed anew; the invariant holds |
| `PassphraseCache.Cache.Expire` | agent/cache.c:424-510 | the whole state takes the expiration step of the model: the popped item loses its data or leaves the chain and is freed, the pending ones are inserted, and the time returned is that until the remembered absolute time |
| `PassphraseCache.Cache.PopExpired` | agent/cache.c:448-478 | the popped item loses its data and is pending for 1800 seconds as an unused slot, or is unlinked and freed; the rest of the state is unchanged |
| `PassphraseCache.Cache.FindItem` | agent/cache.c:596-616 | the search loop finds the first matching item of the chain |
| `PassphraseCache.Run` | agent/cache.c:214-751 | every run of put, get, flush and expire keeps the invariant (lists acyclic, duplicate-free and disjoint, listed items on the chain, no PIN listed, nothing freed reachable) and is a run of the model: the trace runs from the state before to the state after |
| `PassphraseCache.CoveredRun` | agent/cache.c:214-751 | from any covered cache: every state of the run is covered if and only if every step is safe, and the last one is if the operations are spaced and no get falls into the second of a maximum |
| `PassphraseCache.SpacedRun` | agent/cache.c:214-751 | from an empty cache every run of spaced operations with no get in the second of a maximum ends with a timer for everything that is supposed to expire |
| `PassphraseCache.RunStep` | agent/cache.c:214-751 | one operation takes the step of the model |
| `PassphraseCache.PutRunGet` | agent/cache.c:548-751 | a put that stores, any operations and a get in memory: the get returns the data put if no step of the trace touched its key, and also if the operations are about other keys and the passes come within the lifetime |
| `PassphraseCache.RunGet` | agent/cache.c:548-751 | in memory, the other way round: what a get returns after any operations on a new cache is the string of one of the puts, under its key and restriction, and nothing if there was none |
| `PassphraseCache.LostTimer` | agent/cache.c:266-290 | concrete run of put, put and get from an empty cache after which an item with data has no timer |
| `DaemonProtocol.StepKeeps` | agent/call-daemon.c:102-315 | each atomic step keeps: no shared context, a parked primary is live and unheld, the list holds exactly the session records once, nothing held is released, nothing is released twice |
| `DaemonProtocol.EveryRunIsSafe` | agent/call-daemon.c:102-633 | the same for every interleaving of sessions and daemon death |
| `DaemonProtocol.RecordIsListed` | agent/call-daemon.c:616-633 | a session record is always on the list, so neither BUG call is reached |
| `DaemonProtocol.NothingIsLostUnless` | agent/call-daemon.c:471-497 | a step leaves every live context with a holder, parked or about to be released if and only if it is not a pass that gets a connection for a session that still has one |
| `DaemonProtocol.OnlyPrimaryIsLost` | agent/call-daemon.c:485-495 | in every run such a pass insisted on a socket, and what it loses is the primary connection |
| `DaemonProtocol.NoContextIsLost` | agent/call-daemon.c:102-633 | in every run that never insists on a socket each unreleased context is held by exactly one session, or is the parked primary, or belongs to a start about to release it |
| `DaemonProtocol.SocketLosesPrimary` | agent/call-daemon.c:485-495 | concrete run: insisting on a socket leaves the primary connection open with nobody to release it |
| `DaemonProtocol.SecondPassIsTheLast` | agent/call-daemon.c:485-495 | a start that insists on a socket goes round at most twice, whatever other sessions do, unless the daemon ends |
| `DaemonProtocol.PrimaryStays` | agent/call-daemon.c:279-442 | only the end of the daemon takes the primary connection away |
| `DaemonConnections.StartOutcome` | agent/call-daemon.c:237-247 | a start of a session with a context succeeds at once, one that is in use without a context is refused, any other goes on to a pass |
| `DaemonConnections.PassOutcome` | agent/call-daemon.c:277-489 | exactly when a pass fails, when it gets the new context and when the parked one, in terms of socket, primary and the answer of the library |
| `DaemonConnections.PassShares` | agent/call-daemon.c:277-442 | what a pass leaves for others: only a launched connection becomes the primary and decides on the socket, a reused one is not parked any more |
| `DaemonConnections.EveryConnectionWasMade` | agent/call-daemon.c:249-489 | in every run each held or primary context was connected by a pass, or that pass could not name the home directory; never one whose connection was refused |
| `DaemonConnections.UseIsKept` | agent/call-daemon.c:102-196 | no step of another session or of the watcher takes away or releases a context in use |
| `DaemonConnections.UseIsKeptInRun` | agent/call-daemon.c:102-315 | the same for any number of such steps |
| `DaemonConnections.SocketIsNotPrimary` | agent/call-daemon.c:485-495 | in every run a start that insisted on a socket ends in use of a connection other than the primary, and goes round again exactly if it got the primary |
| `DaemonConnections.UnlockOutcome` | agent/call-daemon.c:164-196 | an unlock ends the use and releases the context exactly if it was invalidated |
| `DaemonConnections.ResetOutcome` | agent/call-daemon.c:571-633 | a reset drops the record, parks the primary connection and releases any other |
| `DaemonConnections.DeathInvalidates` | agent/call-daemon.c:127-141 | when the daemon ends every idle session loses its context, every session in use keeps it marked as invalid, and primary and socket are forgotten |
| `DaemonConnections.DeathEndsUse` | agent/call-daemon.c:127-196 | a session in use at that time gives its context back when it unlocks |
| `DaemonManager.Manager.WaitChildThread` | agent/call-daemon.c:119-149 | the loop over the records and the release of a parked primary are the death step |
| `DaemonManager.Manager.DaemonUnlock` | agent/call-daemon.c:164-196 | releases an invalidated context, passes the error code through and reports a record that was not in use |
| `DaemonManager.Manager.Begin` | agent/call-daemon.c:237-247 | the checks in front of the label are the start step; the answer is success for a session with a context, an internal error for one marked in use without one, and otherwise the pass follows |
| `DaemonManager.Manager.Pass` | agent/call-daemon.c:249-489 | one pass under the lock is the protocol step, for every outcome of the library calls; it fails exactly when nothing may be reused and the connection or launch fails, or the only daemon takes no second connection |
| `DaemonManager.Manager.Connect` | agent/call-daemon.c:279-442 | which connection is chosen and what that does to the shared records |
| `DaemonManager.Manager.Compare` | agent/call-daemon.c:491-495 | the comparison with the primary after the lock was released |
| `DaemonManager.Manager.UnlockAndRetry` | agent/call-daemon.c:491-495 | unlock and go back to the label |
| `DaemonManager.Manager.GiveUp` | agent/call-daemon.c:474-482 | the error exit unlocks the record and releases the new context |
| `DaemonManager.Manager.Unlink` | agent/call-daemon.c:616-630 | the search loop unlinks the record; both BUG branches are dead |
| `DaemonManager.Manager.AgentResetDaemon` | agent/call-daemon.c:571-639 | the primary is parked, a secondary connection closed, the record removed |
| `PinentryLock.StepKeepsUnless` | agent/call-pinentry.c:310-412 | lock, counters and connection stay in agreement if and only if the step is not a first start in which the mutex operation, the flush or the allocation fails |
| `PinentryLock.EveryRunIsSafe` | agent/call-pinentry.c:191-412 | in every other run at most one session is active, the connection exists exactly then, and every other connection was released once |
| `PinentryLock.NoStaleConnection` | agent/call-pinentry.c:347-348 | the early exit for an existing connection is never taken |
| `PinentryLock.OthersWait` | agent/call-pinentry.c:325-345 | while one session has the pinentry no step of another changes anything |
| `PinentryLock.AfterFailedFlush` | agent/call-pinentry.c:357-370 | after a failed flush the lock stays taken, and the next start of the session reports success without a connection |
| `PinentryLock.StartOutcome` | agent/call-pinentry.c:325-412 | a first start reports success if and only if the pinentry started, and then has lock and connection; otherwise all is as before and a refused connection is released |
| `PinentryLock.NestedStart` | agent/call-pinentry.c:325-331 | a session that has the pinentry gets it again at once |
| `PinentryLock.UnlockOutcome` | agent/call-pinentry.c:191-204 | only the last unlock gives up lock and connection |
| `Pinentry.AcceptedIff` | agent/call-pinentry.c:1551-1645 | the retry loop succeeds if and only if some round is accepted, all before it were rejected, and fewer of those counted than tries were left |
| `Pinentry.RoundAcceptedIff` | agent/call-pinentry.c:1551-1632 | a round is accepted if and only if the commands were taken, a passphrase was obtained, and it was generated or has the digits asked for and passes the check |
| `Pinentry.RoundRejectedIff` | agent/call-pinentry.c:1585-1632 | exactly when another round follows |
| `Pinentry.RoundAbortsWith` | agent/call-pinentry.c:1565-1622 | exactly when a round ends the dialog with an error, and with which code |
| `Pinentry.AnswerIs` | agent/call-pinentry.c:1551-1645 | how the loop ends in all cases, after how many rejected rounds, with which answer and how many tries counted |
| `Pinentry.TriesAreBounded` | agent/call-pinentry.c:1551-1642 | the tries counted never exceed those allowed |
| `Pinentry.AskPinSucceedsOnlyIf` | agent/call-pinentry.c:1475-1645 | a PIN dialog that asks the user succeeds only with a started pinentry, accepted commands and an accepted passphrase within the tries left |
| `Pinentry.GetPassphraseSucceedsOnlyIf` | agent/call-pinentry.c:1713-1919 | the same for a passphrase dialog |
| `Pinentry.ConfirmedOnlyIf` | agent/call-pinentry.c:1949-2016 | a confirmation is given if and only if the pinentry was started, took all commands and confirmed |
| `Pinentry.SetupRefused` | agent/call-pinentry.c:1475-1549 | a command that is refused and not tolerated gives the dialog its answer |
| `Pinentry.SetupAccepted` | agent/call-pinentry.c:1475-1800 | with all commands accepted the answer is that of the loop, of the legacy query, of the constraints or of the confirmation |
| `Pinentry.DialogRefused` | agent/call-pinentry.c:1459-1477 | a bad request is answered as such, a lock that was not to be had with a timeout, a failed start with its error |
| `Pinentry.NobodyToAsk` | agent/call-pinentry.c:1668-1711 | what batch runs and clients in the other modes are answered |
| `Pinentry.StartedAndLeft` | agent/call-pinentry.c:191-412 | a reported start is undone by one unlock, whatever balanced work lies between |
| `Pinentry.Agent.StartPinentry` | agent/call-pinentry.c:310-412 | the start step, with its exits |
| `Pinentry.Agent.UnlockPinentry` | agent/call-pinentry.c:149-204 | the unlock step: the last unlock gives back lock and connection |
| `Pinentry.Agent.AskUntilAccepted` | agent/call-pinentry.c:1551-1645 | the loop answers as specified, counts tries, and leaves lock and counters as they were across nested dialogs |
| `Pinentry.Agent.Run` | agent/call-pinentry.c:1475-2016 | every return path of the three dialogs, with every nesting in callbacks, restores lock, connection and all counters, and answers as specified; a session that does not hold the lock gets it only when it is free, and otherwise times out |
| `OpenPgpFormat.ScanAllIff` | agent/cvt-openpgp.c:378-406 | a list of parameters written in the external form is read back as it was if and only if each fits: numbers of at most 16384 bits, ECC octets below 16384 bits |
| `OpenPgpFormat.ScanAllFit` | agent/cvt-openpgp.c:378-406 | parameters that fit are read back one after the other and what follows them is left unread |
| `OpenPgpFormat.ScanDoesNotFit` | agent/cvt-openpgp.c:378-406 | a parameter that does not fit is never read from any buffer |
| `OpenPgpFormat.ScanReads` | agent/cvt-openpgp.c:378-406 | from any buffer a parameter is read if and only if its header is within the limit and all the octets it announces are there |
| `OpenPgpFormat.ScanIsInverse` | agent/cvt-openpgp.c:378-406 | an elliptic curve value is read from a buffer if and only if the buffer starts with its external form and it fits |
| `OpenPgpProtection.RoundTripIff` | agent/cvt-openpgp.c:1176-1274 | protecting and unprotecting with the same passphrase restores the array if and only if every secret parameter fits |
| `OpenPgpProtection.RoundTripReads` | agent/cvt-openpgp.c:602-622 | then exactly the 20 digest octets stay unread and the outcome is that of the original key |
| `OpenPgpProtection.RejectionLeavesArrayIff` | agent/cvt-openpgp.c:602-637 | a passphrase rejected by checksum or scan leaves the array as prepared if and only if it held one encrypted value or at most one parameter had been stored |
| `OpenPgpProtection.RetriesAreIndependent` | agent/cvt-openpgp.c:725-753 | with one encrypted value an attempt after any number of rejected ones does what it would have done first |
| `OpenPgpProtection.TestRejectionIsFinal` | agent/cvt-openpgp.c:710-724 | a passphrase that opens the value is answered as bad if and only if the key test turns the key down, and every later attempt, with any passphrase, is answered with a bad key |
| `OpenPgpProtection.BadPassphraseIsForgottenIff` | agent/cvt-openpgp.c:602-724 | with one encrypted value: after an answer of a bad passphrase all further attempts do what they would have done first if and only if it was the checksum or a parameter that failed, not the key test |
| `OpenPgpProtection.RightPassphraseTurnedDown` | agent/cvt-openpgp.c:710-724 | for every key whose parameters fit and fail the key test, the passphrase it was protected with is answered first as bad and then with a bad key |
| `OpenPgpProtection.TurnedDownExample` | agent/cvt-openpgp.c:710-724 | a concrete key and cipher for which this happens |
| `OpenPgpAcceptance.DigestDecides` | agent/cvt-openpgp.c:545-600 | with a digest: unless the last 20 decrypted octets are the digest of the others, the passphrase is called bad and the array is as prepared |
| `OpenPgpAcceptance.SumDecides` | agent/cvt-openpgp.c:577-600 | with a checksum: the same unless the plain sum modulo 65536 is what the last two octets of the decrypted or of the encrypted value say |
| `OpenPgpAcceptance.MatchIsLetThrough` | agent/cvt-openpgp.c:545-611 | a passphrase that matches is let through and the parameters are read |
| `OpenPgpAcceptance.SucceedsIff` | agent/cvt-openpgp.c:413-728 | an attempt succeeds with a key if and only if it opens the value and the public and decrypted parameters convert to that key, which passes the test |
| `OpenPgpAcceptance.ReachesIff` | agent/cvt-openpgp.c:318-540 | exactly which arrays get as far as the encrypted value, with the parameter counts of each algorithm |
| `OpenPgpAcceptance.NotReached` | agent/cvt-openpgp.c:318-540 | any other array is refused without blaming the passphrase and left as prepared |
| `OpenPgpAcceptance.EarlyErrors` | agent/cvt-openpgp.c:318-540 | which error every other array is answered with, none of which depends on the passphrase |
| `OpenPgpAcceptance.ProtectedIs` | agent/cvt-openpgp.c:1176-1274 | what is encrypted is the external form of the secret parameters followed by its digest |
| `OpenPgpAcceptance.ChecksumIsSum` | agent/cvt-openpgp.c:286-294 | the checksum is the plain sum of the octets modulo 65536 |
| `OpenPgpAcceptance.NBitsIs` | agent/cvt-openpgp.c:1235-1245 | the number of bits written in front of a number is that of its binary form |
| `OpenPgpAcceptance.NumberExamples` | agent/cvt-openpgp.c:1235-1245 | the two examples of section 3.2 of RFC 4880 |
| `OpenPgpProcedures.ChecksumOf` | agent/cvt-openpgp.c:286-294 | the loop computes the 16 bit sum |
| `OpenPgpProcedures.PrepareUnprotect` | agent/cvt-openpgp.c:318-375 | clears what lies behind the first null and makes the checks in order |
| `OpenPgpProcedures.ScanParameters` | agent/cvt-openpgp.c:604-611 | the scan loop stores the readable parameters in place |
| `OpenPgpProcedures.RollBack` | agent/cvt-openpgp.c:623-636 | the way back clears them and puts the encrypted value back |
| `OpenPgpProcedures.ChecksumMatches` | agent/cvt-openpgp.c:545-598 | both checksum methods, with the workaround that accepts the encrypted checksum |
| `OpenPgpProcedures.DoUnprotect` | agent/cvt-openpgp.c:413-728 | result and array are those of the specified attempt, for every outcome |
| `OpenPgpProcedures.TryDoUnprotectCb` | agent/cvt-openpgp.c:733-753 | the callback also counts the parameters again |
| `OpenPgpProcedures.ApplyProtection` | agent/cvt-openpgp.c:1176-1274 | the array becomes the public parameters and one encrypted value |
| `OpenPgpProcedures.StuffBuffer` | agent/cvt-openpgp.c:1235-1245 | the buffer holds the external form of all secret parameters |
| `SshWire.ReadWrittenString` | agent/command-ssh.c:614-665 | a written string is read back |
| `SshWire.ReadWrittenMpi` | agent/command-ssh.c:764-821 | a written number is read back if it has at most 520 octets and is refused otherwise |
| `SshWire.ReadWrittenBlob` | agent/command-ssh.c:675-719 | a written string is read back as a blob with the prefix 0x40 |
| `SshFraming.ReadStringIff` | agent/command-ssh.c:614-665 | a string is read if and only if the stream starts with its length and all its octets |
| `SshFraming.ReadMpiIff` | agent/command-ssh.c:764-798 | a number is read if and only if a string of at most 520 octets that stands for it is there |
| `SshFraming.ReceiveExtends` | agent/command-ssh.c:2090-2289 | a key is read the same whatever follows it, and what follows is left |
| `SshFraming.CutOffKeyIsRefused` | agent/command-ssh.c:2090-2289 | if a key can be read from a stream, no part that ends before the key does is accepted |
| `SshSecretKeys.WireExamples` | agent/command-ssh.c:523-821 | the examples of section 5 of RFC 4251 |
| `SshWire.Stream.GetUint32` | agent/command-ssh.c:494-520 | reads four octets or reports the end of the stream |
| `SshWire.Stream.GetData` | agent/command-ssh.c:545-564 | reads exactly the octets asked for |
| `SshWire.Stream.Skip` | agent/command-ssh.c:567-591 | skips in chunks of at most 128 octets, exactly as far as asked |
| `SshWire.Stream.GetString` | agent/command-ssh.c:614-665 | reads length and octets |
| `SshWire.Stream.GetBlob` | agent/command-ssh.c:675-719 | checks the length first and adds the prefix |
| `SshWire.Stream.GetMpi` | agent/command-ssh.c:764-798 | reads a number in two's complement, checking the length afterwards |
| `SshWire.Stream.PutString` | agent/command-ssh.c:733-748 | writes a 32 bit length and so many octets |
| `SshTable.Lookup` | agent/command-ssh.c:2061-2081 | the first row with the name or the algorithm |
| `SshTable.IdentifierFromCurveName` | agent/command-ssh.c:426-443 | identifier and canonical name of a curve under either of its names |
| `SshTable.ByAlgoIs` | agent/command-ssh.c:2061-2081 | lookup by algorithm finds the first row, for ECC always nistp256 |
| `SshTable.ByCurveIs` | agent/command-ssh.c:426-443 | a curve is always found in a row without certificate |
| `SshConstruct.KeyModifierRsa` | agent/command-ssh.c:1373-1403 | swaps the primes or recomputes u in place |
| `SshConstruct.AdjustedPrimes` | agent/command-ssh.c:1373-1403 | the adjusted primes ascend, have the same product, and u is the inverse of the first modulo the second |
| `SshConstruct.InverseExists` | agent/command-ssh.c:1396-1398 | u·q ≡ 1 mod p implies that p has an inverse modulo q |
| `SshConstruct.FillSlots` | agent/command-ssh.c:1846-1858 | the nested loops put the parameters in the order of the key type |
| `SshConstruct.SlotHoldsItsValue` | agent/command-ssh.c:1846-1858 | for any two orders every name leads to the value received under it |
| `SshConstruct.RsaKeyIsConsistent` | agent/command-ssh.c:331-333 | "nedupq" on the wire and "nedpqu" in the key: each slot holds its own value |
| `SshKeys.BlobRoundTripIff` | agent/command-ssh.c:1897-2289 | writing a public key and reading it back gives the same algorithm, curve and parameters if and only if no parameter exceeds 520 octets, an EdDSA key is on Ed25519 and has its prefix, and an ECDSA key is on an ECDSA curve |
| `SshKeys.EcdsaKeyRoundTrip` | agent/command-ssh.c:1950-1975 | although the row looked up is always nistp256, the curve of the key decides identifier and name |
| `SshKeys.WrongCurveRoundTrip` | agent/command-ssh.c:1950-1975 | an ECC key on Ed25519 is written under the EdDSA name and never comes back |
| `SshKeys.RsaSecretReceived` | agent/command-ssh.c:2091-2289 | a received RSA secret key is stored with the same modulus and exponents, ascending primes and the matching u |
| `SshSecretKeys.Ed25519Received` | agent/command-ssh.c:2149-2207 | an Ed25519 secret key: the private string must have 32 or 64 octets, of which the first 32 are stored |
| `SshSecretKeys.Ed25519SeedIsStored` | agent/command-ssh.c:2149-2207 | the seed is stored whether or not a copy of the public key follows it, which gets the prefix 0x40 |
| `SshSecretKeys.EcdsaSecretReceived` | agent/command-ssh.c:2208-2245 | an ECDSA secret key under either name of its curve |
| `SshSecretKeys.CurveNameDecides` | agent/command-ssh.c:2208-2245 | the curve of a received ECDSA key is the one named behind its type, also if the type is that of another curve |
| `SshSecretKeys.OtherCurvesAreRefused` | agent/command-ssh.c:2228-2238 | any other curve name is refused |
| `SshSecretKeys.DsaSecretReceived` | agent/command-ssh.c:2246-2251 | a DSA secret key with its parameters in order |
| `SshSecretKeys.RsaSecretRoundTrip` | agent/command-ssh.c:1897-2289 | an RSA secret key as the agent stores it is written and read back with the same number under every name, u included |
| `SshSecretKeys.DsaSecretRoundTrip` | agent/command-ssh.c:1897-2289 | the same for a DSA secret key |
| `SshSecretKeys.EcdsaSecretRoundTrip` | agent/command-ssh.c:1897-2289 | the same for an ECDSA secret key, with the short name of its curve |
| `SshSecretKeys.Ed25519SecretRoundTrip` | agent/command-ssh.c:1897-2289 | the same for an Ed25519 secret key |
| `SshSecretKeys.SecretsAreAskedFor` | agent/command-ssh.c:1929-1939 | secret parameters are written only of a key in the clear and only if asked for |
| `SshSecretKeys.BlobRefusedIff` | agent/command-ssh.c:1950-2030 | a blob is refused if and only if a parameter is missing or an ECDSA key has no known curve |
| `SshSecretKeys.RsaBlobIs` | agent/command-ssh.c:1897-2047 | the octets of an RSA public key: name, exponent, modulus |
| `SshSecretKeys.DsaBlobIs` | agent/command-ssh.c:1897-2047 | the octets of a DSA public key |
| `SshSecretKeys.EcdsaBlobIs` | agent/command-ssh.c:1950-2013 | the octets of an ECDSA public key: the names are those of its curve |
| `SshSecretKeys.Ed25519BlobIs` | agent/command-ssh.c:1982-1999 | the octets of an Ed25519 public key, without its prefix |
| `SshSecretKeys.OtherBlobIs` | agent/command-ssh.c:1982-1999 | octets without the prefix, or even in number, are sent as they are |
| `SshSecretKeys.OtherTypesAreRefused` | agent/command-ssh.c:2061-2118 | a key of a type not in the table is not found |
| `SshKeyStream.KeyToBlob` | agent/command-ssh.c:1897-2047 | writes the specified blob, with the secret parameters of a secret key if asked, or fails where the source does |
| `SshKeyStream.ReceiveMpintList` | agent/command-ssh.c:1310-1367 | the loop reads the numbers in order and stops at the first error |
| `SshKeyStream.ReceiveKey` | agent/command-ssh.c:2090-2289 | reads the specified key or fails with the specified error |
| `SshControlFormat.EntriesOfAppended` | agent/command-ssh.c:947-1041 | the entries of a well-formed file with more behind it are its own and those of the rest |
| `SshControlFormat.EntryParses` | agent/command-ssh.c:1132-1141 | the line written for an entry is read as that entry, for every C integer |
| `SshControlFormat.LineMeans` | agent/command-ssh.c:982-1031 | what a line means in all its parts: blanks, the mark of a disabled key, a keygrip in either case, a caching time and any flags |
| `SshControlFormat.MarkIsRead` | agent/command-ssh.c:982-988 | a mark in front of a line, with or without blanks, disables the key and changes nothing else |
| `SshControlFormat.GripInUpperCase` | agent/command-ssh.c:990-992 | the keygrip is read in upper case with the same digits |
| `SshControlFormat.BadGripIsRefused` | agent/command-ssh.c:990-997 | a line is an entry if and only if 40 hexadecimal digits and a blank or its end follow |
| `SshControlFormat.AnyNumberIsRead` | agent/command-ssh.c:999-1006 | every printed number is read, cut to 64 bits |
| `SshControlFormat.FlagTextConfirms` | agent/command-ssh.c:1008-1031 | a key is to be confirmed if and only if "confirm" is one of the flags |
| `SshControlFormat.ConfirmsValue` | agent/command-ssh.c:1015-1020 | a flag with a value is ignored, but its value is read as a flag |
| `SshControlFormat.SkippedIff` | agent/command-ssh.c:975-980 | exactly the empty lines and the comments are skipped |
| `SshControlFormat.LineLimit` | agent/command-ssh.c:957-973 | a line may have 253 octets; a longer one is refused |
| `SshControlFormat.EntriesOfText` | agent/command-ssh.c:1132-1141 | the appended text consists of comments and exactly that entry |
| `SshControlFormat.SearchFindsFirst` | agent/command-ssh.c:1051-1086 | searching a well-formed file gives the values of the first entry for the keygrip, or end of file |
| `SshControlFormat.SearchOfAppended` | agent/command-ssh.c:1051-1086 | an entry of a well-formed part of a file is found whatever follows, even if that cannot be read; for other keygrips the search is that of what follows |
| `SshControlFormat.AdditionsKeepSound` | agent/command-ssh.c:1097-1149 | every sequence of additions keeps the file well-formed with distinct keygrips, new ones behind old ones |
| `SshControlFormat.AddedIsRemembered` | agent/command-ssh.c:1051-1149 | an added key is found with its values whatever is added later; one that was there keeps its own |
| `SshControlFormat.MalformedIsLeftAlone` | agent/command-ssh.c:1114-1143 | nothing is appended to a file that cannot be read to its end |
| `SshControlFile.ReadFlags` | agent/command-ssh.c:1008-1031 | the flag loop always moves on and finds "confirm"; the value after an equals sign is read as a flag |
| `SshControlFile.ReadGrip` | agent/command-ssh.c:990-992 | reads at most 40 hexadecimal digits in upper case |
| `SshControlFile.ParseLineAt` | agent/command-ssh.c:982-1031 | disabled mark, keygrip, caching time and flags of a line |
| `SshControlFile.ControlFile.ReadControlFileItem` | agent/command-ssh.c:947-1041 | skips comments and returns the next entry or the error of the line |
| `SshControlFile.ControlFile.SearchControlFile` | agent/command-ssh.c:1051-1086 | the first entry with the keygrip, its values and its line |
| `SshControlFile.ControlFile.AddControlEntry` | agent/command-ssh.c:1097-1149 | appends exactly when the search reached the end of the file |
| `Description.PassesAgreeIff` | agent/findkey.c:692-785 | the first pass computes the length that the second writes if and only if the fingerprint is unused or empty, or its first computation succeeds, or none of those of both passes does |
| `Description.SecondPassIsLonger` | agent/findkey.c:692-785 | the second pass never writes less than the first counted |
| `Description.OverrunExample` | agent/findkey.c:692-785 | concrete case: nothing is counted and one octet is written |
| `Description.SecondPassExpands` | agent/findkey.c:692-785 | then what is written is the recursive expansion of the format |
| `Description.WrittenIsExpansion` | agent/findkey.c:699-771 | a pass that knows the fingerprint, or cannot get one, writes the recursive expansion |
| `Description.SequencesAre` | agent/findkey.c:704-755 | what %%, %c, %C and %F stand for |
| `Description.OthersAreKept` | agent/findkey.c:756-771 | any other sequence is kept, any other character stands for itself and a last % for nothing |
| `Description.WithoutBlanksIs` | agent/findkey.c:792-800 | trimming removes exactly the trailing blanks and never the first character |
| `Description.TrimmedIs` | agent/findkey.c:792-800 | a final "()" goes with all blanks in front of it |
| `Description.OtherTextsStay` | agent/findkey.c:792-800 | a text that ends otherwise, or has only two characters, stays |
| `Description.ModifyDescription` | agent/findkey.c:671-803 | for every sequence of fingerprint results: the second pass leaves the buffer if and only if the passes differ; otherwise the result is the expansion without a final "()" and the buffer is exactly as long as the expansion and its terminator |
| `Description.Pass` | agent/findkey.c:699-771 | one pass counts, or writes, exactly what is specified |
| `Description.Trim` | agent/findkey.c:792-800 | the in-place trim gives the trimmed string |

## Left out

- PassphraseCache: the key of the last stored item when a get passes no key, truncation of times to C integers, and failures of memory allocation or of the cipher set-up.
- PassphraseCache: that a get misses after a delete, which is not a promise of the list because several items can share a key under different modes.
- PassphraseCache.SpacedRun: the guard is sufficient, not necessary; the exact condition, which looks at the states, is that of `PassphraseCache.CoveredRun`.
- CacheLifetime.PutIsKept: the condition is sufficient; a put may be remembered longer when passes come late.
- CanonicalSexp.SNext: lengths of 2^31 and more, which overflow the integer of the source.
- CacheExpiry.EverythingExpires: the number of passes is sufficient, not the least one.
- DaemonProtocol: one type of daemon, not disabled by an option; failures of memory allocation, of mutex operations and of spawning the watcher thread are not steps.
- DaemonManager.Manager.Pass: the commands sent to a new daemon (socket name, event signal) are reduced to whether a socket name came back.
- Pinentry.Agent.Run: which commands are sent before the retry loop is a list of answers with those that are tolerated; the source of an error code, quality bars and the generation of PINs are not modelled.
- Pinentry: the popup message, which keeps the lock between two calls, and the thread that watches the client's socket.
- OpenPgpProcedures.DoUnprotect: unprotected keys and version 3 packets, which replace parameters before the checksum is compared.
- OpenPgpProtection: the parsing of the transfer S-expression around the parameters.
- SshKeyStream.ReceiveMpintList: with a certificate the public numbers come from it; that case, and the check that certificate and key type go together, are not modelled.
- SshKeyStream.ReceiveKey: OpenSSH certificates and comments are not read; a key type with a certificate is answered with an error of its own.
- SshKeys.BlobRoundTripIff: parameters of 2^32 octets and more, whose length does not fit the wire, are excluded.
- SshControlFormat: comment texts are assumed to be single lines of at most 230 octets, as the fingerprint and date functions give them.
- Description.ModifyDescription: failure of the allocation of the result.
- SSH signatures, the listing of identities and the handlers of single requests.
- Assuan, scdaemon and tpm2d traffic, forking, signals, the select loop, command line tools and the Windows paths.
- libgcrypt itself: numbers, ciphers, key tests and keygrips.
