# Verified models of the power-monitor firmware

These Dafny modules model the parts of the power-monitor firmware, its host tools and its simulator whose
correctness depends on more than one step: the crash-safe configuration store and the two transactions built on it, the
freeze/drain handshake of the sampling tasks, the memory-pressure policy and the fixed arena it is exercised with,
the lock-free slot pools, the replay window, the JSON string writer, the energy arithmetic, the calendar conversion, the
ESP image patcher and the simulator's batch acknowledgement. `dafny verify dfyconfig.toml` checks everything.

Code that changes things in place is a class or a method over arrays, proved against specification functions or
predicates; the theorems about whole runs are lemmas about those specifications. Protocols between tasks are state
machines whose actions are single atomic accesses, so a run is an interleaving.

## How the pieces fit

**Power loss.** `BlobStores.BlobStore` is the non-volatile store. Each write or erase consumes an outcome from a
script: what it reports, what it leaves (old, new, or bytes that no decoder accepts), and whether it is the last thing
that happens. After a cut nothing changes and nothing reads. A contract that holds for all scripts therefore
holds for all cut points and all failures. Writes and erases of the provisioning journal's key are atomic, and so are
the 64-bit cursors; nothing else is.

**Configuration store.** `AtomicConfigStore.CommitLeaves` and `RollbackLeaves` say everything that a commit or a
rollback, cut or not, can leave. The methods are proved to stay inside them down to the bytes, with the real codecs and the
bitwise CRC; the theorems about single operations and about all runs from an empty store are proved from them.

**Provisioning.** `Provisioning.ConfigService` journals the old credentials and generation, applies the new ones,
and erases the journal. A store is `Protected` while the journal can still restore it, and otherwise `AllOld`
or `AllNew`. `AllOrNothing` composes one attempt, cut anywhere, with any number of recoveries, each cut anywhere;
`AttemptIsSafeIff` says when an attempt is safe in every way it can go, whatever the store and the running generation,
and `AttemptsStayWhole` carries that over runs of attempts, boots and power losses.

**Enrollment activation.** Cursors are written first and the record last. `NoBootFindsCursorsMissing` is the
invariant over runs of boots, stagings, activations, cuts, retries and raises of single cursors;
`ActivationSurvivesCuts` adds that, whatever is cut, the staged activation can still be completed.

**Drain.** `SampleDrain` interleaves the meter task, the aggregation task, the freeze and the reset that advances the
generation, one atomic access at a time.

**Allocators, pools, window, codecs and arithmetic** are self-contained; each is proved against a definition that is
independent of the code: sets of bytes, one-to-one ownership, a set of digests, RFC 3629 and RFC 8259,
division by the CRC-32 polynomial, the parts an image file is put together from, the Gregorian successor of a date, sums
over samples.

## What does not hold

Where the code does not meet a property that its comments or tests suggest, a lemma gives a concrete run or input, and
another gives the condition under which it does hold.

- **Lossless drain.** `src/app/Application.cpp:846-849` says the drain is lossless. If the freeze is set while the
  aggregation task is blocked in its 250 ms receive, the next sample it receives fails
  `data_reset::sampleForGenerationAllowed` because of the freeze alone; it is thrown away without being counted, and
  so is the open interval (`src/app/Application.cpp:1042-1059`). `SampleDrain.AdmittedSamplesCanVanish` is such a run.
  `SampleDrain.FreezeLosesExactlyWhenExposed`: setting the freeze can lose samples if and only if aggregation is in that
  receive, or holds a received sample it has not yet checked, and a sample is there or still on its way. All the
  other parts of drain completeness hold in every interleaving.
- **Three safe samples before Recovering.** Hard faults and emergencies leave the safe counter alone, so
  `MemoryPressurePolicies.OneSafeSampleCanEnterRecovering`, and a sample that is neither low nor safe ends
  LowTotalMemory, so `MemoryPressurePolicies.NoSafeSampleCanEnterRecovering`.
  `MemoryPressurePolicies.RecoveringNeedsThreeSafeUnlessFaulted` is the exact condition over all entries.
- **Disjoint blocks.** `allocate` looks for the next block at or after the aligned offset only, so mixed
  alignments can place a block over another: `FragmentingHeap.MisalignedBlocksCanOverlap`.
  `FragmentingHeap.EveryPlacementIsClearIff`: with a given table and alignment, requests of every size are placed clear of
  the live blocks if and only if no block straddles a point of the scan's path, which does not depend on the size, whose
  gap is larger than all before it. In runs whose alignments never grow that is always so:
  `FragmentingHeap.FallingAlignmentsStayWellFormed`.
- **Distinct identifiers.** They are given out again after 2^32 - 1 blocks, whatever is still live:
  `FragmentingHeap.IdentifiersComeRound`. `FragmentingHeap.IdentifiersStayDistinct`: in shorter runs they are distinct.
- **Peak within capacity.** A release clears its slot before it decrements the counter, so the recorded peak can
  exceed the capacity: `StoragePools.PeakCanExceedCapacity` is such a run from a fresh pool.
  `StoragePools.PeakCanExceedIff`: some run from a fresh pool records such a peak if and only if the pool has a slot and
  there are two tasks. `StoragePools.CountExceedsIff` says at which states the next count does so, and
  `StoragePools.PeakExcessIsBounded` by how much.
- **Reconciled energy.** While the coarse counter catches up, a completely integrated interval is reported
  without being added to the energy still to be reconciled: `EnergyNormalizers.ReconciliationCanDrift` is a run from a
  fresh normalizer that reports six for the one that passed and the four still to be reconciled, with the exact
  condition in `EnergyNormalizers.ReconciliationConservesIff`. `EnergyNormalizers.BooksBalance` adds up the drift over
  runs.
- **Ordered timestamps.** Second 60 is accepted and equals second 0 of the next minute, which at the end of a day is
  also a tie between two moments in order: `CivilTime.LeapSecondTiesWithMidnight`. Inside 64 bits that is the only
  exception, `CivilTime.TimestampsAreOrderedIff`. Years are not bounded, so the milliseconds can wrap and a later year
  read as an earlier time, `CivilTime.FarYearsWrap`; they do so exactly after 584556019-04-03T14:25:51,
  `CivilTime.OrderedUpToIff`.
- **Acknowledgement after a refused batch.** The simulator keeps the readings before a malformed one but does not
  acknowledge them: `DeviceStates.DeviceState.RefusedBatchLeavesGap`. `DeviceStates.LagsIff`: over any run of batches, the
  next sequence is stored and unacknowledged if and only if a batch was refused behind a reading of it and none has been
  answered since.
- **Retrying a provisioning in the same boot.** When an attempt and its recovery both fail while the power stays on,
  setup may be tried again (`src/provisioning/ProvisioningService.cpp:88-98`), and the retry writes its own journal over
  the one that could have restored the old contents. Two things can be wrong with that journal.
  The credentials it takes may be half-written ones: in `Provisioning.ConfigService.RetryMixesCredentials` a recovery
  completes and leaves the first request's token beside the old salt and hash. And the running generation it names may
  be ahead of the active one, because an attempt runs its configuration before it erases its journal
  (`src/config/ConfigService.cpp:1747-1757`): in `Provisioning.ConfigService.StaleRetryFailsForGood` everything is
  restored but the journal could not be erased, and the retry leaves a journal that recovery and every boot refuse.
  `Provisioning.ConfigService.AttemptIsSafeIff`: over every request and every way an attempt can be cut or fail, the old
  contents stay within reach or the new ones are committed, if and only if the store is clean, without a journal or
  still holding what its journal describes, and the running generation is the active one, or the attempt cannot write a
  journal of its own. `Provisioning.ConfigService.LostForGood`: what is not within reach never comes back.
  `Provisioning.ConfigService.AttemptsStayWhole`: no mixture arises while every attempt follows a boot or a success, or
  finds that guard satisfied.
- **Activating what was staged.** Staging checks the cursors in memory, and a setter may have stored a higher value and
  failed before memory had it (`src/config/ConfigService.cpp:2167-2171`). `EnrollmentActivation.EnrollmentService.StageBehindSetter`
  is such a run; `EnrollmentActivation.StagedIsAwaiting` gives the condition on the durable cursors, and
  `EnrollmentActivation.StagedBehindIsStuck` says that no start-up ever completes the activation otherwise.

## Model

| member | source | states |
|---|---|---|
| `Crc32.BitStepBijective` | src/config/AtomicConfigStore.cpp:206-209 | One turn of the inner CRC loop is a bijection on 32-bit states, with an explicit inverse on both sides. |
| `Crc32.ByteStepBijective` | src/config/AtomicConfigStore.cpp:204-210 | So is the step for a whole byte, for every byte. |
| `Crc32.ChecksumDetectsChange` | src/config/AtomicConfigStore.cpp:202-213 | Changing any one byte of any data changes its CRC-32. |
| `Crc32.Compute` | src/config/AtomicConfigStore.cpp:202-213 | The nested loops with the masked polynomial compute that checksum. |
| `Crc32Division.ChecksumIsRemainder` | src/config/AtomicConfigStore.cpp:202-213 | The checksum is the complement of the remainder that the data followed by 32 zero bits, its first 32 bits inverted, leave on division by the CRC-32 generator polynomial. |
| `Crc32Division.RemainderIsUnique` | src/config/AtomicConfigStore.cpp:202-213 | There is only one such remainder. |
| `RecordCodec.RecordRoundTrip` | src/config/AtomicConfigStore.cpp:66-118 | Every legal record decodes from its encoding. |
| `RecordCodec.RecordCanonical` | src/config/AtomicConfigStore.cpp:94-118 | Whatever decodes is a legal record and, up to the two reserved bytes, its encoding. |
| `RecordCodec.RecordDetectsChange` | src/config/AtomicConfigStore.cpp:77-118 | Changing any one byte of an encoded record except reserved bytes 6 and 7 makes decoding fail. |
| `RecordCodec.MarkerRoundTrip` | src/config/AtomicConfigStore.cpp:120-162 | Every legal marker decodes from its encoding. |
| `RecordCodec.MarkerDetectsChange` | src/config/AtomicConfigStore.cpp:129-162 | Changing any one byte of an encoded marker except reserved byte 7 makes decoding fail. |
| `RecordCodec.EncodeRecord` | src/config/AtomicConfigStore.cpp:77-92 | The appending encoder produces the record layout of the round-trip theorems. |
| `RecordCodec.DecodeRecord` | src/config/AtomicConfigStore.cpp:94-118 | The decoder, with every check of the source, is the decoding function of those theorems. |
| `RecordCodec.EncodeMarker` | src/config/AtomicConfigStore.cpp:129-142 | The same for the marker encoder. |
| `RecordCodec.DecodeMarker` | src/config/AtomicConfigStore.cpp:144-162 | The same for the marker decoder. |
| `ProvisioningTransaction.JournalRoundTrip` | src/config/ProvisioningTransaction.cpp:88-137 | Every encodable journal, absent fields included, decodes from its encoding. |
| `ProvisioningTransaction.JournalDetectsChange` | src/config/ProvisioningTransaction.cpp:88-137 | Changing any one byte of an encoded journal makes decoding fail. |
| `ProvisioningTransaction.JournalCanonical` | src/config/ProvisioningTransaction.cpp:88-137 | Whatever decodes is within the limits and is, but for the two reserved bytes and so the checksum, what encoding it gives. |
| `ProvisioningTransaction.TakeField` | src/config/ProvisioningTransaction.cpp:66-78 | Takes exactly one length-prefixed field within its maximum, or refuses. |
| `ProvisioningTransaction.Encode` | src/config/ProvisioningTransaction.cpp:88-107 | Produces the journal layout, or nothing exactly when the journal is not encodable. |
| `ProvisioningTransaction.Decode` | src/config/ProvisioningTransaction.cpp:109-137 | The cursor-driven decoder is the decoding function of the journal theorems. |
| `AtomicConfigStore.LoadActive` | src/config/AtomicConfigStore.cpp:215-245 | Finds the record that a marker names by slot and generation, else a valid one of the largest generation, slot A on a tie, with the recovered flag, else nothing. |
| `AtomicConfigStore.ActiveCounts` | src/config/AtomicConfigStore.cpp:180-240 | That description, given over the decoded slots alone, fits exactly one record, and it is the active one. |
| `AtomicConfigStore.WriteVerified` | src/config/AtomicConfigStore.cpp:192-198 | True only if the blob is durably there and reads back identical. |
| `AtomicConfigStore.Commit` | src/config/AtomicConfigStore.cpp:247-304 | Stays inside CommitLeaves at every cut and failure; true means the new record is durable, marked and active; false with a working erase means the old one is still active; without faults it succeeds exactly on what can be stored. |
| `AtomicConfigStore.CommitIsAtomic` | src/config/AtomicConfigStore.cpp:215-304 | After a commit cut anywhere the active record is the old one or the new one, and an active record never disappears. |
| `AtomicConfigStore.RollbackIsAtomic` | src/config/AtomicConfigStore.cpp:306-346 | After a rollback cut anywhere the current or the previous record is active, and both slots are untouched. |
| `AtomicConfigStore.RunHistory` | src/config/AtomicConfigStore.cpp:247-346 | In every run of commits, cuts, failures and rollbacks from an empty store, valid slots have distinct generations and an older record beside a newer one is the one it was written over. |
| `AtomicConfigStore.RollbackRestoresPredecessor` | src/config/AtomicConfigStore.cpp:306-346 | In every such run a rollback that changes anything activates exactly the record that was active when the current generation was written, never a newer one. |
| `AtomicConfigStore.LoadPrevious` | src/config/AtomicConfigStore.cpp:306-328 | Offers the other slot's record only if the expected generation is active and the other is older. |
| `AtomicConfigStore.RollbackToPrevious` | src/config/AtomicConfigStore.cpp:330-346 | Stays inside RollbackLeaves; success means the previous record is active; without faults it succeeds exactly when there is one. |
| `Provisioning.WriteBytesChecked` | src/config/ConfigService.cpp:220-234 | True only if the key durably holds the bytes; whatever happens, the key is as before, holds the bytes, or is torn, and no other key moves. |
| `Provisioning.ErasePreferenceChecked` | src/config/ConfigService.cpp:189-193 | True only if the key is durably gone; whatever happens, the key is as before, gone, or torn, and no other key moves. |
| `Provisioning.ConfigService.LoadPersistentConfig` | src/config/ConfigService.cpp:3389-3442 | Loads the active configuration, rolling back once to a parsable predecessor. |
| `Provisioning.ConfigService.PrepareProvisioningTransaction` | src/config/ConfigService.cpp:3136-3188 | Leaves the store alone, without a journal, or with exactly the snapshot's journal; succeeds exactly on encodable snapshots without faults. |
| `Provisioning.ConfigService.RecoverIncompleteProvisioning` | src/config/ConfigService.cpp:3197-3284 | A protected store stays protected or becomes all-old, and completing means all-old; any journal stays or is restored as it says, and one that names a newer generation is refused with nothing changed; without a journal nothing changes; without faults a protected store recovers. |
| `Provisioning.ConfigService.RestoreConfig` | src/config/ConfigService.cpp:3223-3248 | Puts the journalled generation back by rollback, at every cut keeping the old record within reach; refuses a journal that names a newer one. |
| `Provisioning.ConfigService.RestoreCredentials` | src/config/ConfigService.cpp:3250-3269 | Puts the three snapshots back, erasing those that were absent. |
| `Provisioning.ConfigService.ClearProvisioningTransaction` | src/config/ConfigService.cpp:3190-3195 | Erases the journal and nothing else; the commit point. |
| `Provisioning.ConfigService.ApplyProvisioning` | src/config/ConfigService.cpp:1729-1745 | Whatever is cut, the journal and the old record survive; success means new credentials and a configuration that parses. |
| `Provisioning.ConfigService.WriteCredentials` | src/config/ConfigService.cpp:1729-1736 | Token, salt and hash are written in order and nothing else moves; success means all three are there; without faults it succeeds on well-sized material whose verifier can be derived. |
| `Provisioning.ConfigService.CommitProvisioning` | src/config/ConfigService.cpp:1697-1779 | For any store and any running generation: an attempt, with its own recovery, has not begun, has its journal in place or restored, or is committed, and with the running generation active its journal protects the old contents; true means all new, running and parsable; without faults a storable candidate is applied, and an attempt that fails is undone, with the generation that is active running again. |
| `Provisioning.ConfigService.UndoAttempt` | src/config/ConfigService.cpp:1770-1778 | Recovery and reload after a failure stay inside the attempt's outcomes, and without faults undo it. |
| `Provisioning.ConfigService.RecoveredAttempt` | src/config/ConfigService.cpp:1697-1779 | An attempt followed by a recovery is again an outcome of an attempt; with the running generation active and no journal before, a completed one is all-old or all-new. |
| `Provisioning.ConfigService.AllOrNothing` | src/config/ConfigService.cpp:1697-1779 | For every cut in the attempt and any number of cuts in later recoveries, whatever generation was running: the outcome stays one of an attempt, and the first recovery that completes is the last to change anything. With the running generation active, configuration, token, salt and hash are then all old or all new; an attempt that found a journal may have left that one, and what recovers it, instead. |
| `Provisioning.ConfigService.RecoveriesSettle` | src/config/ConfigService.cpp:3197-3284 | Recovery is idempotent: any number of recoveries keeps a protected store protected until one completes, and then nothing moves. |
| `Provisioning.ConfigService.RecoverAcrossBoots` | src/config/ConfigService.cpp:292-337 | Any number of boots that recover and load, each cut or failing anywhere: what was held is still held, and all-old if one of them ran undisturbed; a journal that names a newer generation is refused by all of them. |
| `Provisioning.ConfigService.StartUp` | src/config/ConfigService.cpp:292-337 | A boot that comes up leaves the store clean and runs the active generation; without faults it comes up on every store that holds its contents or a journal that leads back to them. |
| `Provisioning.ConfigService.AttemptIsSafeIff` | src/config/ConfigService.cpp:1697-1779 | Over every request and every outcome of an attempt, the old contents stay held or the new ones are committed, if and only if the store is clean and the running generation is the active one, or the attempt's snapshot does not encode. |
| `Provisioning.ConfigService.LostForGood` | src/config/ConfigService.cpp:3197-3284 | Contents that neither the store nor its journal holds never come back, through any number of recoveries. |
| `Provisioning.ConfigService.AttemptsStayWhole` | src/config/ConfigService.cpp:1697-1779 | Over any run of attempts, boots and power losses, each cut or failing anywhere, where every attempt follows a boot or a success or finds the store clean and its running generation active: the store holds, or its journal leads back to, exactly one of the bundles asked for or the one it began with. |
| `Provisioning.ConfigService.GuardedIsReady` | src/config/ConfigService.cpp:292-337 | After a boot that comes up and after an attempt that succeeds, the store is clean and the running generation is the active one. |
| `Provisioning.ConfigService.FailedRetry` | src/config/ConfigService.cpp:3136-3167 | A failed attempt that is undone without faults restores what was held when the guard above is satisfied or no journal could be written, and loses it for good when its own journal was another one. |
| `Provisioning.ConfigService.UnderivedVerifierLoses` | src/config/ConfigService.cpp:1728-1736 | Wherever the attempt's own journal would be another one, a verifier that cannot be derived makes it lose what was held; with a running generation ahead of the active one it leaves a journal that is refused. |
| `Provisioning.ConfigService.RefusedJournalLoses` | src/config/ConfigService.cpp:3159-3184 | On a store that is not clean, a journal that cannot be written loses what was held, because the one that was there is erased. |
| `Provisioning.ConfigService.RetryMixesCredentials` | src/config/ConfigService.cpp:3136-3167 | Two attempts without a reboot between them, from a store with nothing amiss, end with the first one's token beside the old salt and hash. |
| `Provisioning.ConfigService.StaleRetryFailsForGood` | src/config/ConfigService.cpp:1747-1779 | From a store with nothing amiss: an attempt runs its configuration, its erase and its recovery's erase of the journal are refused, and the next attempt leaves its token beside the old salt and hash behind a journal that every boot refuses. |
| `EnrollmentActivation.FloorPassesGuard` | src/app/Application.cpp:365-374 | The floor computed at start-up passes the activation guard if and only if the staged activation can go ahead at all. |
| `EnrollmentActivation.EnrollmentService.StageActivation` | src/config/ConfigService.cpp:1268-1338 | Moves the slots only for a pending record that does not step behind the running cursors, whatever it returns; true means it is active and pending in memory. |
| `EnrollmentActivation.EnrollmentService.CommitActivationRecord` | src/config/ConfigService.cpp:2783-2870 | The record commit stays inside the slot protocol and touches no cursor; records that are unbound, in the wrong phase, behind their source, above the limit or with a wrong floor are never written. |
| `EnrollmentActivation.EnrollmentService.PersistCursors` | src/config/ConfigService.cpp:1379-1392 | Each cursor is old or at its new value at every cut; success means all are new. |
| `EnrollmentActivation.EnrollmentService.ActivatePending` | src/config/ConfigService.cpp:1345-1432 | The slots change only after every cursor is durable; success makes memory agree with them, the server's event and configuration positions at zero and the others at the record's target, boundary and floor. |
| `EnrollmentActivation.EnrollmentService.ActivateAtBoot` | src/app/Application.cpp:352-433 | Start-up activation uses the computed floor; it starts at once when nothing is pending, changes nothing when storage is not ready, starts only when nothing is left pending, and otherwise does not come up. |
| `EnrollmentActivation.EnrollmentService.SetCursor` | src/config/ConfigService.cpp:1961-2026 | A setter raises one cursor or leaves everything alone. |
| `EnrollmentActivation.EnrollmentService.MeetsMarks` | src/config/ConfigService.cpp:3000-3013 | The boot check accepts exactly the records that the durable cursors cover. |
| `EnrollmentActivation.EnrollmentService.BootLoad` | src/config/ConfigService.cpp:2944-3124 | Memory gets exactly the durable cursors, an absent maximum read as the acknowledgement, and the active record if it is pending. Without faults a boot comes up if and only if the active record parses, or it does not and an older one in the other slot does, or no key is present, and the record's marks are met; it leaves that record active: unchanged, the older one, or a tombstone with nothing pending. |
| `EnrollmentActivation.EnrollmentService.LoadRecord` | src/config/ConfigService.cpp:2955-2974 | Without faults it finds a record in exactly those three cases, and otherwise leaves the store alone. |
| `EnrollmentActivation.SafeThroughEvent` | src/config/ConfigService.cpp:1345-1432 | Boot, staging, activation, setters and power loss keep every checkable record in either slot covered, durably and in memory. |
| `EnrollmentActivation.NoBootFindsCursorsMissing` | src/config/ConfigService.cpp:3000-3013 | In every run from a device without enrollment records, no reachable boot finds an active policy-bound record with a cursor below what it requires. |
| `EnrollmentActivation.CutActivationCanBeRetried` | src/app/Application.cpp:352-433 | After an activation cut anywhere and the next boot: the activated record is active and covered, or the same activation is pending and the floor computed from the cursors in memory passes the guard. |
| `EnrollmentActivation.ActivationSurvivesCuts` | src/app/Application.cpp:352-433 | Over any run of boots, activations and power losses, each cut anywhere: a staged activation stays retryable from the loaded cursors until it has been completed and covered, and then stays so. |
| `EnrollmentActivation.StagedIsAwaiting` | src/config/ConfigService.cpp:1268-1338 | What staging leaves is such a staged activation if and only if the durable cursors let it go ahead; so it is when none of them is ahead of memory. |
| `EnrollmentActivation.StagedBehindIsStuck` | src/app/Application.cpp:352-433 | If they do not, no run of boots, activations and power losses ever completes it or changes a cursor. |
| `EnrollmentActivation.EnrollmentService.StageBehindSetter` | src/config/ConfigService.cpp:2158-2174 | A setter that stores its value and fails, and a staging below that value, end in an active record that no boot can activate. |
| `SampleDrain.InvariantRun` | src/app/Application.cpp:774-866 | The handshake's invariant holds at every point of every interleaving of the two tasks, the freeze and the reset. |
| `SampleDrain.QuiescedIsComplete` | src/app/Application.cpp:917-1001 | Once aggregation reports quiesced, the queue is empty, no admitted sample is in flight, none is ever enqueued again, and every admitted sample is recorded, dropped and counted, or among the lost ones below. |
| `SampleDrain.DroppedAtFullQueueOnly` | src/app/Application.cpp:846-862 | In every interleaving, the samples dropped and counted are as many as the sends that met a full queue. |
| `SampleDrain.QuiescedIsRecorded` | src/app/Application.cpp:917-1001 | So once quiesced, every admitted sample but those and the lost ones below is in a record. |
| `SampleDrain.QuiescedIsStaged` | src/app/Application.cpp:955-1001 | In every interleaving, the boundary records kept are those of the intervals closed behind the gate that the journal has not accepted, and none is left once quiesced is reported. |
| `SampleDrain.QueuedIsRecorded` | src/app/Application.cpp:1042-1112 | With the gate open, the aggregation task alone gets every queued sample into a record, from every reachable point. |
| `SampleDrain.DrainCompletes` | src/app/Application.cpp:917-1001 | With the gate closed, the meter task and then the aggregation task get to where it reports quiesced, from every reachable point. |
| `SampleDrain.BoundaryNeverOverflows` | src/app/Application.cpp:955-962 | In every interleaving the array of boundary records has room: it is empty when an interval is finished behind the gate, and not full when the drain closes one. |
| `SampleDrain.FreezeLosesExactlyWhenExposed` | src/app/Application.cpp:1042-1060 | Setting the freeze can lose admitted samples in some interleaving if and only if aggregation is caught in or after its blocking receive. |
| `SampleDrain.OpenGateLosesNothing` | src/app/Application.cpp:1042-1112 | While the gate is open no admitted sample is lost. |
| `SampleDrain.AdmittedSamplesCanVanish` | src/app/Application.cpp:846-853 | A concrete run in which two admitted samples end in no record and no counter. |
| `MemoryPressurePolicies.NormalNeedsThreeSafe` | include/core/MemoryPressurePolicy.h:239-262 | Every entry into Normal ends three consecutive safe samples and comes from PressureWarning or Recovering. |
| `MemoryPressurePolicies.LowTotalMemoryNeedsCause` | include/core/MemoryPressurePolicy.h:156-233 | Every entry into LowTotalMemory has a hard fault, an emergency sample outside the exempt cases, or three consecutive low samples. |
| `MemoryPressurePolicies.LowTotalMemoryLeavesThroughOthers` | include/core/MemoryPressurePolicy.h:239-271 | LowTotalMemory never goes straight to Normal, whatever the counters hold. |
| `MemoryPressurePolicies.RecoveringNeedsThreeSafeUnlessFaulted` | include/core/MemoryPressurePolicy.h:177-262 | On every entry into Recovering, the last three samples are safe if and only if the one that enters is and neither of the two before it was a fault; an entry on another sample ends LowTotalMemory. |
| `MemoryPressurePolicies.OneSafeSampleCanEnterRecovering` | include/core/MemoryPressurePolicy.h:177-262 | Safe, safe, failed allocation, safe enters Recovering. |
| `MemoryPressurePolicies.NoSafeSampleCanEnterRecovering` | include/core/MemoryPressurePolicy.h:253-262 | A failed allocation and one sample between the floors enter Recovering with no safe sample. |
| `MemoryPressurePolicies.FiguresDecide` | include/core/MemoryPressurePolicy.h:156-271 | On the figures of one sample, from any state: faults and figures below 32 KiB are LowTotalMemory, scattered ones Fragmented, exempt ones change nothing, and no sample that is neither roomy nor exempt leads to Normal. |
| `MemoryPressurePolicies.ThreeScarceAreLow` | include/core/MemoryPressurePolicy.h:218-233 | Three samples in a row below 56 KiB end in LowTotalMemory, from any state. |
| `MemoryPressurePolicies.SixRoomyAreNormal` | include/core/MemoryPressurePolicy.h:239-262 | Six samples in a row with 68 KiB free and 32 KiB in one block end in Normal, from any state. |
| `MemoryPressurePolicies.TimeIsAccounted` | include/core/MemoryPressurePolicy.h:350-386 | With non-decreasing positive clocks an episode is open exactly outside Normal, and closed plus open time is the total time outside Normal. |
| `MemoryPressurePolicies.LongestIsMaximum` | include/core/MemoryPressurePolicy.h:364-376 | The recorded longest episode bounds every closed episode and is attained by one. |
| `MemoryPressurePolicies.ReportedTimeIsTotal` | include/core/MemoryPressurePolicy.h:277-316 | Metrics report the total time outside Normal up to now, and the longest is at most that. |
| `MemoryPressurePolicies.FragmentsStayBalanced` | include/core/MemoryPressurePolicy.h:328-386 | Fragmentation entries less recoveries is 1 while an episode is open and else 0, and an open episode means Fragmented. |
| `MemoryPressurePolicies.LongestFragmentIsMaximum` | include/core/MemoryPressurePolicy.h:328-348 | The recorded longest fragmentation episode bounds every closed one and is attained by one. |
| `MemoryPressurePolicies.FragmentFollowsFigures` | include/core/MemoryPressurePolicy.h:328-348 | A fragmentation episode is open exactly while the figures are scattered, through exempt samples, with the moment and the free bytes of the sample that opened it. |
| `MemoryPressurePolicies.TransitionsAreCounted` | include/core/MemoryPressurePolicy.h:350-386 | The counters are the numbers of state changes, entries into LowTotalMemory and entries into Normal, and the state's start is the last change. |
| `MemoryPressurePolicies.LowestIsLeastIff` | include/core/MemoryPressurePolicy.h:323-326 | What a minimum records is the least of its figures if and only if none of them is zero or the last one is, because zero stands for none. |
| `MemoryPressurePolicies.MinimaAreLowest` | include/core/MemoryPressurePolicy.h:156-170 | The minima of free bytes and largest block are recorded so over all samples. |
| `MemoryPressurePolicies.MemoryPressurePolicy.Record` | include/core/MemoryPressurePolicy.h:156-271 | The method with its counters and early returns performs exactly the specified update, and reports the state before and whether it changed. |
| `MemoryPressurePolicies.MemoryPressurePolicy.MoveTo` | include/core/MemoryPressurePolicy.h:350-386 | A transition opens, closes and counts episodes as specified. |
| `MemoryPressurePolicies.MemoryPressurePolicy.Metrics` | include/core/MemoryPressurePolicy.h:277-316 | Reports the closed figures with the open episodes added. |
| `FragmentingHeap.AlignUpIsLeast` | include/core/FragmentingInternalHeap.h:181-184 | Aligning up gives the least multiple of the alignment not below the value. |
| `FragmentingHeap.FirstFitIsLeast` | include/core/FragmentingInternalHeap.h:30-48 | With live offsets that are multiples of the alignment, the scan finds the least feasible aligned offset, and nothing exactly when none is feasible. |
| `FragmentingHeap.PlacementIsClearUnlessStraddled` | include/core/FragmentingInternalHeap.h:30-48 | Without that condition, a placement meets no live block if and only if none straddles it. |
| `FragmentingHeap.EveryPlacementIsClearIff` | include/core/FragmentingInternalHeap.h:30-48 | Every size is placed clear of the live blocks if and only if no block straddles a point of the scan's path, the same for all sizes, whose gap exceeds all before it. |
| `FragmentingHeap.PathDecides` | include/core/FragmentingInternalHeap.h:35-47 | The same from any point of the scan on, for the sizes larger than the gaps already passed. |
| `FragmentingHeap.MisalignedBlocksCanOverlap` | include/core/FragmentingInternalHeap.h:30-48 | Blocks [0, 3) and [3, 20): 8 bytes aligned to 8 land at 8, on the second. |
| `FragmentingHeap.OneAlignmentStaysWellFormed` | include/core/FragmentingInternalHeap.h:30-71 | Every run of allocations with one alignment, placements on its multiples and releases keeps live blocks non-empty, inside and disjoint. |
| `FragmentingHeap.DividingAlignmentsStayWellFormed` | include/core/FragmentingInternalHeap.h:30-71 | Every run of allocations, placements on multiples of the current alignment and releases, in which each alignment divides the one before, keeps live blocks non-empty, inside and disjoint. |
| `FragmentingHeap.FallingAlignmentsStayWellFormed` | include/core/FragmentingInternalHeap.h:30-71 | So does every run whose alignments are powers of two that never grow. |
| `FragmentingHeap.PowerOfTwoIff` | include/core/FragmentingInternalHeap.h:177-179 | The alignments accepted are exactly the powers of two. |
| `FragmentingHeap.IdentifiersStayDistinct` | include/core/FragmentingInternalHeap.h:59-70 | Over every run of fewer than 2^32 - 1 operations, whatever alignments are mixed, live identifiers are distinct and valid, and releasing one removes exactly its block. |
| `FragmentingHeap.IdentifiersComeRound` | include/core/FragmentingInternalHeap.h:217-229 | A run from an empty table after which two live blocks have the same identifier. |
| `FragmentingHeap.FragmentingInternalHeap.Allocate` | include/core/FragmentingInternalHeap.h:30-48 | First fit into the first unused entry; fails only if nothing fits, the table is full or the request is invalid; its scan ends. |
| `FragmentingHeap.FragmentingInternalHeap.FirstFit` | include/core/FragmentingInternalHeap.h:35-47 | The scan loop is the specified scan, and ends even when blocks overlap. |
| `FragmentingHeap.FragmentingInternalHeap.AllocationAtOrAfter` | include/core/FragmentingInternalHeap.h:204-215 | The first of the live blocks that start lowest at or after an offset. |
| `FragmentingHeap.FragmentingInternalHeap.AllocateAt` | include/core/FragmentingInternalHeap.h:50-57 | Succeeds exactly on a clear range inside the arena with a free entry, and keeps the arena well-formed. |
| `FragmentingHeap.FragmentingInternalHeap.Release` | include/core/FragmentingInternalHeap.h:59-70 | Frees the first live entry with the identifier, true exactly if there is one. |
| `FragmentingHeap.FragmentingInternalHeap.Insert` | include/core/FragmentingInternalHeap.h:217-229 | Takes the first unused entry under the next identifier, which is never the invalid one. |
| `FragmentingHeap.FragmentingInternalHeap.FreeBytes` | include/core/FragmentingInternalHeap.h:72-78 | In a well-formed arena, the number of free bytes as a set. |
| `FragmentingHeap.FreeSetIs` | include/core/FragmentingInternalHeap.h:72-78 | A byte counts as free exactly when it is inside the arena and no live block holds it. |
| `FragmentingHeap.LiveTotalCounts` | include/core/FragmentingInternalHeap.h:72-78 | The sum of live sizes is the number of bytes the live blocks take. |
| `FragmentingHeap.FragmentingInternalHeap.LargestFreeBlock` | include/core/FragmentingInternalHeap.h:80-95 | In a well-formed arena, the length of the longest free extent: attained, and bounding every other. Its loop ends whenever live blocks are non-empty and inside, even if they overlap. |
| `FragmentingHeap.FragmentingInternalHeap.CanAllocate` | include/core/FragmentingInternalHeap.h:97-99 | In a well-formed arena, agrees with a scan at alignment 1, so with allocate(n, 1) when an entry is free. |
| `FragmentingHeap.FragmentingInternalHeap.IntegrityOk` | include/core/FragmentingInternalHeap.h:109-133 | True exactly on well-formed arenas. |
| `StoragePools.PoolIsSafe` | include/storage/BoundedStorageMessagePool.h:215-250 | In every interleaving with owner-only release: every occupied slot has exactly one owner, and active is occupied slots less pending increments plus pending decrements. |
| `StoragePools.DiscountedStaysPositive` | include/storage/BoundedStorageMessagePool.h:246-249 | A pending decrement always finds a positive counter: active never underflows. |
| `StoragePools.OwnerReleaseAlwaysFrees` | include/storage/BoundedStorageMessagePool.h:241-250 | The owner's compare-exchange on release cannot fail, and frees its slot. |
| `StoragePools.AtRestCountersAreExact` | include/storage/BoundedStorageMessagePool.h:215-258 | With no operation midway, active is the number of occupied slots and peak is the largest count ever reached. |
| `StoragePools.PeakNeverFalls` | include/storage/BoundedStorageMessagePool.h:224-228 | The peak only grows, spurious compare-exchange failures included. |
| `StoragePools.PeakBoundsCompleted` | include/storage/BoundedStorageMessagePool.h:222-229 | The peak bounds the count of every acquisition that has returned. |
| `StoragePools.PeakExcessIsBounded` | include/storage/BoundedStorageMessagePool.h:222-250 | The peak is less than the capacity plus the number of tasks. |
| `StoragePools.PeakCanExceedCapacity` | include/storage/BoundedStorageMessagePool.h:215-250 | One fresh slot, two tasks: acquire, half a release, acquire, and the recorded peak is 2. |
| `StoragePools.PeakCanExceedIff` | include/storage/BoundedStorageMessagePool.h:215-250 | Some run from a fresh pool records a peak above its capacity if and only if it has at least one slot and there are at least two tasks. |
| `StoragePools.Overtake` | include/storage/BoundedStorageMessagePool.h:215-250 | With them, some run from a fresh pool of any capacity records exactly one more than it. |
| `StoragePools.CountExceedsIff` | include/storage/BoundedStorageMessagePool.h:222-249 | At every reachable state, the next count passes the capacity if and only if more releases are between their two accesses than there are free slots and other acquisitions about to count. |
| `StoragePools.ExcessNeedsHalfRelease` | include/storage/BoundedStorageMessagePool.h:246-249 | In particular, only while some release is between its two accesses. |
| `StoragePools.AcquireFirstFree` | include/storage/BoundedStorageMessagePool.h:215-230 | An undisturbed acquisition takes the first free slot, counts it, and raises the peak to the count. |
| `StoragePools.ExhaustedWhenFull` | include/storage/BoundedStorageMessagePool.h:215-236 | An undisturbed acquisition in a full pool fails, and only counts an exhaustion. |
| `StoragePools.ExhaustedMeetsAllInUse` | include/storage/BoundedStorageMessagePool.h:215-236 | In every interleaving, an acquisition that reports exhaustion has met every slot in use at the moment it tried it. |
| `StatusResponsePools.PoolIsSafe` | include/api/StatusResponsePool.h:79-123 | In every interleaving of acquisitions, releases and moves, occupied slots and owning lease variables correspond one to one. |
| `StatusResponsePools.LeasesAreExclusive` | include/api/StatusResponsePool.h:24-95 | Two live leases never share a slot, and a live lease's generation is its slot's. |
| `StatusResponsePools.NoSlotLeaks` | include/api/StatusResponsePool.h:79-123 | A slot is in use if and only if some lease variable owns it. |
| `StatusResponsePools.ReleaseAlwaysFrees` | include/api/StatusResponsePool.h:113-123 | A release is never refused as stale and frees exactly its slot. |
| `StatusResponsePools.ActiveIsExact` | include/api/StatusResponsePool.h:79-123 | active is occupied slots less pending increments plus pending decrements, and neither access wraps. |
| `StatusResponsePools.MovedFromReleasesNothing` | include/api/StatusResponsePool.h:50-71 | Releasing a moved-from lease changes nothing; the new variable owns the slot. |
| `StatusResponsePools.OwnedAssign` | include/api/StatusResponsePool.h:25-32 | Move assignment, self-assignment included, releases the old slot and moves ownership. |
| `StatusResponsePools.AcquireAlone` | include/api/StatusResponsePool.h:79-95 | An undisturbed acquisition, from any state, binds the variable to the first free slot at its new generation, or, when none is free, leaves it null and counts one exhaustion; nothing else changes. |
| `StatusResponsePools.AloneIsRun` | include/api/StatusResponsePool.h:79-123 | The accesses of one task alone are a run of the pool. |
| `StatusResponsePools.ExhaustedMeetsAllInUse` | include/api/StatusResponsePool.h:79-95 | In every interleaving, an acquisition that reports exhaustion has met every slot in use at the moment it tried it. |
| `StatusResponsePools.ReleaseAlone` | include/api/StatusResponsePool.h:25-71 | An undisturbed release, at any point of any run, frees exactly its slot and nulls the variable; in a move assignment the variable ends with the other's lease and the other is null. |
| `ReplayWindow.AuthReplayWindow.Remember` | include/security/AuthReplayWindow.h:17-47 | The exact verdict and the fate of every entry, for any window and clock; stored digests stay distinct. |
| `ReplayWindow.WindowRefinesSet` | include/security/AuthReplayWindow.h:17-47 | Over runs with one window and non-decreasing times: Replayed exactly for digests accepted within the window, CapacityExceeded exactly when none matches and Capacity of them are held. |
| `ReplayWindow.RunRepresents` | include/security/AuthReplayWindow.h:17-47 | The table holds every unexpired accepted digest and only accepted ones. |
| `Utf8.GrammarIsEncoding` | include/api/BoundedJsonWriter.h:165-202 | The section 4 grammar of RFC 3629 describes exactly the encodings of Unicode scalar values. |
| `Utf8.ScalarsOfText` | include/api/BoundedJsonWriter.h:165-202 | Reading encoded text gives the text back, with nothing replaced. |
| `BoundedJson.QuotedMeansInput` | include/api/BoundedJsonWriter.h:35-102 | What is written parses by section 7 of RFC 8259 to the input's scalar values, each byte that starts no well-formed sequence read as U+FFFD. |
| `BoundedJson.TextRoundTrip` | include/api/BoundedJsonWriter.h:35-102 | Well-formed text is recovered exactly. |
| `BoundedJson.BoundedJsonWriter.Append` | include/api/BoundedJsonWriter.h:144-157 | Appends exactly when it fits and nothing overflowed before; otherwise overflow is set for good and the text stays; always terminated inside the buffer. |
| `BoundedJson.BoundedJsonWriter.Utf8SequenceLength` | include/api/BoundedJsonWriter.h:165-202 | The length of the well-formed sequence at the index by the section 4 grammar, or 0 if there is none. |
| `BoundedJson.RangesAreGrammar` | include/api/BoundedJsonWriter.h:196-200 | The range tests on the code point select what the grammar selects. |
| `BoundedJson.BoundedJsonWriter.WritePiece` | include/api/BoundedJsonWriter.h:40-99 | One turn of the loop writes the escape or sequence for the input at the index. |
| `BoundedJson.BoundedJsonWriter.String` | include/api/BoundedJsonWriter.h:35-102 | Succeeds exactly when the whole quoted text fits; on every path earlier output is untouched, the size stays below the capacity and the text is NUL-terminated. |
| `EnergyNormalizers.EnergyNormalizer.Update` | src/core/Algorithms.cpp:64-149 | Method, flag, interval, offset, lifetime and remaining unreconciled energy of every branch. |
| `EnergyNormalizers.OneUpdateAdvances` | src/core/Algorithms.cpp:72-119 | For readings below 2^32 the counter interval is the gain of offset plus reading and is not negative. |
| `EnergyNormalizers.PlainIntervalIsCounterInterval` | src/core/Algorithms.cpp:95-119 | In the delta, rollover and reset cases the reported interval is that energy. |
| `EnergyNormalizers.DecreaseIsRolloverOrReset` | src/core/Algorithms.cpp:99-119 | On the figures, a counter that decreases from above 0xFFF00000 to below 0x100000 is a rollover worth the difference modulo 2^32, and any other decrease a reset worth the new reading. |
| `EnergyNormalizers.BridgingIsReported` | src/core/Algorithms.cpp:72-98 | While the counter does not decrease, power integration is reported exactly when the energy still to be reconciled changes; otherwise the interval is the counter's gain. |
| `EnergyNormalizers.UnpairedIsIntegrated` | src/core/Algorithms.cpp:120-128 | Without both readings the integrated power is reported, as complete when it is and is not negative. |
| `EnergyNormalizers.OffsetPlusReadingIsExact` | src/core/Algorithms.cpp:64-149 | Over chained readings, offset plus reading advances by exactly the energy that passed the counter and never decreases. |
| `EnergyNormalizers.LifetimeIsExact` | src/core/Algorithms.cpp:129-147 | Over chained readings the lifetime is that sum less the baseline. |
| `EnergyNormalizers.LifetimeNeverDecreases` | src/core/Algorithms.cpp:129-149 | The lifetime never decreases over any run of updates. |
| `EnergyNormalizers.ReconciliationConservesIff` | src/core/Algorithms.cpp:75-98 | Reported energy less counter energy equals the change of the unreconciled energy if and only if the condition holds. |
| `EnergyNormalizers.BooksBalance` | src/core/Algorithms.cpp:64-149 | Over any run of chained readings, reported energy less counter energy is the change of the unreconciled energy plus the sum of the drifts. |
| `EnergyNormalizers.ReconciliationCanDrift` | src/core/Algorithms.cpp:75-98 | From a fresh normalizer, six updates report 6 Wh for 1 Wh that passed and 4 Wh left to reconcile. |
| `IntervalAggregators.IntervalAggregator.Add` | src/core/Algorithms.cpp:183-229 | Over all calls, the samples taken are exactly those offered that are later than the last one taken, and sums, extremes, trapezoid energy and raw ends equal their definitions over them. |
| `IntervalAggregators.IntervalAggregator.Finish` | src/core/Algorithms.cpp:238-308 | The record's means, between its extremes, its raw ends, wire interval and the energy update are those of the samples taken; a complete interval's integrated energy lies between the extremes it reports times the time spanned. |
| `IntervalAggregators.AverageBetween` | src/core/Algorithms.cpp:283-296 | A mean lies between the bounds of its values. |
| `IntervalAggregators.TrapezoidBetween` | src/core/Algorithms.cpp:218-225 | The trapezoid energy lies between least and greatest power times the hours covered. |
| `IntervalAggregators.AllValidCoversSpan` | src/core/Algorithms.cpp:218-225 | With all samples valid, the hours covered are the whole span. |
| `IntervalAggregators.CompleteIntervalEnergyBetween` | src/core/Algorithms.cpp:299-302 | A complete interval's integrated energy lies between the extremes of power times its duration. |
| `IntervalAggregators.WireInterval` | src/core/Algorithms.cpp:250-278 | A trusted interval is kept; an untrusted one has the monotonic duration, capped at a day and at least 1 ms, and ends no earlier than the given end. |
| `IntervalAggregators.WireAnchorIsLeast` | src/core/Algorithms.cpp:258-277 | An untrusted interval lies before the least moment that is not before the given end, the given start plus the duration, and 2024-01-01 plus the monotonic end or the duration. |
| `CivilTime.SuccessorIsNext` | src/api/HttpApi.cpp:3570-3578 | The next Gregorian date has the next day number, across month ends, leap days, years and eras. |
| `CivilTime.DayNumberCounts` | src/api/HttpApi.cpp:3570-3578 | The day number of a date is the number of days counted from 1970-01-01 to it. |
| `CivilTime.DateAfterInverse` | src/api/HttpApi.cpp:3570-3578 | And every count is the number of the date it reaches; the epoch is 0. |
| `CivilTime.DayNumberIsOrdered` | src/api/HttpApi.cpp:3570-3578 | Later dates have greater numbers. |
| `CivilTime.TimestampsAreOrderedIff` | src/api/HttpApi.cpp:3558-3584 | Within 64 bits, timestamps of two accepted moments are ordered as the moments are if and only if they are not 23:59:60 and the midnight after it. |
| `CivilTime.TimestampsAreOrdered` | src/api/HttpApi.cpp:3558-3584 | In particular for seconds below 60. |
| `CivilTime.OrderedUpToIff` | src/api/HttpApi.cpp:3577-3583 | All moments up to a given one have ordered timestamps, such ties apart, if and only if it is not after 584556019-04-03T14:25:51. |
| `CivilTime.FitsUpToLast` | src/api/HttpApi.cpp:3577-3583 | The milliseconds of a moment fit in 64 bits exactly up to that second. |
| `CivilTime.LeapSecondTiesWithMidnight` | src/api/HttpApi.cpp:3566-3569 | 2016-12-31T23:59:60 is before 2017-01-01T00:00:00 and has the same timestamp. |
| `CivilTime.SharedTimestampIff` | src/api/HttpApi.cpp:3558-3584 | Within 64 bits, two accepted texts share a timestamp exactly when they are the same moment, or second 60 of a minute and second 0 of the next. |
| `CivilTime.SecondSixtyIsNextMinute` | src/api/HttpApi.cpp:3566-3569 | Second 60 of any minute, the last of an hour or a day included, reads as second 0 of the next. |
| `CivilTime.ZeroMeansRefusedOrEpoch` | src/api/HttpApi.cpp:3558-3584 | Within 64 bits, 0 means refused or the epoch itself. |
| `CivilTime.FarYearsWrap` | src/api/HttpApi.cpp:3577-3583 | 584556019-01-01 is before 584556020-01-01 and has the greater timestamp. |
| `FirmwareImage.ParseLayout` | tools/firmware_image.py:69-102 | The segment loop and every check, with the source's errors in its order, are the layout function. |
| `FirmwareImage.SegmentsAreChained` | tools/firmware_image.py:78-89 | Accepted segments are non-empty, inside the image, and each follows its header behind the one before. |
| `FirmwareLayout.LayoutIsGrammar` | tools/firmware_image.py:69-102 | A file is accepted if and only if it is an ESP32-S3 header, one to sixteen non-empty segments behind their headers, zeroes up to a multiple of 16, and a checksum with or without a digest, as the header says. |
| `FirmwareLayout.FileParses` | tools/firmware_image.py:78-102 | The segments, checksum position and length found in such a file are those it was put together from. |
| `FirmwareLayout.ApplicationIs` | tools/firmware_image.py:121-133 | In those terms, when its seals are right and when it has an application descriptor. |
| `FirmwareImage.Checksum` | tools/firmware_image.py:105-110 | The nested loops compute the exclusive or of the segments' bytes with the magic value. |
| `FirmwareImage.ChecksumDetectsChange` | tools/firmware_image.py:105-110 | Changing one byte always changes the checksum. |
| `FirmwareImage.FieldRoundTrip` | tools/firmware_image.py:45-66 | A text is encoded exactly when it fits the field, and reads back. |
| `FirmwareLayout.FieldReadsIff` | tools/firmware_image.py:45-56 | A field reads as a text if and only if it holds the text's ASCII codes and then a NUL; what follows is ignored. |
| `FirmwareImage.Inspect` | tools/firmware_image.py:113-159 | Succeeds exactly on sealed application images with the marker and the expected contents, and returns what they hold; otherwise layout errors come first, then the seals, then the descriptor, and a missing marker last. |
| `FirmwareImage.PatchDescriptor` | tools/firmware_image.py:162-194 | Succeeds exactly on application images, matching versions and encodable texts; the fields are written, the image is sealed again, and nothing else changes. |
| `FirmwareImage.PatchKeepsLayout` | tools/firmware_image.py:172-194 | A patched image has the same segments, checksum position and length. |
| `FirmwareImage.PatchedImagePassesIff` | tools/firmware_image.py:162-207 | A patched image passes every inspection check for what was written if and only if the protocol marker is in it, which is if and only if the image had one clear of the patch or the bytes written complete one. |
| `FirmwareImage.MarkerSurvivesOrArises` | tools/firmware_image.py:172-194 | The marker is in the patched image if and only if the image had one clear of everything written, or the written bytes complete one with those around them. |
| `FirmwareImage.ArisesBesideTexts` | tools/firmware_image.py:59-66 | It can only arise from the version's text, the ELF hash, the checksum byte or the trailing digest. |
| `FirmwareImage.PatchFirmwareDescriptor` | tools/firmware_image.py:162-207 | An image that can be patched is patched and then accepted if and only if the file still contains the protocol marker, with exactly the metadata written; any other file is left alone and refused. |
| `FirmwareImage.PatchedReads` | tools/firmware_image.py:181-190 | Its fields read back as the given version, project, build time and date. |
| `DeviceStates.DeviceState.MissingRanges` | simulator/server.py:188-203 | The ranges are ordered, maximal, and cover exactly the numbers missing between the acknowledged and the greatest stored sequence. |
| `DeviceStates.DeviceState.ReadingsBatch` | simulator/server.py:704-799 | What is stored, answered and refused, in every case; 1 to the acknowledged sequence is always stored; the next one ends up stored and unacknowledged if and only if the batch is refused behind a reading of it. |
| `DeviceStates.DeviceState.StoreReadings` | simulator/server.py:743-787 | The loop stores the readings before the first malformed element, and says what became of each. |
| `DeviceStates.DeviceState.AdvanceAcknowledgement` | simulator/server.py:788-789 | Advances to the end of the contiguous run and ends. |
| `DeviceStates.StoredKeeps` | simulator/server.py:773-787 | Stored records never change, and a batch adds only its own readings. |
| `DeviceStates.EveryItemAnswered` | simulator/server.py:741-787 | Every reading of an answered batch is accepted, duplicate or rejected, once. |
| `DeviceStates.AcceptedAreTheNew` | simulator/server.py:783-787 | The accepted sequences are exactly the ones added, each once. |
| `DeviceStates.RejectedDiffer` | simulator/server.py:773-782 | A sequence is rejected exactly when some reading of it in the batch differs from what is stored for it in the end. |
| `DeviceStates.AnsweredIff` | simulator/server.py:709-771 | A batch is answered exactly when it names this device and holds 1 to 500 readings, all with a positive sequence. |
| `DeviceStates.ResendIsIdempotent` | simulator/server.py:773-787 | Sending a batch again stores nothing and accepts nothing. |
| `DeviceStates.LagsIff` | simulator/server.py:704-799 | Over any run of batches from a fresh device, the next sequence is stored and unacknowledged if and only if a batch was refused behind a reading of it and none has been answered since. |
| `DeviceStates.RunKeepsRecords` | simulator/server.py:704-799 | Over any run of batches, records never change and the acknowledged sequence never decreases. |
| `DeviceStates.DeviceState.RefusedBatchLeavesGap` | simulator/server.py:744-783 | A fresh device's first batch is refused at its second element, and leaves sequence 1 stored and 0 acknowledged. |

## Left out

- Parsing and serialising configurations and enrollment records: opaque payloads with the one property each proof uses.
- Mutexes, timeouts, logging and the scheduler: methods run to completion; tasks interleave at their atomic accesses.
- Weak memory ordering: atomics are sequentially consistent.
- Reads that fail while the power is on: reads are reliable; two defensive branches of the commit are then out of reach.
- Legacy migration, `beginReenrollment` and `saveEnrollment`: they zero cursors first, so the activation invariant is for runs without them.
- `Provisioning.ConfigService.CommitProvisioning`: PBKDF2 and the candidate's checks are parameters; publishing a configuration in memory does not fail; the physical password recovery runs the same journal over the two credentials alone, and is not modelled; a payload that describes the same configuration as one that parses is taken to parse, since both are what the serialiser writes.
- `Provisioning.ConfigService.StartUp`: creating defaults and migrating legacy configurations are not modelled, so a boot without any configuration does not come up.
- `Provisioning.ConfigService.AttemptIsSafeIff`: speaks of the outcomes that the contract of `CommitProvisioning` admits; that an unsafe store really loses is shown by runs of the method, `UnderivedVerifierLoses` and, for an active payload that parses, `RefusedJournalLoses`; behind one that does not parse, the load of a later boot can still bring the record back.
- `EnrollmentActivation.ActivationSurvivesCuts`: for runs without a new staging or a cursor setter between the retries, as start-up makes them; that a boot loads a safe store is `EnrollmentActivation.EnrollmentService.BootLoad`.
- `SampleDrain.QuiescedIsComplete`: the freeze is held once set, as the reset holds it; reopening the gate, the projection counters, mutex failure in the poll and a refused durable record are not modelled.
- `MemoryPressurePolicies.TimeIsAccounted`: counters are unbounded; clocks are positive and do not step back.
- `FragmentingHeap.FragmentingInternalHeap.Allocate`: sizes are unbounded, for arenas below half the address range; bit masks are read as arithmetic. The CSV and JSON dumps are easy members.
- `StoragePools.PoolIsSafe`: a slot's value, `get` and `reset` are not modelled; capacity plus tasks is below 2^16.
- `StatusResponsePools.PoolIsSafe`: response bodies are not modelled; capacity plus tasks is below 2^32.
- `BoundedJson.BoundedJsonWriter.String`: the other writers print numbers and literals through the same append; `snprintf` is not modelled.
- `EnergyNormalizers.EnergyNormalizer.Update`: energies are real numbers, and an integrated energy is below 2^62 Wh, beyond which `llround` has no defined result.
- `IntervalAggregators.IntervalAggregator.Finish`: measurements are real and within the range of a float; quality flags, power factor, frequency and the identity strings are copied or averaged only.
- `IntervalAggregators.WireInterval`: times are far from the 64-bit limit.
- `CivilTime.TimestampsAreOrderedIff`: scanning the text is a parameter.
- `FirmwareImage.PatchDescriptor`: SHA-256 and the version pattern are parameters; the temporary file and its replacement are not modelled. The source replaces the file before it inspects the result, so a patch that destroys the only marker is reported after the file has changed.
- `DeviceStates.DeviceState.ReadingsBatch`: a record is opaque; HTTP, faults, nonces and the protocol identity are parameters or left out.
- Key derivation, HTTP routes, storage, synchronisation and update services: not part of this model.
