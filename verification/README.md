# Verified model of the regional gateway and its crash-safe neighbours

This project models the parts of the repository whose correctness depends on what is durable when
something is interrupted, and on what bytes and rule lists mean, and proves their promises for every
input, run and interruption. `dafny verify dfyconfig.toml` checks all of it.

- **The gateway machine** (`RegionalAgreements`, `GatewayContracts`, `GatewayMachine`,
  `GatewaySafety`, `Gateway`, `GatewayExamples`). Partner policy changes, the periodic guard, service starts,
  certificate replacement and restores share seven durable files and one kernel peer set. `GatewayMachine.Step`
  is the relation of single actions: each writes at most one file, exchanges the directory or replaces the
  kernel set once, and a crash may come between any two. A service start takes no lock, so loading the policy, each of its three checks,
  deriving the peers and installing them are separate actions between which operations may run. A restore is
  planned only with nothing outstanding; its journal keeps every other operation away until it is committed or
  rolled back. `GatewaySafety` proves an invariant and its consequences over all runs. `Gateway` is the same
  thing in the source's form, a class with one method per operation, whose external calls succeed or fail as
  their arguments say; every method records the run that it performs and `Valid` ties that run to the fields,
  so the safety results hold of live gateways (`LiveGatewayIsSafe`). `GatewayExamples` builds concrete runs.
- **Certificate generations** (`CertificateLifecycle`): pointers, rollback and garbage collection, with
  a crash after any durable write.
- **The backup runtime swap** (`RuntimeSwap`), **the guest installer** (`GuestInstaller`) and **snapshot
  capture** (`SnapshotCapture`): two journalled transitions and one quiescing procedure under partial failure.
- **DNS and NTP probes** (`DnsNames`, `DnsAnswers`, `NtpClock`): decoders against an independent meaning.
- **Signed bytes** (`CanonicalJson`): writer, reader and round trip of canonical documents.
- **Rule lists** (`GatewayFirewall`, `RuleListing`): packets accepted by the rendered firewall, and what
  the comparison of nft listings distinguishes.

Environment choices are arguments: `Reply` says whether a call works, raises before its effect or raises
after it; `power` is the number of durable writes before the process dies. Since every result quantifies
over them, it holds for every failure and every crash point.

## Where the code promises less than one might expect

Each of these is proved, with a concrete input or run.

- A start of the unit that has passed its checks when an operation begins installs what it had readied. If that
  operation is a change, the set can be the superseded one behind the committed change
  (`OvertakenStartAdmitsRevoked`, in general `OvertakenStartIsStale`); it is stale only while that change is
  pending (`WholeRunSafety`), at most until the next close (`StaleUntilClosed`).
- Such a start also installs peers while a certificate intent exists (`OvertakenStartIgnoresIntent`) or while a
  review is pending (`OvertakenStartIgnoresReview`), and then may admit by approvals older than the floor of that
  review (`OvertakenStartPrecedesFloor`). What it finds is known exactly: a pending change, a superseded policy,
  an intent or a review, each if and only if the corresponding action came since its own read of that file
  (`StartInstallsExactly`). The floor holds for all later installs if and only if it holds for the waiting set
  (`FloorExactly`), and revocations are permanent if and only if it contains them (`RevocationExactly`). Without
  an overtaken start everything installed is the committed policy's and the set stays empty from closing to
  opening, and an action breaks this if and only if it overtakes a start (`StepStrict`, `UnlockedRunSafety`).
- Resuming the pending candidate converges exactly when the clock has not moved backwards and its agreements
  are unambiguous at that time (`PendingIsResumable`, `Apply`). A candidate that could be resumed at one time can
  be stuck later (`PendingTurnsUnresumable`).
- Peer derivation is antitone in the revocation list at any fixed time. While time passes it stays so exactly
  when no agreement comes into force (`PeerRulesAntitone`); one that does can even make the selection ambiguous
  (`AwaitedAgreementTurnsAmbiguous`).
- The comparison of rule listings is Python's: `true` passes for `1` (`TrueIsOne`).
- The decoder visits at most 128 positions. A name of 127 one-character labels, which a query may carry,
  decodes in the question, but every compressed answer for it is refused (`CompressedResponseAccepted`,
  `LongestNameRefused`).
- `timestamp` truncates towards zero, so an instant before 1900 that is not a whole second comes back one
  second late (`TimestampRoundTrip`, `Before1900IsLate`).
- Canonical documents that never went through `decode` can share their bytes: a key of two surrogate
  halves and the key of the character they encode (`SplitPairsCollide`). Two documents do so exactly when their
  members, in sorted order, agree after joining such halves (`SignedAlike`). Documents returned by `decode`
  never do (`DecodedDocuments`, `AcceptanceNamesOneOffer`).

## Model

| member | source | states |
|---|---|---|
| `GatewayContracts.PeerRules` | scripts/gateway_contracts.py:42-63 | the loop with its four seen-sets computes the declarative derivation: it succeeds exactly on at most eight genuine, pairwise consistent documents, and lists the active ones' rules sorted by fingerprint |
| `GatewayContracts.PeerRulesSound` | scripts/gateway_contracts.py:42-63 | a successful derivation holds a rule for each mutually approved, unrevoked, current document and for nothing else |
| `GatewayContracts.PeerRulesDistinct` | scripts/gateway_contracts.py:46-63 | rules in force together have pairwise distinct fingerprints, addresses and domains, none is revoked or expired, none claims a domain of this institution |
| `GatewayContracts.PeerRulesOrderIndependent` | scripts/gateway_contracts.py:47-63 | every permutation of the documents gives the same result, success or failure |
| `GatewayContracts.PeerRulesAntitone` | scripts/gateway_contracts.py:56-63 | enlarging the revocation list while time passes removes exactly the revoked and the expired rules if and only if no agreement comes into force in between; at a fixed time none does |
| `GatewayContracts.AwaitedAgreementTurnsAmbiguous` | scripts/regional_agreements.py:161-174 | two documents that are derivable at one time and ambiguous at a later one |
| `GatewayMachine.InitialInv` | scripts/gateway_store.py:26-41 | a freshly initialised store satisfies the invariant |
| `GatewayMachine.StepInv` | scripts/gateway_transition.py:10-26 | every action of every actor, crashes and unlocked service starts included, keeps the invariant: readable files, stage-by-stage facts of the operation in progress, and installed or checked sets derived from the committed policy or from the one that a pending change has just superseded |
| `GatewayMachine.StepStrict` | scripts/gateway_runtime.py:211-250 | one action keeps the stricter invariant (only the committed policy is installed or about to be, and the set is empty from closing to opening) if and only if it does not overtake a start that has passed the check it would fail |
| `GatewayMachine.InvReads` | scripts/gateway_store.py:77-83 | in a reachable state the checks inside the store's readers never fail, so what is read is what is on disk |
| `GatewaySafety.RunInv` | scripts/gateway_transition.py:10-26 | the invariant holds in every state of every run |
| `GatewaySafety.WholeRunSafety` | scripts/gateway_runtime.py:157-165 | in every reachable state each admitted address is backed by an agreement that was signed by both parties, current and not revoked when the set was computed; it belongs to the committed policy, or, while a just committed change is still pending, to the policy before it |
| `GatewaySafety.RunStrict` | scripts/gateway_runtime.py:211-250 | along every run the stricter invariant holds throughout if and only if no operation overtakes a start |
| `GatewaySafety.UnlockedRunSafety` | scripts/gateway_runtime.py:240-250 | in runs in which nothing overtakes a start, every admitted address is backed by the committed policy itself, and the set is empty from closing to opening |
| `GatewaySafety.OvertakenStartIsStale` | scripts/gateway_runtime.py:240-250 | from every reachable state where a new change begins behind a start's checks, a run commits the change and then installs the superseded set |
| `GatewaySafety.OvertakenStartIgnoresIntent` | scripts/gateway_certificates.py:83-95 | from every reachable state where a certificate replacement begins behind a start's checks, a run closes the set for the activation and then installs the waiting set with the intent in place |
| `GatewaySafety.OvertakenStartIgnoresReview` | scripts/restore_transaction.py:240-246 | from every reachable state where a restore suspends the gateway, or an intent is written again, behind a start's checks, the waiting set can be installed at once with the review or the intent outstanding |
| `GatewaySafety.StartInstallsExactly` | scripts/gateway_runtime.py:241-249 | whatever runs between a start's reads and its install: it installs the set of the policy that it read; a change is pending if and only if one began since its read of the pending change; the policy is superseded if and only if one was committed since; an intent exists if and only if one was written and not cleared since its read of the intent; a review is pending if and only if a restore suspended the gateway since its read of the review |
| `GatewaySafety.StaleUntilClosed` | scripts/gateway_transition.py:14-25 | from an empty set with no start waiting, while a change stays pending only its own policy is installed, so a superseded set lasts at most until the next close |
| `GatewaySafety.InstallsOnlyWhenSettled` | scripts/gateway_runtime.py:211-250 | no operation and no guard tick installs peers while a certificate intent, a recovery review or an uncommitted change exists, and they read the committed policy and the present floor; so does a start in the stricter invariant, and `StartInstallsExactly` says when in general |
| `GatewaySafety.OnlyInstallsInstall` | scripts/gateway_runtime.py:157-165 | no other action makes an empty set non-empty or adds an address to it |
| `GatewaySafety.StepNotOlder` | scripts/gateway_backup.py:172-189 | no action shrinks revocations, generation, clock or floor, apart from a rollback, which returns exactly the policy kept aside; a restore holds both revocation sets and a strictly larger generation than either |
| `GatewaySafety.RunNotOlder` | scripts/restore_transaction.py:204-263 | over every run with crashes, restores and rollbacks, the approval floor never decreases, nor do generation, revocations and clock checkpoint of the policy that would survive a rollback, and the live ones are never older than those |
| `GatewaySafety.ReferenceBelowFloor` | scripts/gateway_recovery.py:23-41 | the in-directory reference never exceeds the floor outside, so loading never fails in a reachable state |
| `GatewaySafety.FloorOutlivesReview` | scripts/gateway_recovery.py:44-71 | after a suspension every later install, even after the review, admits only agreements issued and accepted at or after its floor, if the set of a start that waits at that moment does so |
| `GatewaySafety.FloorExactly` | scripts/restore_transaction.py:243-246 | that condition is exact: all installs of all runs from a reachable state respect a floor already reached if and only if the waiting set does |
| `GatewaySafety.ReviewClearsOnlyFresh` | scripts/gateway_recovery.py:66-71 | the review flag is cleared only when pending, state and candidate agree and are all fresh, and the floor stays |
| `GatewaySafety.StepSealed` | scripts/gateway_store.py:98-115 | revocations that are committed or pending, would survive a rollback, and are contained in the installed set and in what a start goes on with, stay so under every action, restores and rollbacks included |
| `GatewaySafety.RunSealed` | scripts/gateway_transition.py:10-26 | and so they do over every run, whatever restores it contains |
| `GatewaySafety.RevocationIsPermanent` | scripts/gateway_transition.py:10-26 | from a change that is durable behind an empty set, with no start going on without its revocations, in every run with crashes, restores and rollbacks, each later set comes from a policy with all its revocations, and everybody in it is admitted by an agreement that it does not revoke |
| `GatewaySafety.RevocationExactly` | scripts/gateway_runtime.py:249-249 | the condition on the waiting set is exact: behind an empty set, every install of every run keeps the revocations if and only if the set that waits holds them |
| `GatewaySafety.PendingEndsCommitted` | scripts/gateway_store.py:110-115 | a pending change disappears only by finishing with the state equal to it |
| `GatewaySafety.ChangeIsNeverLost` | scripts/gateway_store.py:98-115 | over any run a durable change is still pending, or its policy has been committed since |
| `GatewayExamples.ChangeGoesThrough` | scripts/gateway_transition.py:10-26 | from every reachable state that is ready for a candidate (it may begin, the clock stands at the time of the change, its peers can be derived then, and its documents are fresh), an undisturbed change ends with it committed, nothing pending, the review cleared and exactly its unexpired peers installed |
| `GatewayExamples.StartPassesChecks` | scripts/gateway_runtime.py:241-249 | from every reachable state with nothing outstanding a start can reach its install with the committed peers |
| `GatewayExamples.OvertakenStartAdmitsRevoked` | scripts/gateway_runtime.py:240-250 | a concrete run in which an overtaken start admits a partner whose agreement the committed policy revokes |
| `GatewayExamples.OvertakenStartPrecedesFloor` | scripts/restore_transaction.py:240-246 | a concrete run in which a restore suspends the gateway and a waiting start then admits a partner by an approval older than the floor, with the review pending |
| `GatewayExamples.PendingTurnsUnresumable` | scripts/gateway_operations.py:167-177 | a concrete interrupted change that can be resumed at one time and never goes through at a later one, because two of its agreements become ambiguous |
| `Gateway.ChangeReads` | scripts/gateway_store.py:106-115 | while a change runs, what its steps read back is their own candidate, so their re-checks never refuse |
| `Gateway.ReplaceReads` | scripts/gateway_certificates.py:83-95 | while a replacement holds the lock no policy change is pending, and after clearing no intent is left |
| `Gateway.PendingIsResumable` | scripts/gateway_operations.py:167-177 | from every crash point that left a candidate pending, resuming it is possible if and only if the clock allows it and its peers can be derived; its documents are still fresh and no restore is in progress |
| `Gateway.PeersOfReviewed` | scripts/gateway_store.py:70-75 | clearing the review flag does not change which peers are derived |
| `Gateway.LiveGatewayIsSafe` | scripts/gateway_runtime.py:157-165 | the whole-run result about a gateway object after any sequence of its methods, the three parts of a start included |
| `Gateway.Gateway.constructor` | scripts/gateway_store.py:26-41 | a new gateway is in the initial state |
| `Gateway.Gateway.ReadPending` | scripts/gateway_store.py:77-83 | the candidate, nothing, or a refusal when its history does not continue the state |
| `Gateway.Gateway.Peers` | scripts/gateway_store.py:70-75 | the peers derived from the fresh documents of a valid policy |
| `Gateway.Gateway.PolicyTime` | scripts/gateway_runtime.py:105-124 | the checkpoint moves only forward; a backward clock or a missing history is refused and writes nothing |
| `Gateway.Gateway.StoreBegin` | scripts/gateway_store.py:98-104 | accepts exactly the pending candidate or a successor that keeps every revocation; the intent is durable unless its write raises before its effect |
| `Gateway.Gateway.CloseForChange` | scripts/gateway_transition.py:15-15 | whatever close reports, the set is empty unless it raised before its effect |
| `Gateway.Gateway.Validate` | scripts/gateway_runtime.py:145-149 | changes nothing but the clock checkpoint, and passes exactly under its checks |
| `Gateway.Gateway.CommitPolicy` | scripts/gateway_store.py:106-108 | commits the candidate behind the closed set; the check for a matching intent never refuses here |
| `Gateway.Gateway.LoadForStart` | scripts/gateway_runtime.py:241-242 | the first part of a start closes and loads the committed policy, exactly when the clock and the peers allow it |
| `Gateway.Gateway.ReadPendingForStart` | scripts/gateway_runtime.py:249-249 | the start goes on exactly when no change is pending now |
| `Gateway.Gateway.ReadCertificateForStart` | scripts/gateway_runtime.py:249-249 | the start goes on exactly when no certificate intent exists now |
| `Gateway.Gateway.ReadReviewForStart` | scripts/gateway_runtime.py:249-249 | the start goes on exactly when no review is pending now |
| `Gateway.Gateway.DerivePeersForStart` | scripts/gateway_runtime.py:249-249 | readies the peers of the policy that the start loaded, under the present floor, exactly when they can be derived |
| `Gateway.Gateway.CheckForStart` | scripts/gateway_runtime.py:249-249 | the reads in a row, as when nothing comes in between: the peers of the loaded policy are readied exactly when nothing is outstanding and they can be derived |
| `Gateway.Gateway.InstallForStart` | scripts/gateway_runtime.py:249-249 | the third part installs what was readied, whatever has happened since |
| `Gateway.Gateway.RunService` | scripts/gateway_runtime.py:240-250 | a service start that nothing overtakes succeeds exactly under its checks and installs the committed peers; with a pending change, certificate or review the set stays closed |
| `Gateway.Gateway.ReviewRecovery` | scripts/gateway_recovery.py:66-71 | clears the review flag for fresh documents only and changes no other file |
| `Gateway.Gateway.OpenChecks` | scripts/gateway_runtime.py:157-165 | the checks in front of an install pass exactly when no review, certificate intent or policy difference is outstanding and the peers can be derived |
| `Gateway.Gateway.OpenForChange` | scripts/gateway_transition.py:21-21 | opening installs exactly the candidate's unexpired peers |
| `Gateway.Gateway.FinishChange` | scripts/gateway_store.py:110-115 | removes the intent and nothing else |
| `Gateway.Gateway.Replace` | scripts/gateway_transition.py:15-17 | close, validate, commit: success leaves the candidate committed behind a closed set |
| `Gateway.Gateway.Relaunch` | scripts/gateway_transition.py:18-19 | installing and restarting change nothing but the clock checkpoint, end every start in progress and leave the set closed |
| `Gateway.Gateway.Conclude` | scripts/gateway_transition.py:20-22 | review, open and finish leave the candidate's peers installed and nothing pending |
| `Gateway.Gateway.Carry` | scripts/gateway_transition.py:14-22 | the guarded part of a change, and exactly when it goes through without faults |
| `Gateway.Gateway.FailClosed` | scripts/gateway_transition.py:23-26 | whatever failed, closing is attempted once more and the error says whether it succeeded |
| `Gateway.Gateway.Apply` | scripts/gateway_transition.py:10-26 | one change or resumption: applied means state is the candidate, nothing pending and its peers installed; a closed transition error means an empty set; a failing write of the intent changes nothing else; a fault-free attempt succeeds if and only if the change is resumable |
| `Gateway.Gateway.Candidate` | scripts/gateway_store.py:85-94 | prepares a successor that keeps every revocation, exactly when nothing is pending and its documents are fresh, valid and derivable; such a candidate can always begin |
| `Gateway.Gateway.Change` | scripts/gateway_operations.py:161-177 | an operator resumes exactly the pending candidate, or applies the successor with the revocations added, refused if and only if a restore, an intent or an invalid, stale or ambiguous candidate stands in the way; without faults it succeeds exactly when the change is resumable |
| `Gateway.Gateway.GuardTick` | scripts/gateway_runtime.py:214-221 | a tick closes while anything is outstanding, otherwise installs the committed policy's peers, succeeds exactly under its checks, and closes when one fails |
| `Gateway.Gateway.WriteIntent` | scripts/gateway_certificates.py:83-86 | the intent is durable before anything is closed, and a failing write leaves everything else alone |
| `Gateway.Gateway.CloseForReplacement` | scripts/gateway_certificates.py:88-88 | closing behind the intent |
| `Gateway.Gateway.ActivationDone` | scripts/certificate_lifecycle.py:131-143 | a restart of the unit inside activation leaves the set empty and ends a start in progress; identical material that is served already restarts nothing |
| `Gateway.Gateway.ReopenAfterReplacement` | scripts/gateway_certificates.py:52-55 | reopens with the current peers, or stays closed while a review is pending |
| `Gateway.Gateway.Perform` | scripts/gateway_certificates.py:89-95 | success leaves no intent, verified new or verified previous material active, and access as recovery permits |
| `Gateway.Gateway.KeepPending` | scripts/gateway_certificates.py:96-102 | on failure the intent is durable again before the last attempt to close; if that write fails nothing is closed any more |
| `Gateway.Gateway.ReplaceCertificate` | scripts/gateway_certificates.py:58-102 | exactly one of: nothing happened (unsuitable material, a pending change, another intent or a restore), the intent could not be written, new certificate active, previous one recovered, intent left with closing attempted last, or abandoned because the intent could not be written again; policy files never change, unsuitable material never closes a working gateway, and with working calls around it the service's answers decide |
| `Gateway.Gateway.PlanRestore` | scripts/restore_transaction.py:87-101 | a restore starts exactly when no change, no certificate intent and no other restore is outstanding |
| `Gateway.Gateway.BeginRestore` | scripts/gateway_backup.py:163-169 | within a planned restore, the new floor is at least every known clock and floor, marker before reference, whatever is interrupted |
| `Gateway.Gateway.ReplaceDirectory` | scripts/gateway_backup.py:172-189 | within a planned restore, behind a closed set and with nothing outstanding, the restored state holds both revocation sets and a generation above both and never precedes the floor; the previous directory is kept; it refuses exactly without a review or with an invalid merge |
| `Gateway.Gateway.RollBackRestore` | scripts/restore_transaction.py:204-217 | a failed restore returns exactly the files of the previous directory and keeps the raised floor and its review |
| `Gateway.Gateway.EndRestore` | scripts/restore_transaction.py:184-193 | ending a restore removes the journal and changes nothing else |
| `CertificateLifecycle.Generations.PointActive` | scripts/certificate_lifecycle.py:92-96 | the active pointer is moved whole or not at all, and never past a stale link |
| `CertificateLifecycle.Generations.PointPrevious` | scripts/certificate_lifecycle.py:92-96 | the same for the previous pointer |
| `CertificateLifecycle.Generations.Stage` | scripts/certificate_lifecycle.py:113-130 | success means the directory holds exactly the given pair; existing directories are never modified |
| `CertificateLifecycle.Generations.Collect` | scripts/certificate_lifecycle.py:145-148 | kept generations are untouched at every crash point, success leaves only kept ones |
| `CertificateLifecycle.Generations.Confirm` | scripts/certificate_lifecycle.py:107-112 | identical material is reported active exactly when its fingerprint is verified at once or after one restart |
| `CertificateLifecycle.Generations.Rollback` | scripts/certificate_lifecycle.py:136-143 | recovered means the entry generation is active and its recorded fingerprint verified after the restart |
| `CertificateLifecycle.Generations.Retire` | scripts/certificate_lifecycle.py:144-149 | the entry generation becomes the previous one and both survive the collection |
| `CertificateLifecycle.Generations.Switch` | scripts/certificate_lifecycle.py:131-149 | from the entry generation to the staged one or back: active means switched, verified, retained and collected; otherwise the service's answers decide whether the entry generation is recovered |
| `CertificateLifecycle.Generations.Activate` | scripts/certificate_lifecycle.py:99-149 | across failures and crashes neither pointer dangles and the entry generation is intact; success means exactly the given pair is active and verified; a recovered error means the entry generation is active and verified; without crashes the service's answers alone decide between success and recovery |
| `RuntimeSwap.BackupRuntime.Prepare` | scripts/backup_schedule.py:109-116 | the intent is written only with a verified old runtime and a complete candidate |
| `RuntimeSwap.BackupRuntime.Refresh` | scripts/backup_schedule.py:95-132 | at every crash point the layout is one of the three of the swap; another source is refused while the intent exists; a rerun completes from every point and is a no-op after completion |
| `RuntimeSwap.OldRuntimeSurvives` | scripts/backup_schedule.py:95-132 | over any sequence of interrupted attempts the old runtime survives intact and the live one is absent, old or desired |
| `GuestInstaller.Installation.Attach` | scripts/guest_installation.py:54-70 | journal before POST; a remote installer without a matching journal is neither adopted nor restarted; an undisturbed attempt, or its repetition after any crash, goes through |
| `GuestInstaller.Installation.Start` | scripts/guest_installation.py:73-87 | the installer-start POST is sent only on the step out of media-attached, and an undisturbed first attempt sends it; a repetition only reports |
| `GuestInstaller.Installation.Finish` | scripts/guest_installation.py:90-106 | disk-ready is journalled only for a disk-only guest that was stopped; an undisturbed attempt, or its repetition after any crash, goes through |
| `GuestInstaller.Installation.Boot` | scripts/guest_installation.py:109-124 | the disk-start POST is sent only on the step out of disk-ready, and an undisturbed first attempt sends it; later ones only observe |
| `GuestInstaller.Installation.ConfirmLogin` | scripts/guest_installation.py:138-149 | attestation only for a running disk-only guest, never moving the journal backwards |
| `GuestInstaller.Installation.Interfere` | scripts/guest_installation.py:26-51 | console power changes and late digest-guarded updates keep every phase matched with its stages |
| `GuestInstaller.Installation.PostUpdate` | scripts/guest_installation.py:49-51 | a digest-guarded update takes effect only on the configuration it was computed from |
| `GuestInstaller.Installation.History` | scripts/guest_installation.py:54-149 | over any history with lost, delayed and repeated effects the journal never moves backwards, each phase admits only its stages, and each start POST is sent at most once |
| `SnapshotCapture.Host.StopAll` | scripts/backup_snapshot.py:133-139 | success means every originally active service was observed stopped; a failed stop is still recovered |
| `SnapshotCapture.Host.CopyAll` | scripts/backup_snapshot.py:143-151 | the snapshot is complete only when every path was copied and validated |
| `SnapshotCapture.Host.StartAll` | scripts/backup_snapshot.py:155-161 | restarts run in reverse stop order whatever fails |
| `SnapshotCapture.Host.Capture` | scripts/backup_snapshot.py:111-165 | stops, then copies with nothing running, then reverse restarts; inactive services untouched; success is complete and restored; failure leaves no snapshot and either the services running or a recovery error; only a removal that fails itself leaves a snapshot, never as success |
| `SnapshotCapture.ActiveOfMembers` | scripts/backup_snapshot.py:119-119 | the services to stop are exactly the catalogue's active ones |
| `DnsNames.DenotesUnique` | scripts/portable_network_probe.py:19-35 | a position denotes at most one name, in the meaning of section 4.1.4 of RFC 1035 |
| `DnsNames.DnsName` | scripts/portable_network_probe.py:19-35 | the loop accepts exactly the names with a finite meaning within 128 visits, returns that name and the offset behind its encoding, in bounds on every byte string |
| `DnsNames.JoinSplit` | scripts/portable_network_probe.py:15-15 | joining the labels of a host gives the host back |
| `DnsNames.EncodedDenotes` | scripts/portable_network_probe.py:14-16 | encoded labels denote those labels wherever they stand in a packet |
| `DnsNames.QueryRoundTrip` | scripts/portable_network_probe.py:14-35 | decoding the question of a query returns its host, for every name of at most 127 plain labels |
| `DnsAnswers.TilingUnique` | scripts/portable_network_probe.py:51-59 | the records of a packet are determined by where the first one starts |
| `DnsAnswers.BodyAddresses` | scripts/portable_network_probe.py:56-58 | all readings of one packet agree on the answers |
| `DnsAnswers.ReadRecord` | scripts/portable_network_probe.py:52-59 | reads a record exactly when there is one, and an answer exactly when it is an address record of the asked name |
| `DnsAnswers.DnsAnswer` | scripts/portable_network_probe.py:38-65 | accepts if and only if the packet is acceptable: matching header, or a bare refusal, or records tiling the packet behind the question, every answer an A/IN record of the asked name equal to the expected address, none for a negative check |
| `DnsAnswers.CompressedResponseAccepted` | scripts/portable_network_probe.py:38-65 | a successful response with any number of pointer-compressed answers up to 4096 bytes, any times to live and flags, is accepted if and only if it has an answer, its further records fill the packet, and the name has at most 126 labels |
| `DnsAnswers.ResponseIsCompressed` | scripts/portable_network_probe.py:38-65 | such responses exist for every query and every list of answers that fits |
| `DnsAnswers.LongestNameRefused` | scripts/portable_network_probe.py:19-22 | a name of 127 labels that queries carry and whose compressed responses are all refused |
| `NtpClock.NtpTimeNearest` | scripts/portable_network_probe.py:105-108 | decoding yields the instant congruent modulo 2^32 seconds that is nearest to the reference |
| `NtpClock.TimestampKeeps` | scripts/portable_network_probe.py:95-97 | what the wire keeps of an instant: rounded down to a tick, one second late before 1900 |
| `NtpClock.TimestampRoundTrip` | scripts/portable_network_probe.py:95-108 | within half an era, decoding a timestamp is within 2^-32 s of the instant if and only if that is from 1900 on or a whole second |
| `NtpClock.Before1900IsLate` | scripts/portable_network_probe.py:95-97 | an instant before 1900 that comes back one second late |
| `NtpClock.OffsetAccuracy` | scripts/portable_network_probe.py:116-118 | the measured offset misses the true one by half the difference of the travel times, and less than a tick |
| `NtpClock.DecodedExactly` | scripts/portable_network_probe.py:95-108 | a decoded timestamp is exactly the instant rounded down to a tick |
| `NtpClock.HonestAnswerAccepted` | scripts/portable_network_probe.py:100-120 | every timely answer of an honest server to a query is accepted while the clocks differ by less than five seconds up to half the path asymmetry and a tick, and its offset is accurate to that |
| `NtpClock.AcceptedBoundsSkew` | scripts/portable_network_probe.py:100-120 | an accepted answer to a query echoes it and bounds the true clock difference by 5 + 2.5/2 seconds, and a tick, whatever the travel times |
| `CanonicalJson.TextReads` | scripts/regional_agreements.py:35-35 | every escaped text reads back with its surrogate halves joined |
| `CanonicalJson.TreeReads` | scripts/regional_agreements.py:33-52 | reading what was written for any value, with members in any order and before anything that may follow it, yields that value with its surrogate halves joined |
| `CanonicalJson.WrittenAlike` | scripts/regional_agreements.py:35-35 | two values have one written form if and only if they agree after joining surrogate halves |
| `CanonicalJson.BuildTreeOf` | scripts/regional_agreements.py:33-47 | writing an object's members in sorted order loses nothing: the pairs hook makes the same document of them |
| `CanonicalJson.BuildExactly` | scripts/regional_agreements.py:42-47 | the pairs hook refuses a value if and only if some object in it, at any depth, repeats a key |
| `CanonicalJson.SignedAlike` | scripts/regional_agreements.py:33-37 | two documents have the same bytes if and only if their values, members sorted, agree after joining surrogate halves |
| `CanonicalJson.DumpInjective` | scripts/regional_agreements.py:33-37 | different joined documents have different bytes |
| `CanonicalJson.CanonicalRoundTrip` | scripts/regional_agreements.py:33-52 | an object's signed bytes decode to it if and only if no text in it splits a surrogate pair |
| `CanonicalJson.WrittenDecodes` | scripts/regional_agreements.py:40-52 | the text of any value, members in any order, decodes to the document that the hook makes of it with surrogate halves joined, exactly when it is short enough, is an object, repeats no key and its document can be signed |
| `CanonicalJson.PrintableDocuments` | scripts/regional_agreements.py:18-52 | with printable keys the signed bytes decode to the document and name only it |
| `CanonicalJson.DecodedDocuments` | scripts/regional_agreements.py:40-52 | whatever decode returns can be signed and its signed bytes decode to it again |
| `CanonicalJson.AcceptanceNamesOneOffer` | scripts/regional_agreements.py:151-158 | an acceptance digest names exactly one of the offers that reach a verifier |
| `CanonicalJson.MembersInAnyOrder` | scripts/regional_agreements.py:42-47 | the hook makes the same document, or refuses, whatever the order of an object's members |
| `CanonicalJson.SplitPairsCollide` | scripts/regional_agreements.py:33-37 | two different documents with the same signed bytes |
| `GatewayFirewall.Render` | scripts/gateway_rendering.py:85-117 | for every peer list the rendered set holds exactly the unexpired supported peers, for the rest of their agreements, and the rendered rules accept a packet if and only if its traffic is permitted for these peers |
| `GatewayFirewall.MembersAre` | scripts/gateway_rendering.py:93-96 | the peer set holds exactly the unexpired peers with a supported service, for the rest of their agreement |
| `GatewayFirewall.MembersInstalled` | scripts/gateway_runtime.py:139-139 | rendering one second ahead installs the addresses that the gateway machine installs |
| `GatewayFirewall.FirewallMeaning` | scripts/gateway_rendering.py:104-116 | for every peer set, first-match evaluation accepts a packet if and only if its traffic is permitted, independently of connection state |
| `GatewayFirewall.ClosedMeansClosed` | scripts/gateway_runtime.py:143-143 | with no peers all regional traffic on the VPN interface is dropped |
| `RuleListing.SortIsStable` | scripts/portable_frontend_runtime.py:63-63 | the result is ordered by key and keeps the order inside every key |
| `RuleListing.GroupsDetermine` | scripts/portable_frontend_runtime.py:63-63 | ordered lists with the same groups are the same list |
| `RuleListing.ListingsMatch` | scripts/portable_frontend_runtime.py:52-63 | listings compare equal in Python if and only if, key by key, their normalized tables, chains and rules are equal in order, and the remaining entries, sorted by content, are equal one by one |
| `RuleListing.ExchangeAccepted` | scripts/portable_frontend_runtime.py:52-63 | exchanging neighbours is accepted if and only if they have different keys or compare equal |
| `RuleListing.OneChain` | scripts/portable_frontend_runtime.py:52-63 | inside one chain the comparison is Python's equality of order, number and content |
| `RuleListing.PyEqualUntyped` | scripts/portable_frontend_runtime.py:75-75 | Python's equality of JSON values is equality after writing booleans as integers, at every depth |
| `RuleListing.SameKey` | scripts/portable_frontend_runtime.py:55-62 | tables, chains and rules that compare equal have one sort key |
| `RuleListing.TrueIsOne` | scripts/portable_frontend_runtime.py:75-75 | two listings that differ in a true flag against the integer 1 compare equal |
| `RuleListing.OtherEntriesByContent` | scripts/portable_frontend_runtime.py:56-59 | entries of other kinds with one key are the same entry |
| `RuleListing.NormalizeDropsHandles` | scripts/portable_frontend_runtime.py:46-49 | normalizing removes handles at every depth and changes nothing that has none |
| `RuleListing.AcceptedMeans` | scripts/portable_frontend_runtime.py:73-75 | the check of an existing firewall accepts if and only if the listing without metainfo agrees with the wanted rules group by group, and its remaining entries one by one |

## Left out

- Cryptography: signatures are a flag of a document, fingerprints are keys, digests are what they hash; SHA-256 is taken as injective.
- File ownership, modes, symlink refusals and fsync: a private write, a rename and an unlink are each one atomic durable step.
- Malformed state, marker and clock files: files hold well-formed values; only their relations (history, floor, generation) can be wrong.
- `Gateway.Gateway.LoadForStart`: closing, the clock checkpoint and loading are separate actions, but the derivation that decides about the listener configuration is one with loading; restarting the unit ends a start in progress, as the service manager does.
- `Gateway.Gateway.StoreBegin`: takes candidates as `Candidate` prepares them or as they were read back under the same lock; its callers have no others.
- `GatewaySafety.RevocationExactly`: leaves out a start between its first check and its peers, which may still refuse to go on; `RevocationIsPermanent` and `StartInstallsExactly` cover it.
- `Gateway.Gateway.ReplaceCertificate`: the service restarts inside activation are one action that closes the set and ends a start; the start behind it is the machine's, which cannot pass its checks while the intent exists.
- `Gateway.Gateway.ReplaceDirectory`: the exchange of the directory is one step with the gateway closed and the unit stopped; restores of other packages, component hashes, service validation and upgrade transactions are not part of this model.
- `GatewayFirewall.FirewallMeaning`: other tables of the host, the expiry of set elements inside the kernel (the machine's expiry step) and rendering to text are not modelled; the LAN interface is never the VPN interface, which the renderer checks first.
- `DnsAnswers.CompressedResponseAccepted`: covers answers whose owner is one pointer to the question; other compressions are covered by the exact acceptance condition of `DnsAnswer`.
- `NtpClock.AcceptedBoundsSkew`: over real numbers; floating-point rounding and the six-digit rounding of the reported offset are not modelled, and both server instants are taken as representable.
- `CanonicalJson.DecodedDocuments`: input is text behind strict UTF-8 decoding; floats and the non-finite literals are refused by the reader instead of by the check after it, which refuses the same documents.
- `RuleListing.AcceptedMeans`: family, table, chain and name are strings; the source raises when it has to order others. Numbers are integers.
- `GuestInstaller.Installation.History`: one role with its journal intact; the configuration digest is represented by the stage, and fields other than media, boot order and description by an unrecognised stage.
- `CertificateLifecycle.Generations.Activate`: hostname copies of the two files are not separate entries, and a directory is created by four writes.
- `receive`, the socket probes, the wizards, status output, archive building, installation, Envoy, NGINX and unit texts: input and output, or text whose meaning lives in other programs.
- Field-by-field schema validators and planners: one-branch checks that would only add easy members.
