/** The regional gateway as a state machine: its durable files, the kernel peer set, and every
    actor that may touch them (scripts/gateway_transition.py, gateway_store.py, gateway_runtime.py,
    gateway_recovery.py, gateway_certificates.py, gateway_backup.py, restore_transaction.py).
    An action writes at most one file, exchanges the directory or replaces the kernel set once, and
    `Crash` is possible between any two, so a run visits every state an interruption can leave behind. A start of
    the unit takes no lock: loading the policy, each of its checks, deriving the peers and installing
    them are actions of their own, and those of an operation may come in between. */
module GatewayMachine {
  import opened Wrappers
  import opened RegionalAgreements
  import opened GatewayContracts
  import CertificateLifecycle

  /** The digest of certificate and key in the replacement intent, represented by the pair. */
  type Digest = CertificateLifecycle.Material

  const MAX_INTEGER: nat := 0x20_0000_0000_0000
  const MAX_REVOCATIONS: nat := 4096

  /** state.json and pending.json. The sorted duplicate-free revocation list is a set. */
  datatype Policy = Policy(generation: nat, agreements: seq<Document>, revoked: set<AgreementId>)

  /** rdc-gateway-recovery.json, kept outside the gateway directory. */
  datatype Recovery = Recovery(transaction: nat, floor: Time, reviewPending: bool)

  /** The restore journal: a restore is being prepared, or has exchanged the directory and still keeps
      the previous one. While it exists no operation on the gateway begins. */
  datatype Fence = Preparing | Exchanged(policy: Policy, clock: Option<Time>, reference: Option<Time>)

  datatype Disk = Disk(
    policy: Policy, pending: Option<Policy>, clock: Option<Time>,
    reference: Option<Time>, marker: Option<Recovery>, certificate: Option<Digest>, fence: Option<Fence>)

  /** The kernel peer set. `source`, `record` and `at` are a history of what it was computed from. */
  datatype Kernel =
    | Shut
    | Installed(members: set<Address>, source: Policy, record: Option<Recovery>, at: Time)

  datatype ChangeStage = Begun | Closed | Committed | Relaunched | Reviewed | Opened | Finished | ChangeFailing
  datatype ReplaceStage = Marked | Isolated | Activated | Confirmed | Cleared | Reopened | ReplaceFailing | Remarked

  /** The operation holding the store lock, and how far it has come. */
  datatype Job =
    | Idle
    | Changing(candidate: Policy, stage: ChangeStage)
    | Replacing(digest: Digest, step: ReplaceStage)
    | Suspending(record: Recovery)

  /** A start of the unit: the policy it has loaded, the checks it has passed with it, and the set that
      it is then about to install. */
  datatype Start =
    | Absent
    | Loaded(policy: Policy)
    | PastPending(policy: Policy)
    | PastCertificate(policy: Policy)
    | PastReview(policy: Policy)
    | Checked(set': Kernel)
  {
    /** It has read that no change is pending. */
    predicate Past() { PastPending? || PastBoth() }

    /** It has read that no certificate intent exists, too. */
    predicate PastBoth() { PastCertificate? || PastAll() }

    /** It has read that no review is pending, too. */
    predicate PastAll() { PastReview? || Checked? }
  }

  datatype System = System(own: Identity, disk: Disk, kernel: Kernel, job: Job, start: Start)

  // ----- The store's readers -----

  ghost predicate ValidPolicy(own: Identity, p: Policy) {
    && p.generation < MAX_INTEGER && |p.revoked| <= MAX_REVOCATIONS
    && PeerRulesOf(own, p.agreements, p.revoked, 0).Success?
  }

  ghost function PendingOf(own: Identity, disk: Disk): Result<Option<Policy>> {
    match disk.pending
    case None => Success(None)
    case Some(c) =>
      if && ValidPolicy(own, c) && ValidPolicy(own, disk.policy)
         && c.generation in {disk.policy.generation, disk.policy.generation + 1}
         && disk.policy.revoked <= c.revoked
         && (c.generation == disk.policy.generation ==> c == disk.policy)
      then Success(Some(c)) else Failure
  }

  function Load(disk: Disk): Result<Option<Recovery>> {
    match disk.marker
    case None => if disk.reference.Some? then Failure else Success(None)
    case Some(r) =>
      if !(0 < r.floor < MAX_INTEGER) || (disk.reference.Some? && r.floor < disk.reference.value)
      then Failure else Success(Some(r))
  }

  predicate Fresh(record: Option<Recovery>, d: Document) {
    record.Some? ==> d.offer.issuedAt >= record.value.floor && d.acceptance.acceptedAt >= record.value.floor
  }

  predicate FreshDocuments(record: Option<Recovery>, docs: seq<Document>) {
    forall d | d in docs :: Fresh(record, d)
  }

  function SelectFresh(record: Option<Recovery>, docs: seq<Document>): seq<Document> {
    if docs == [] then []
    else (if Fresh(record, docs[0]) then [docs[0]] else []) + SelectFresh(record, docs[1..])
  }

  ghost function PeersOf(own: Identity, p: Policy, record: Option<Recovery>, now: Time): Result<seq<Rule>> {
    if ValidPolicy(own, p) then PeerRulesOf(own, SelectFresh(record, p.agreements), p.revoked, now) else Failure
  }

  predicate AwaitingReview(record: Option<Recovery>) {
    record.Some? && record.value.reviewPending
  }

  function AfterReview(record: Option<Recovery>): Option<Recovery> {
    if AwaitingReview(record) then Some(record.value.(reviewPending := false)) else record
  }

  function Floor(disk: Disk): Time {
    if disk.marker.Some? then disk.marker.value.floor else 0
  }

  /** The addresses the rendered firewall admits when it is rendered at second `second`. */
  function Members(rules: seq<Rule>, second: Time): set<Address> {
    set r | r in rules && r.expiresAt > second + 1 && r.services * SERVICES != {} :: r.address
  }

  // ----- Actions -----

  datatype Action =
    | Tick(now: Time) | Expire(left: set<Address>) | CloseNow | Crash(lost: bool)
    | StartLoad | PassPending | PassCertificate | PassReview | StartCheck(at: Time, second: Time) | StartInstall | StartEnd
    | Guard(at: Time, second: Time)
    | Begin(candidate: Policy) | Close | Commit | Relaunch | Review | Open(at: Time, second: Time) | Finish
    | Return | ChangeFault | ChangeClosed
    | Mark(digest: Digest) | Isolate | Activate(restarted: bool) | Clear | Reopen(at: Time, second: Time) | ReopenClosed | Leave
    | ReplaceFault | Remark | ReplaceClosed
    | PlanRestore | Suspend(record: Recovery) | WriteReference | Restore(saved: Policy, savedClock: Time) | RollBack | EndRestore

  ghost predicate ClockAllows(disk: Disk, now: Time) {
    match disk.clock
    case None => disk.policy.generation == 0
    case Some(latest) => latest <= now
  }

  ghost predicate BeginAllowed(own: Identity, disk: Disk, c: Policy) {
    && ValidPolicy(own, c) && ValidPolicy(own, disk.policy)
    && PendingOf(own, disk).Success?
    && match PendingOf(own, disk).value
       case Some(p) => p == c
       case None => c.generation == disk.policy.generation + 1 && disk.policy.revoked <= c.revoked
  }

  /** What the pre-install checks of `open` demand; the guard demands no pending change on top. */
  ghost predicate InstallAllowed(s: System, c: Policy, at: Time) {
    && Load(s.disk).Success? && !AwaitingReview(Load(s.disk).value)
    && s.disk.certificate.None?
    && s.disk.policy == c
    && PeersOf(s.own, c, s.disk.marker, at).Success?
  }

  ghost predicate NothingPending(s: System) {
    PendingOf(s.own, s.disk) == Success(None)
  }

  ghost function InstallFor(s: System, c: Policy, at: Time, second: Time): Kernel
    requires PeersOf(s.own, c, s.disk.marker, at).Success?
  {
    Installed(Members(PeersOf(s.own, c, s.disk.marker, at).value, second), c, s.disk.marker, at)
  }

  function Max(a: nat, b: nat): nat { if a < b then b else a }

  /** The state written into a restored directory before it replaces the current one. */
  function Merged(current: Policy, saved: Policy): Policy {
    Policy(Max(current.generation, saved.generation) + 1, saved.agreements, current.revoked + saved.revoked)
  }

  function ClockOf(disk: Disk): Time { if disk.clock.Some? then disk.clock.value else 0 }

  /** The disk after the exchange: the merged state, and the previous directory kept aside. */
  function Replaced(disk: Disk, saved: Policy, savedClock: Time): Disk {
    Disk(Merged(disk.policy, saved), None, Some(Max(Max(ClockOf(disk), savedClock), Floor(disk))),
         Some(Floor(disk)), disk.marker, None, Some(Exchanged(disk.policy, disk.clock, disk.reference)))
  }

  /** The disk after a rollback: the previous directory is back. */
  function Returned(disk: Disk): Disk
    requires disk.fence.Some? && disk.fence.value.Exchanged?
  {
    var f := disk.fence.value;
    Disk(f.policy, None, f.clock, f.reference, disk.marker, None, Some(Preparing))
  }

  /** A candidate that is not pending yet holds fresh approvals only. */
  predicate Prepared(disk: Disk, c: Policy) {
    disk.pending.None? ==> FreshDocuments(disk.marker, c.agreements)
  }

  ghost predicate At(s: System, stage: ChangeStage) { s.job.Changing? && s.job.stage == stage }

  ghost predicate InReplacement(s: System, step: ReplaceStage) { s.job.Replacing? && s.job.step == step }

  function Moved(s: System, stage: ChangeStage): System
    requires s.job.Changing?
  {
    s.(job := Changing(s.job.candidate, stage))
  }

  function Stepped(s: System, step: ReplaceStage): System
    requires s.job.Replacing?
  {
    s.(job := Replacing(s.job.digest, step))
  }

  ghost predicate Step(s: System, a: Action, s': System) {
    match a
    // The shared clock checkpoint, kernel timeouts, the unit's stop hooks, and a crash of the
    // process (or of the machine, which also loses the kernel table).
    case Tick(now) => ClockAllows(s.disk, now) && s' == s.(disk := s.disk.(clock := Some(now)))
    case Expire(left) => s.kernel.Installed? && left <= s.kernel.members && s' == s.(kernel := s.kernel.(members := left))
    case CloseNow => s' == s.(kernel := Shut)
    case Crash(lost) =>
      s' == if lost then s.(job := Idle, kernel := Shut, start := Absent) else s.(job := Idle)
    // A start of the unit, which takes no lock.
    case StartLoad => s' == s.(start := Loaded(s.disk.policy))
    case PassPending => s.start.Loaded? && NothingPending(s) && s' == s.(start := PastPending(s.start.policy))
    case PassCertificate =>
      s.start.PastPending? && s.disk.certificate.None? && s' == s.(start := PastCertificate(s.start.policy))
    case PassReview =>
      && s.start.PastCertificate? && Load(s.disk).Success? && !AwaitingReview(Load(s.disk).value)
      && s' == s.(start := PastReview(s.start.policy))
    case StartCheck(at, second) =>
      && s.start.PastReview? && Load(s.disk).Success?
      && PeersOf(s.own, s.start.policy, s.disk.marker, at).Success?
      && s' == s.(start := Checked(InstallFor(s, s.start.policy, at, second)))
    case StartInstall => s.start.Checked? && s' == s.(kernel := s.start.set', start := Absent)
    case StartEnd => s' == s.(start := Absent)
    // The periodic guard.
    case Guard(at, second) =>
      && s.job.Idle? && NothingPending(s) && InstallAllowed(s, s.disk.policy, at)
      && s.disk.clock == Some(at)
      && s' == s.(kernel := InstallFor(s, s.disk.policy, at, second))
    // A policy change. A new candidate has been prepared under the same lock, from fresh approvals only.
    case Begin(c) =>
      && s.job.Idle? && s.disk.certificate.None? && s.disk.fence.None? && BeginAllowed(s.own, s.disk, c)
      && Prepared(s.disk, c)
      && s' == s.(disk := s.disk.(pending := Some(c)), job := Changing(c, Begun))
    case Close => At(s, Begun) && s' == Moved(s, Closed).(kernel := Shut)
    case Commit =>
      && At(s, Closed) && PendingOf(s.own, s.disk) == Success(Some(s.job.candidate))
      && s' == Moved(s, Committed).(disk := s.disk.(policy := s.job.candidate))
    // Restarting the unit ends a start in progress; the new one closes, and finds the change pending.
    case Relaunch => At(s, Committed) && s' == Moved(s, Relaunched).(kernel := Shut, start := Absent)
    case Review =>
      && At(s, Relaunched) && Load(s.disk).Success?
      && if AwaitingReview(Load(s.disk).value)
         then
           && PendingOf(s.own, s.disk) == Success(Some(s.job.candidate)) && s.disk.policy == s.job.candidate
           && FreshDocuments(s.disk.marker, s.job.candidate.agreements)
           && s' == Moved(s, Reviewed).(
                      disk := s.disk.(marker := Some(s.disk.marker.value.(reviewPending := false))))
         else s' == Moved(s, Reviewed)
    case Open(at, second) =>
      && At(s, Reviewed) && InstallAllowed(s, s.job.candidate, at) && s.disk.clock == Some(at)
      && s' == Moved(s, Opened).(kernel := InstallFor(s, s.job.candidate, at, second))
    case Finish =>
      && At(s, Opened) && PendingOf(s.own, s.disk) == Success(Some(s.disk.policy))
      && s' == Moved(s, Finished).(disk := s.disk.(pending := None))
    case Return => At(s, Finished) && s' == s.(job := Idle)
    case ChangeFault => s.job.Changing? && s' == Moved(s, ChangeFailing)
    case ChangeClosed => At(s, ChangeFailing) && s' == s.(kernel := Shut, job := Idle)
    // A certificate replacement.
    case Mark(d) =>
      && s.job.Idle? && NothingPending(s) && s.disk.certificate in {None, Some(d)} && s.disk.fence.None?
      && s' == s.(disk := s.disk.(certificate := Some(d)), job := Replacing(d, Marked))
    case Isolate => InReplacement(s, Marked) && s' == Stepped(s, Isolated).(kernel := Shut)
    // Activation restarts the unit, unless the identical material is already served.
    case Activate(restarted) =>
      && InReplacement(s, Isolated)
      && s' == if restarted then Stepped(s, Activated).(kernel := Shut, start := Absent) else Stepped(s, Confirmed)
    case Clear =>
      && (InReplacement(s, Activated) || InReplacement(s, Confirmed))
      && s' == Stepped(s, Cleared).(disk := s.disk.(certificate := None))
    case Reopen(at, second) =>
      && InReplacement(s, Cleared) && InstallAllowed(s, s.disk.policy, at) && s.disk.clock == Some(at)
      && s' == Stepped(s, Reopened).(kernel := InstallFor(s, s.disk.policy, at, second))
    case ReopenClosed =>
      && InReplacement(s, Cleared) && Load(s.disk).Success? && AwaitingReview(Load(s.disk).value)
      && s' == Stepped(s, Reopened).(kernel := Shut)
    case Leave => InReplacement(s, Reopened) && s' == s.(job := Idle)
    case ReplaceFault => s.job.Replacing? && s' == Stepped(s, ReplaceFailing)
    case Remark =>
      InReplacement(s, ReplaceFailing) && s' == Stepped(s, Remarked).(disk := s.disk.(certificate := Some(s.job.digest)))
    case ReplaceClosed => InReplacement(s, Remarked) && s' == s.(kernel := Shut, job := Idle)
    // A restore: planned only with nothing outstanding, then the floor is raised, the directory is
    // exchanged behind a closed set with the unit stopped, and in the end it is committed or rolled back.
    case PlanRestore =>
      && s.job.Idle? && s.disk.fence.None? && NothingPending(s) && s.disk.certificate.None?
      && s' == s.(disk := s.disk.(fence := Some(Preparing)))
    case Suspend(r) =>
      && s.job.Idle? && s.disk.fence == Some(Preparing) && Load(s.disk).Success?
      && r.reviewPending && 0 < r.floor < MAX_INTEGER && Floor(s.disk) <= r.floor && ClockOf(s.disk) <= r.floor
      && s' == s.(disk := s.disk.(marker := Some(r)), job := Suspending(r))
    case WriteReference =>
      s.job.Suspending? && s' == s.(disk := s.disk.(reference := Some(s.job.record.floor)), job := Idle)
    case Restore(saved, savedClock) =>
      && s.job.Idle? && s.disk.fence == Some(Preparing) && s.kernel.Shut? && s.start.Absent?
      && Load(s.disk).Success? && AwaitingReview(Load(s.disk).value)
      && s.disk.clock.Some? && ValidPolicy(s.own, Merged(s.disk.policy, saved))
      && s' == s.(disk := Replaced(s.disk, saved, savedClock))
    case RollBack =>
      && s.job.Idle? && s.disk.fence.Some? && s.disk.fence.value.Exchanged? && s.kernel.Shut? && s.start.Absent?
      && s' == s.(disk := Returned(s.disk))
    case EndRestore => s.job.Idle? && s.disk.fence.Some? && s' == s.(disk := s.disk.(fence := None))
  }

  // ----- Runs -----

  /** A freshly initialised gateway: no partner, nothing pending, kernel set empty. */
  ghost predicate Initial(s: System) {
    && VerifyIdentity(s.own)
    && s.disk == Disk(Policy(0, [], {}), None, None, None, None, None, None)
    && s.kernel == Shut && s.job == Idle && s.start == Absent
  }

  ghost predicate IsRun(states: seq<System>, actions: seq<Action>) {
    && |states| == |actions| + 1
    && forall i | 0 <= i < |actions| :: Step(states[i], actions[i], states[i + 1])
  }

  // ----- The invariant -----

  /** Every address of an installed set belongs to the rules derived from the recorded source. */
  ghost predicate Derived(own: Identity, k: Kernel) {
    k.Installed? ==>
      && PeersOf(own, k.source, k.record, k.at).Success?
      && forall a | a in k.members :: exists r :: r in PeersOf(own, k.source, k.record, k.at).value && r.address == a
  }

  ghost predicate DiskInv(own: Identity, disk: Disk) {
    && ValidPolicy(own, disk.policy)
    && PendingOf(own, disk).Success?
    && Load(disk).Success?
    && (disk.pending.Some? ==>
          disk.certificate.None? && disk.fence.None? && FreshDocuments(disk.marker, disk.pending.value.agreements))
    && FenceInv(own, disk)
  }

  /** A restore runs only with nothing outstanding, and what it keeps aside is older than what it put
      in place. */
  ghost predicate FenceInv(own: Identity, disk: Disk) {
    && (disk.fence.Some? ==> disk.certificate.None?)
    && (disk.fence.Some? && disk.fence.value.Exchanged? ==>
          var f := disk.fence.value;
          && ValidPolicy(own, f.policy) && f.policy.generation < disk.policy.generation
          && f.policy.revoked <= disk.policy.revoked
          && (f.reference.Some? ==> disk.marker.Some? && f.reference.value <= disk.marker.value.floor)
          && f.clock.Some? && disk.clock.Some? && f.clock.value <= disk.clock.value)
  }

  ghost predicate JobInv(s: System) {
    match s.job
    case Idle => true
    case Changing(c, stage) =>
      && s.disk.certificate.None? && s.disk.fence.None?
      && (stage !in {Finished, ChangeFailing} ==> s.disk.pending == Some(c))
      && (stage in {Committed, Relaunched, Reviewed, Opened, Finished} ==> s.disk.policy == c)
      && (stage in {Relaunched, Reviewed} ==> s.kernel.Shut?)
      && (stage in {Relaunched, Reviewed, Opened} ==> !s.start.Past())
    case Replacing(d, step) =>
      && s.disk.pending.None?
      && (step in {Marked, Isolated, Activated, Confirmed, Remarked} ==> s.disk.certificate == Some(d))
      && (step in {Cleared, Reopened} ==> s.disk.certificate.None?)
      && (step == Activated ==> s.kernel.Shut? && !s.start.PastBoth())
      && s.disk.fence.None?
    case Suspending(r) => s.disk.marker == Some(r) && s.disk.fence == Some(Preparing)
  }

  /** The service has been restarted since the pending change was committed. */
  predicate RestartedSince(job: Job) {
    job.Changing? && job.stage in {Relaunched, Reviewed, Opened}
  }

  /** `p` is the committed policy, or the one that a pending change has just superseded. */
  predicate Current(s: System, p: Policy) {
    || p == s.disk.policy
    || (s.disk.pending == Some(s.disk.policy) && p.revoked <= s.disk.policy.revoked && !RestartedSince(s.job))
  }

  ghost predicate SetInv(s: System, k: Kernel) {
    k.Installed? ==>
      && Derived(s.own, k) && Current(s, k.source)
      && (k.record.Some? ==> s.disk.marker.Some? && k.record.value.floor <= s.disk.marker.value.floor)
  }

  ghost predicate StartInv(s: System) {
    match s.start
    case Absent => true
    case Checked(k) => k.Installed? && SetInv(s, k)
    case _ => Current(s, s.start.policy)
  }

  ghost predicate Inv(s: System) {
    VerifyIdentity(s.own) && DiskInv(s.own, s.disk) && JobInv(s) && SetInv(s, s.kernel) && StartInv(s)
  }

  lemma InvReads(s: System)
    requires Inv(s)
    ensures ValidPolicy(s.own, s.disk.policy)
    ensures PendingOf(s.own, s.disk) == Success(s.disk.pending)
    ensures Load(s.disk) == Success(s.disk.marker)
    ensures s.disk.pending.Some? ==> s.disk.certificate.None?
  {
    hide ValidPolicy;
  }

  lemma InitialInv(s: System)
    requires Initial(s)
    ensures Inv(s)
  {
    assert Acceptable(s.own, multiset([]), {}, 0);
  }

  lemma InstallDerived(s: System, c: Policy, at: Time, second: Time)
    requires PeersOf(s.own, c, s.disk.marker, at).Success?
    ensures Derived(s.own, InstallFor(s, c, at, second))
  {
  }

  /** Every action keeps the files consistent. */
  lemma StepFiles(s: System, a: Action, s': System)
    requires Inv(s) && Step(s, a, s')
    ensures s'.own == s.own && DiskInv(s'.own, s'.disk)
  {
    hide ValidPolicy, PeersOf, VerifyIdentity, Members, Fresh, Derived, SetInv, StartInv;
    if a.Review? && AwaitingReview(s.disk.marker) {
      FreshAfterReview(s.disk.marker, s.job.candidate.agreements);
    }
  }

  lemma FreshAfterReview(record: Option<Recovery>, docs: seq<Document>)
    ensures FreshDocuments(AfterReview(record), docs) <==> FreshDocuments(record, docs)
  {
    assert forall d :: Fresh(AfterReview(record), d) <==> Fresh(record, d);
  }

  /** Every action keeps the operation in progress consistent with the files. */
  lemma StepJob(s: System, a: Action, s': System)
    requires Inv(s) && Step(s, a, s')
    ensures JobInv(s')
  {
    hide ValidPolicy, PeersOf, VerifyIdentity, Members, Fresh, FreshDocuments, Derived, SetInv, StartInv;
    InvReads(s);
  }

  /** Every action keeps the policy, the checks or the set of a start current. */
  lemma StepStart(s: System, a: Action, s': System)
    requires Inv(s) && Step(s, a, s')
    ensures StartInv(s')
  {
    hide ValidPolicy, PeersOf, VerifyIdentity, Members, Fresh, FreshDocuments, Derived, Prepared;
    InvReads(s);
    hide PendingOf, FenceInv;
    if a.StartCheck? { InstallDerived(s, s.start.policy, a.at, a.second); }
  }

  /** Every action keeps the installed set derived and current. */
  lemma StepSet(s: System, a: Action, s': System)
    requires Inv(s) && Step(s, a, s')
    ensures SetInv(s', s'.kernel)
  {
    hide ValidPolicy, PeersOf, VerifyIdentity, Members, Fresh, FreshDocuments, Derived;
    match a
    case Guard(at, second) => InstallDerived(s, s.disk.policy, at, second);
    case Open(at, second) => InstallDerived(s, s.job.candidate, at, second);
    case Reopen(at, second) => InstallDerived(s, s.disk.policy, at, second);
    case Expire(left) => ExpireDerived(s.own, s.kernel, left);
    case _ =>
  }

  lemma ExpireDerived(own: Identity, k: Kernel, left: set<Address>)
    requires k.Installed? && Derived(own, k) && left <= k.members
    ensures Derived(own, k.(members := left))
  {
  }

  lemma StepInv(s: System, a: Action, s': System)
    requires Inv(s) && Step(s, a, s')
    ensures Inv(s')
  {
    hide Step, DiskInv, JobInv, SetInv, StartInv, VerifyIdentity;
    StepFiles(s, a, s');
    StepJob(s, a, s');
    StepSet(s, a, s');
    StepStart(s, a, s');
  }

  // ----- Starts that no operation overtakes -----

  /** No action closes the way for the unit behind the check that a start has passed already. */
  predicate Unlocked(s: System, a: Action) {
    && (a.Begin? ==> !s.start.Past())
    && (a.Mark? || a.Remark? ==> !s.start.PastBoth())
    && (a.Suspend? ==> !s.start.PastAll())
  }

  function Held(start: Start): Policy
    requires start.Past() && (start.Checked? ==> start.set'.Installed?)
  {
    if start.Checked? then start.set'.source else start.policy
  }

  /** What is installed, and what a start is about to install, comes from the committed policy, and
      nothing stands in the way of the latter. */
  predicate StrictSets(s: System) {
    (s.kernel.Installed? ==> s.kernel.source == s.disk.policy) && StrictStart(s)
  }

  predicate StrictStart(s: System) {
    && (s.start.Checked? ==> s.start.set'.Installed? && s.start.set'.record == s.disk.marker)
    && (s.start.Past() ==> Held(s.start) == s.disk.policy && s.disk.pending.None?)
    && (s.start.PastBoth() ==> s.disk.certificate.None?)
    && (s.start.PastAll() ==> !AwaitingReview(s.disk.marker))
  }

  /** From closing to opening the set stays empty. */
  predicate StrictJob(s: System) {
    match s.job
    case Changing(_, stage) => stage in {Closed, Committed, Relaunched, Reviewed} ==> s.kernel.Shut?
    case Replacing(_, step) => step in {Isolated, Activated, Confirmed} ==> s.kernel.Shut?
    case _ => true
  }

  /** What the invariant gains when every start is unlocked: nothing is installed or about to be
      installed that an operation in progress has ruled out. */
  ghost predicate Strict(s: System) {
    Inv(s) && StrictSets(s) && StrictJob(s)
  }

  lemma InitialStrict(s: System)
    requires Initial(s)
    ensures Strict(s)
  {
    InitialInv(s);
  }

  lemma StepStrictJob(s: System, a: Action, s': System)
    requires Strict(s) && Step(s, a, s')
    ensures StrictJob(s')
  {
    hide ValidPolicy, PeersOf, PendingOf, VerifyIdentity, Members, Fresh, FreshDocuments, Derived, SetInv, StartInv;
  }

  lemma StepStrictSet(s: System, a: Action, s': System)
    requires Strict(s) && Step(s, a, s') && s'.kernel.Installed?
    ensures s'.kernel.source == s'.disk.policy
  {
    hide ValidPolicy, PeersOf, PendingOf, VerifyIdentity, Members, Fresh, FreshDocuments, Derived, SetInv, StartInv, DiskInv;
  }

  lemma WaitingStaysStrict(s: System, a: Action, s': System)
    requires Strict(s) && Step(s, a, s') && Unlocked(s, a) && s'.start == s.start
    ensures StrictStart(s')
  {
    hide ValidPolicy, PeersOf, PendingOf, VerifyIdentity, Members, Fresh, FreshDocuments, Derived;
    hide SetInv, StartInv, DiskInv, BeginAllowed, InstallAllowed, Prepared, NothingPending, Load;
  }

  lemma NoStartIsStrict(s: System)
    requires !s.start.Past()
    ensures StrictStart(s)
  {
  }

  predicate Advances(a: Action) { a.PassPending? || a.PassCertificate? || a.PassReview? || a.StartCheck? }

  lemma AdvanceIsStrict(s: System, a: Action, s': System)
    requires Strict(s) && Step(s, a, s') && Advances(a)
    ensures StrictStart(s')
  {
    InvReads(s);
    hide ValidPolicy, PeersOf, PendingOf, VerifyIdentity, Members, Fresh, FreshDocuments, Derived, SetInv, DiskInv, JobInv;
  }

  lemma OnlyAdvances(s: System, a: Action, s': System)
    requires Step(s, a, s') && !Advances(a)
    ensures s'.start == s.start || !s'.start.Past()
  {
    hide ValidPolicy, PeersOf, PendingOf, InstallAllowed, BeginAllowed, NothingPending, Load, FreshDocuments, Members;
  }

  lemma LockedBreaksSets(s: System, a: Action, s': System)
    requires Strict(s) && Step(s, a, s') && !Unlocked(s, a)
    ensures !StrictSets(s')
  {
    hide ValidPolicy, PeersOf, VerifyIdentity, Members, Fresh, FreshDocuments, Derived, PendingOf, BeginAllowed;
  }

  /** One action keeps the stricter invariant exactly when it is unlocked. */
  lemma StepStrict(s: System, a: Action, s': System)
    requires Strict(s) && Step(s, a, s')
    ensures Strict(s') <==> Unlocked(s, a)
  {
    hide Step, Inv, StrictSets, StrictJob, Unlocked;
    assert Inv(s);
    StepInv(s, a, s');
    StepStrictJob(s, a, s');
    StepStrictSets(s, a, s');
  }

  lemma StepStrictSets(s: System, a: Action, s': System)
    requires Strict(s) && Step(s, a, s')
    ensures StrictSets(s') <==> Unlocked(s, a)
  {
    hide Step, Strict, StrictStart, Unlocked;
    if Unlocked(s, a) {
      if s'.kernel.Installed? { StepStrictSet(s, a, s'); }
      if Advances(a) {
        AdvanceIsStrict(s, a, s');
      } else {
        OnlyAdvances(s, a, s');
        if s'.start == s.start { WaitingStaysStrict(s, a, s'); } else { NoStartIsStrict(s'); }
      }
    } else {
      LockedBreaksSets(s, a, s');
    }
  }
}
