/** The gateway's operations in the source's own form: methods that read and replace the durable
    files and the kernel set, one external call after another. `states` and `actions` record the run
    of the machine that a method performs; a crash inside a method is a prefix of that run. */
module Gateway {
  import opened Wrappers
  import opened RegionalAgreements
  import opened GatewayContracts
  import opened GatewayMachine
  import GatewaySafety
  import CertificateLifecycle

  /** How a call or a durable write ends: it works, or it raises before or after its effect. */
  datatype Reply = Works | RaisesBefore | RaisesAfter

  datatype GuardEnvironment = GuardEnvironment(
    close: Reply, reachable: bool, tick: Time, second: Time, open: Reply, handler: Reply)

  /** Everything outside the gateway's control during one certificate replacement. */
  datatype ReplaceEnvironment = ReplaceEnvironment(
    suitable: bool, mark: Reply, close: Reply, tls: CertificateLifecycle.Replies, debris: CertificateLifecycle.Folder, power: nat,
    clear: Reply, reclose: Reply, reachable: bool, tick: Time, second: Time, open: Reply,
    remark: Reply, handler: Reply)

  /** How a replacement ends: declined without effect, given up while writing the intent, successful,
      failed with the previous certificate recovered, left pending after a last attempt to close, or
      abandoned because writing the intent again failed too. */
  datatype Replacement = Declined | Unmarked | Replaced | Recovered | LeftPending(closed: bool) | Abandoned

  /** How a change ends. `Interrupted` is an exception from writing the intent, before anything is guarded. */
  datatype Transition = Applied | Refused | Interrupted | TransitionError(closed: bool)

  /** Everything outside the gateway's control during one policy change. */
  datatype ChangeEnvironment = ChangeEnvironment(
    begin: Reply, close: Reply, reachable: bool, validateTick: Time, validateAt: Time, valid: bool, commit: Reply,
    installAt: Time, installed: bool, restartClose: Reply, restartTick: Time, restartAt: Time,
    restartSecond: Time, restarted: bool, review: Reply,
    openReachable: bool, openTick: Time, openSecond: Time, open: Reply, finish: Reply, handler: Reply)

  /** No external call fails and every clock reading is `now`. */
  predicate FaultFree(e: ChangeEnvironment, now: Time) {
    && e.begin == Works && e.close == Works && e.reachable && e.validateTick == now && e.validateAt == now && e.valid && e.commit == Works
    && e.installAt == now && e.installed && e.restartClose == Works && e.restartTick == now && e.restartAt == now && e.restarted
    && e.review == Works && e.openReachable && e.openTick == now && e.open == Works && e.finish == Works
  }

  /** When the access of a gateway with a verified certificate is restored. */
  ghost predicate ReopenWorks(s: System, e: ReplaceEnvironment) {
    if AwaitingReview(s.disk.marker) then e.reclose.Works?
    else && e.reachable && ClockAllows(s.disk, e.tick)
         && PeersOf(s.own, s.disk.policy, s.disk.marker, e.tick).Success? && e.open.Works?
  }

  /** When one fault-free attempt at time `now` carries candidate `c` through. */
  ghost predicate Resumable(s: System, c: Policy, now: Time) {
    && s.disk.certificate.None? && BeginAllowed(s.own, s.disk, c)
    && ClockAllows(s.disk, now) && PeersOf(s.own, c, s.disk.marker, now).Success?
  }

  /** The disk after candidate `c` has been carried through at time `now`. */
  function Settled(disk: Disk, c: Policy, now: Time): Disk {
    disk.(policy := c, pending := None, clock := Some(now), marker := AfterReview(disk.marker))
  }

  lemma {:induction false} SelectFreshSameFloor(a: Option<Recovery>, b: Option<Recovery>, docs: seq<Document>)
    requires a.Some? == b.Some? && (a.Some? ==> a.value.floor == b.value.floor)
    ensures SelectFresh(a, docs) == SelectFresh(b, docs)
  {
    if docs != [] { SelectFreshSameFloor(a, b, docs[1..]); }
  }

  lemma PeersOfReviewed(own: Identity, p: Policy, marker: Option<Recovery>, now: Time)
    ensures PeersOf(own, p, AfterReview(marker), now) == PeersOf(own, p, marker, now)
  {
    SelectFreshSameFloor(AfterReview(marker), marker, p.agreements);
  }

  /** While a change runs, what the store reads back is its own candidate. */
  lemma ChangeReads(s: System)
    requires Inv(s) && s.job.Changing? && s.job.stage !in {Finished, ChangeFailing}
    ensures PendingOf(s.own, s.disk) == Success(Some(s.job.candidate))
    ensures Load(s.disk) == Success(s.disk.marker)
    ensures s.job.stage in {Committed, Relaunched, Reviewed, Opened} ==> s.disk.policy == s.job.candidate
    ensures s.disk.certificate.None? && s.disk.pending == Some(s.job.candidate)
    ensures FreshDocuments(s.disk.marker, s.job.candidate.agreements)
  {
    hide ValidPolicy, Derived;
  }

  /** While nothing holds the lock but a replacement, no change is pending. */
  lemma ReplaceReads(s: System)
    requires Inv(s) && s.job.Replacing?
    ensures s.disk.pending.None? && Load(s.disk) == Success(s.disk.marker)
    ensures s.job.step in {Cleared, Reopened} ==> s.disk.certificate.None?
  {
    hide ValidPolicy, Derived;
  }

  /** After a crash that left candidate `c` pending, one fault-free resumption at time `now` ends
      with `c` committed, nothing pending and exactly the peers of `c` admitted (`Apply`), if and
      only if the clock has not moved backwards and the agreements of `c` are unambiguous at `now`. */
  lemma PendingIsResumable(s: System, c: Policy, now: Time)
    requires Inv(s) && s.disk.pending == Some(c)
    ensures Resumable(s, c, now) <==> ClockAllows(s.disk, now) && PeersOf(s.own, c, s.disk.marker, now).Success?
    ensures s.disk.fence.None? && FreshDocuments(s.disk.marker, c.agreements)
  {
    InvReads(s);
    hide PeersOf, FreshDocuments, Derived;
  }

  lemma PlannedIsSettled(s: System)
    requires Inv(s) && s.disk.fence.Some?
    ensures s.disk.pending.None? && s.disk.certificate.None?
  {
    hide ValidPolicy, Derived, FreshDocuments;
  }

  lemma PendingCanBegin(s: System)
    requires Inv(s) && s.disk.pending.Some?
    ensures BeginAllowed(s.own, s.disk, s.disk.pending.value)
  {
    InvReads(s);
    hide Derived;
  }

  class Gateway {
    const own: Identity
    var policy: Policy
    var pending: Option<Policy>
    var clock: Option<Time>
    var reference: Option<Time>
    var marker: Option<Recovery>
    var certificate: Option<Digest>
    var fence: Option<Fence>
    var kernel: Kernel
    var start: Start  // what a start of the unit holds in memory

    ghost var job: Job
    ghost var states: seq<System>
    ghost var actions: seq<Action>

    function Files(): Disk
      reads this
    {
      Disk(policy, pending, clock, reference, marker, certificate, fence)
    }

    ghost function View(): System
      reads this
    {
      System(own, Files(), kernel, job, start)
    }

    ghost predicate Recorded()
      reads this
    {
      && IsRun(states, actions) && Initial(states[0]) && Inv(states[|states| - 1])
    }

    ghost predicate Valid()
      reads this
    {
      Recorded() && states[|states| - 1] == View()
    }

    twostate predicate Continues()
      reads this
    {
      old(states) <= states
    }

    constructor (own: Identity)
      requires VerifyIdentity(own)
      ensures Valid() && Initial(View()) && this.own == own
    {
      this.own := own;
      policy, pending, clock := Policy(0, [], {}), None, None;
      reference, marker, certificate, fence, kernel, start := None, None, None, None, Shut, Absent;
      job := Idle;
      new;
      states, actions := [View()], [];
      InitialInv(View());
    }

    /** Appends the action that has just been performed to the recorded run. */
    ghost method Record(a: Action)
      requires Recorded() && Step(states[|states| - 1], a, View())
      modifies this`states, this`actions
      ensures Valid() && Continues()
    {
      hide Step, Inv, Initial;
      var before := states;
      StepInv(states[|states| - 1], a, View());
      states, actions := states + [View()], actions + [a];
      forall i | 0 <= i < |actions| ensures Step(states[i], actions[i], states[i + 1]) {
        if i < |actions| - 1 { assert states[i] == before[i] && states[i + 1] == before[i + 1]; }
      }
    }

    // ----- The store's readers -----

    method ReadValid(p: Policy) returns (ok: bool)
      ensures ok == ValidPolicy(own, p)
    {
      var r := PeerRules(own, p.agreements, p.revoked, 0);
      ok := r.Success? && p.generation < MAX_INTEGER && |p.revoked| <= MAX_REVOCATIONS;
    }

    method ReadPending() returns (r: Result<Option<Policy>>)
      ensures r == PendingOf(own, Files())
    {
      if pending.None? { return Success(None); }
      var c := pending.value;
      var candidateOk := ReadValid(c);
      var policyOk := ReadValid(policy);
      if candidateOk && policyOk && c.generation in {policy.generation, policy.generation + 1}
         && policy.revoked <= c.revoked && (c.generation == policy.generation ==> c == policy) {
        return Success(Some(c));
      }
      return Failure;
    }

    method Peers(p: Policy, now: Time) returns (r: Result<seq<Rule>>)
      ensures Load(Files()).Success? ==> r == PeersOf(own, p, marker, now)
      ensures Load(Files()).Failure? ==> r == Failure
    {
      var ok := ReadValid(p);
      var record := Load(Files());
      if !ok || record.Failure? { return Failure; }
      r := PeerRules(own, SelectFresh(record.value, p.agreements), p.revoked, now);
    }

    // ----- The shared clock checkpoint -----

    method PolicyTime(now: Time) returns (ok: bool)
      requires Valid()
      modifies this`clock, this`states, this`actions
      ensures Valid() && Continues()
      ensures ok == ClockAllows(old(Files()), now)
      ensures Files() == if ok then old(Files()).(clock := Some(now)) else old(Files())
    {
      hide Inv, IsRun;
      if clock.Some? && now < clock.value { return false; }
      if clock.None? && policy.generation != 0 { return false; }
      clock := Some(now);
      Record(Tick(now));
      ok := true;
    }

    // ----- Steps of a policy change -----

    /** `write` is the reply of the one durable write, which a resumption does not need. The callers have
        excluded an intent and a restore, and prepared a new candidate with `Candidate`. */
    method StoreBegin(c: Policy, write: Reply) returns (ok: bool, refused: bool)
      requires Valid() && job.Idle? && certificate.None? && fence.None? && Prepared(Files(), c)
      modifies this
      ensures Valid() && Continues()
      ensures refused == !BeginAllowed(own, old(Files()), c)
      ensures ok <==> !refused && (old(pending).Some? || write.Works?)
      ensures View() == if ok then old(View()).(disk := old(Files()).(pending := Some(c)), job := Changing(c, Begun))
                        else if refused || write.RaisesBefore? then old(View())
                        else old(View()).(disk := old(Files()).(pending := Some(c)))
    {
      hide Inv, IsRun, ValidPolicy, FreshDocuments;
      var valid := ReadValid(c);
      var current := ReadValid(policy);
      var r := ReadPending();
      if !valid || !current || r.Failure? { return false, true; }
      var resumed := r.value.Some?;
      if resumed {
        if r.value.value != c { return false, true; }
      } else if c.generation != policy.generation + 1 || !(policy.revoked <= c.revoked) {
        return false, true;
      } else if write.RaisesBefore? {
        return false, false;
      } else {
        pending := Some(c);
      }
      assert pending == Some(c);
      job := Changing(c, Begun);
      Record(Begin(c));
      ok, refused := resumed || write.Works?, false;
      if !ok { Crashed(); }
    }

    /** Closing at the start of a change. `RaisesAfter` is a timeout after nft has applied the set. */
    method CloseForChange(reply: Reply) returns (ok: bool)
      requires Valid() && At(View(), Begun)
      modifies this
      ensures Valid() && Continues() && ok == reply.Works?
      ensures View() == Moved(old(View()), if ok then Closed else ChangeFailing).(
                          kernel := if reply.RaisesBefore? then old(kernel) else Shut)
    {
      hide Inv, IsRun, ValidPolicy;
      ghost var c := job.candidate;
      if !reply.RaisesBefore? {
        kernel := Shut;
        job := Changing(c, Closed);
        Record(Close);
      }
      ok := reply.Works?;
      if !ok {
        job := Changing(c, ChangeFailing);
        Record(ChangeFault);
      }
    }

    ghost method Fault()
      requires Valid() && job.Changing?
      modifies this`job, this`states, this`actions
      ensures Valid() && Continues()
      ensures View() == Moved(old(View()), ChangeFailing)
    {
      hide Inv, IsRun;
      job := Changing(job.candidate, ChangeFailing);
      Record(ChangeFault);
    }

    /** Network, clock, image and generated proxy configuration are checked before anything is committed. */
    method Validate(c: Policy, reachable: bool, tick: Time, at: Time, valid: bool) returns (ok: bool)
      requires Valid()
      modifies this`clock, this`states, this`actions
      ensures Valid() && Continues()
      ensures Files() == old(Files()) || (ClockAllows(old(Files()), tick) && Files() == old(Files()).(clock := Some(tick)))
      ensures ok <==> reachable && ClockAllows(old(Files()), tick) && Load(old(Files())).Success?
                      && PeersOf(own, c, marker, at).Success? && valid
      ensures ok ==> clock == Some(tick)
    {
      hide Inv, IsRun, PeersOf, ValidPolicy;
      if !reachable { return false; }
      var ticked := PolicyTime(tick);
      if !ticked { return false; }
      var r := Peers(c, at);
      ok := r.Success? && valid;
    }

    method CommitPolicy(c: Policy, reply: Reply) returns (ok: bool)
      requires Valid() && At(View(), Closed) && job.candidate == c
      modifies this
      ensures Valid() && Continues()
      ensures ok == reply.Works?
      ensures View() == Moved(old(View()), if ok then Committed else ChangeFailing).(
                          disk := if reply.RaisesBefore? then old(Files()) else old(Files()).(policy := c))
    {
      hide IsRun, Initial, Inv, ValidPolicy, PendingOf;
      ChangeReads(View());
      var r := ReadPending();
      assert r == Success(Some(c));  // the commit's own check never refuses here
      if !reply.RaisesBefore? {
        policy := c;
        job := Changing(c, Committed);
        Record(GatewayMachine.Commit);
      }
      ok := reply.Works?;
      if !ok { Fault(); }
    }

    /** A start of the unit, first part: `run` closes, advances the clock, loads the policy and
        generates the proxy configuration for its peers. */
    method LoadForStart(close: Reply, tick: Time, at: Time) returns (ok: bool)
      requires Valid()
      modifies this`clock, this`kernel, this`start, this`states, this`actions
      ensures Valid() && Continues()
      ensures Files() == old(Files()) || (ClockAllows(old(Files()), tick) && Files() == old(Files()).(clock := Some(tick)))
      ensures kernel == if close.RaisesBefore? then old(kernel) else Shut
      ensures ok <==> close.Works? && ClockAllows(old(Files()), tick) && PeersOf(own, policy, marker, at).Success?
      ensures ok ==> clock == Some(tick)
      ensures start == if ok then Loaded(policy) else Absent
    {
      hide IsRun, Initial, Inv, PeersOf, PendingOf, ValidPolicy, Load;
      EndStart();
      if close.RaisesBefore? { return false; }
      kernel := Shut;
      Record(CloseNow);
      if close.RaisesAfter? { return false; }
      var ticked := PolicyTime(tick);
      if !ticked { return false; }
      InvReads(View());
      var rules := Peers(policy, at);
      if rules.Failure? { return false; }
      start := Loaded(policy);
      Record(StartLoad);
      ok := true;
    }

    method EndStart()
      requires Valid()
      modifies this`start, this`states, this`actions
      ensures Valid() && Continues() && start.Absent?
    {
      hide IsRun, Initial, Inv, PeersOf, PendingOf, ValidPolicy, Load;
      start := Absent;
      Record(StartEnd);
    }

    predicate Outstanding()
      reads this
    {
      pending.Some? || certificate.Some? || AwaitingReview(marker)
    }

    /** Second part, one read after the other: no change, no certificate intent and no review pending. A
        start that finds something outstanding goes on behind the closed set and installs nothing. */
    method ReadPendingForStart()
      requires Valid() && start.Loaded?
      modifies this`start, this`states, this`actions
      ensures Valid() && Continues()
      ensures start == if pending.None? then PastPending(old(start.policy)) else Absent
    {
      hide IsRun, Initial, Inv, PeersOf, ValidPolicy, Load;
      InvReads(View());
      if pending.Some? {
        EndStart();
      } else {
        start := PastPending(start.policy);
        Record(PassPending);
      }
    }

    method ReadCertificateForStart()
      requires Valid() && start.PastPending?
      modifies this`start, this`states, this`actions
      ensures Valid() && Continues()
      ensures start == if certificate.None? then PastCertificate(old(start.policy)) else Absent
    {
      hide IsRun, Initial, Inv, PeersOf, ValidPolicy, Load;
      if certificate.Some? {
        EndStart();
      } else {
        start := PastCertificate(start.policy);
        Record(PassCertificate);
      }
    }

    method ReadReviewForStart()
      requires Valid() && start.PastCertificate?
      modifies this`start, this`states, this`actions
      ensures Valid() && Continues()
      ensures start == if AwaitingReview(marker) then Absent else PastReview(old(start.policy))
    {
      hide IsRun, Initial, Inv, PeersOf, ValidPolicy, Load;
      InvReads(View());
      if AwaitingReview(marker) {
        EndStart();
      } else {
        start := PastReview(start.policy);
        Record(PassReview);
      }
    }

    /** The peers of the policy that was loaded, under the present floor. */
    method DerivePeersForStart(at: Time, second: Time) returns (ok: bool)
      requires Valid() && start.PastReview?
      modifies this`start, this`states, this`actions
      ensures Valid() && Continues()
      ensures ok <==> PeersOf(own, old(start.policy), marker, at).Success?
      ensures start == if ok then Checked(InstallFor(old(View()), old(start.policy), at, second)) else Absent
    {
      hide IsRun, Initial, Inv, PeersOf, PendingOf, ValidPolicy, Load, Members, SelectFresh;
      InvReads(View());
      var rules := Peers(start.policy, at);
      ok := rules.Success?;
      if ok {
        start := Checked(Installed(Members(rules.value, second), start.policy, marker, at));
        Record(StartCheck(at, second));
      } else {
        EndStart();
      }
    }

    /** The second part when nothing comes in between. */
    method CheckForStart(at: Time, second: Time) returns (ok: bool)
      requires Valid() && start.Loaded?
      modifies this`start, this`states, this`actions
      ensures Valid() && Continues()
      ensures ok <==> Outstanding() || PeersOf(own, old(start.policy), marker, at).Success?
      ensures !ok || Outstanding() ==> start.Absent?
      ensures ok && !Outstanding() ==>
                && PeersOf(own, old(start.policy), marker, at).Success?
                && start == Checked(InstallFor(View(), old(start.policy), at, second))
    {
      hide IsRun, Initial, Inv, PeersOf, PendingOf, ValidPolicy, Load, Members, Step;
      ReadPendingForStart();
      if start.PastPending? { ReadCertificateForStart(); }
      if start.PastCertificate? { ReadReviewForStart(); }
      ok := true;
      if start.PastReview? { ok := DerivePeersForStart(at, second); }
    }

    /** Third part: the install itself, whatever has happened since the checks. */
    method InstallForStart(reply: Reply) returns (ok: bool)
      requires Valid() && start.Checked?
      modifies this`kernel, this`start, this`states, this`actions
      ensures Valid() && Continues() && start.Absent? && ok == reply.Works?
      ensures kernel == if reply.RaisesBefore? then old(kernel) else old(start.set')
    {
      hide IsRun, Initial, Inv, PeersOf, PendingOf, ValidPolicy, Load;
      ok := reply.Works?;
      if reply.RaisesBefore? {
        EndStart();
      } else {
        kernel, start := start.set', Absent;
        Record(StartInstall);
      }
    }

    /** A start that nothing overtakes. */
    method RunService(close: Reply, tick: Time, at: Time, second: Time, open: Reply) returns (ok: bool)
      requires Valid()
      modifies this`clock, this`kernel, this`start, this`states, this`actions
      ensures Valid() && Continues() && start.Absent?
      ensures Files() == old(Files()) || (ClockAllows(old(Files()), tick) && Files() == old(Files()).(clock := Some(tick)))
      ensures ok <==> && close.Works? && ClockAllows(old(Files()), tick) && PeersOf(own, policy, marker, at).Success?
                      && (Outstanding() || open.Works?)
      ensures ok ==> clock == Some(tick)
      ensures ok ==> kernel == if Outstanding() then Shut else InstallFor(View(), policy, at, second)
      ensures Outstanding() ==> kernel == if close.RaisesBefore? then old(kernel) else Shut
      ensures !ok && !close.RaisesBefore? && !open.RaisesAfter? ==> kernel.Shut?
    {
      hide IsRun, Initial, Inv, PeersOf, PendingOf, ValidPolicy, Load;
      ok := LoadForStart(close, tick, at);
      if !ok { return; }
      ok := CheckForStart(at, second);
      if ok && start.Checked? { ok := InstallForStart(open); }
    }

    method ReviewRecovery(c: Policy, reply: Reply) returns (ok: bool)
      requires Valid() && At(View(), Relaunched) && job.candidate == c
      modifies this
      ensures Valid() && Continues()
      ensures ok <==> (AwaitingReview(old(marker)) ==> reply.Works?)
      ensures ok ==> View() == Moved(old(View()), Reviewed).(disk := old(Files()).(marker := AfterReview(old(marker))))
      ensures !ok ==> At(View(), ChangeFailing) && kernel == old(kernel)
      ensures !ok ==> Files() == old(Files()) || Files() == old(Files()).(marker := AfterReview(old(marker)))
      ensures AwaitingReview(old(marker)) && !AwaitingReview(marker) ==> FreshDocuments(old(marker), policy.agreements)
    {
      hide IsRun, Initial, Inv, ValidPolicy, PendingOf, FreshDocuments;
      ChangeReads(View());
      if !AwaitingReview(marker) {
        job := Changing(c, Reviewed);
        Record(Review);
        return true;
      }
      var allFresh := FreshDocuments(marker, c.agreements);
      assert allFresh;  // the review's own check never refuses a candidate that was prepared
      if !allFresh || reply.RaisesBefore? {
        Fault();
        return false;
      }
      marker := Some(marker.value.(reviewPending := false));
      job := Changing(c, Reviewed);
      Record(Review);
      ok := reply.Works?;
      if !ok { Fault(); }
    }

    /** Opening for a committed candidate, or for the committed policy on a guard tick. The checks
        run in the source's order; the kernel set is replaced last. */
    method OpenChecks(c: Policy, reachable: bool, tick: Time) returns (r: Result<seq<Rule>>)
      requires Valid()
      modifies this`clock, this`states, this`actions
      ensures Valid() && Continues()
      ensures Files() == old(Files()) || (ClockAllows(old(Files()), tick) && Files() == old(Files()).(clock := Some(tick)))
      ensures r.Success? <==>
                && !AwaitingReview(old(marker)) && old(certificate).None? && reachable && old(policy) == c
                && ClockAllows(old(Files()), tick) && PeersOf(own, c, marker, tick).Success?
      ensures r.Success? ==> clock == Some(tick) && InstallAllowed(View(), c, tick) && r == PeersOf(own, c, marker, tick)
    {
      hide IsRun, Initial, Inv, PeersOf, PendingOf, ValidPolicy, Load;
      InvReads(View());
      if AwaitingReview(marker) || certificate.Some? || !reachable || policy != c { return Failure; }
      var ticked := PolicyTime(tick);
      if !ticked { return Failure; }
      InvReads(View());
      r := Peers(c, tick);
    }

    method OpenForChange(c: Policy, reachable: bool, tick: Time, second: Time, reply: Reply) returns (ok: bool)
      requires Valid() && At(View(), Reviewed) && job.candidate == c
      modifies this
      ensures Valid() && Continues()
      ensures ok <==>
                && !AwaitingReview(old(marker)) && reachable && ClockAllows(old(Files()), tick)
                && PeersOf(own, c, marker, tick).Success? && reply.Works?
      ensures ok ==> At(View(), Opened) && job.candidate == c
      ensures ok ==> Files() == old(Files()).(clock := Some(tick)) && kernel == InstallFor(View(), c, tick, second)
      ensures !ok ==> At(View(), ChangeFailing)
      ensures Files() == old(Files()) || (ClockAllows(old(Files()), tick) && Files() == old(Files()).(clock := Some(tick)))
    {
      hide IsRun, Initial, Inv, PeersOf, PendingOf, ValidPolicy, Load;
      ChangeReads(View());
      var r := OpenChecks(c, reachable, tick);
      if r.Failure? || reply.RaisesBefore? {
        Fault();
        return false;
      }
      kernel := Installed(Members(r.value, second), c, marker, tick);
      job := Changing(c, Opened);
      Record(GatewayMachine.Open(tick, second));
      ok := reply.Works?;
      if !ok { Fault(); }
    }

    method FinishChange(reply: Reply) returns (ok: bool)
      requires Valid() && At(View(), Opened)
      modifies this
      ensures Valid() && Continues()
      ensures ok == reply.Works?
      ensures ok ==> View() == old(View()).(disk := old(Files()).(pending := None), job := Idle)
      ensures !ok ==> At(View(), ChangeFailing) && kernel == old(kernel)
    {
      hide IsRun, Initial, Inv, ValidPolicy, PendingOf;
      ChangeReads(View());
      ghost var c := job.candidate;
      if !reply.RaisesBefore? {
        pending := None;
        job := Changing(c, Finished);
        Record(Finish);
      }
      ok := reply.Works?;
      if ok {
        job := Idle;
        Record(Return);
      } else {
        Fault();
      }
    }

    /** The guarded part of `apply` up to the commit: close, validate, commit. */
    method Replace(c: Policy, e: ChangeEnvironment) returns (ok: bool)
      requires Valid() && At(View(), Begun) && job.candidate == c
      modifies this
      ensures Valid() && Continues()
      ensures !ok ==> At(View(), ChangeFailing)
      ensures ok ==> At(View(), Committed) && job.candidate == c && kernel.Shut?
      ensures ok ==> Files() == old(Files()).(policy := c, clock := Some(e.validateTick))
      ensures forall now | FaultFree(e, now) ::
                ok <==> ClockAllows(old(Files()), now) && PeersOf(own, c, old(marker), now).Success?
    {
      hide IsRun, Initial, Inv, Step, ValidPolicy, PendingOf, PeersOf, FreshDocuments, Load;
      ChangeReads(View());
      ok := CloseForChange(e.close);
      if !ok { return; }
      ok := Validate(c, e.reachable, e.validateTick, e.validateAt, e.valid);
      if !ok { Fault(); return; }
      ok := CommitPolicy(c, e.commit);
    }

    /** Installing the proxy configuration and restarting the unit behind the closed kernel set. */
    method Relaunch(c: Policy, e: ChangeEnvironment) returns (ok: bool)
      requires Valid() && At(View(), Committed) && job.candidate == c
      modifies this
      ensures Valid() && Continues()
      ensures !ok ==> At(View(), ChangeFailing)
      ensures ok ==> At(View(), Relaunched) && job.candidate == c && kernel.Shut? && start.Absent?
      ensures ok ==> Files() == old(Files()).(clock := Some(e.restartTick))
      ensures forall now | FaultFree(e, now) ::
                ClockAllows(old(Files()), now) && PeersOf(own, c, old(marker), now).Success? ==> ok
    {
      hide IsRun, Initial, Inv, ValidPolicy, PendingOf, PeersOf, FreshDocuments, Load;
      ChangeReads(View());
      var generated := Peers(c, e.installAt);
      if generated.Failure? || !e.installed { Fault(); return false; }
      ok := RunService(e.restartClose, e.restartTick, e.restartAt, e.restartSecond, Works);
      ok := ok && e.restarted;
      if !ok { Fault(); return; }
      job := Changing(c, Relaunched);
      Record(GatewayMachine.Relaunch);
    }

    /** Clearing the recovery review, opening the kernel set, and removing the intent. */
    method Conclude(c: Policy, e: ChangeEnvironment) returns (ok: bool)
      requires Valid() && At(View(), Relaunched) && job.candidate == c
      modifies this
      ensures Valid() && Continues()
      ensures ok ==> job.Idle? && Files() == Settled(old(Files()), c, e.openTick)
      ensures ok ==> PeersOf(own, c, marker, e.openTick).Success? && kernel == InstallFor(View(), c, e.openTick, e.openSecond)
      ensures !ok ==> At(View(), ChangeFailing)
      ensures forall now | FaultFree(e, now) ::
                ClockAllows(old(Files()), now) && PeersOf(own, c, old(marker), now).Success? ==> ok
    {
      hide IsRun, Initial, Inv, Step, ValidPolicy, PendingOf, PeersOf, FreshDocuments, Load;
      ChangeReads(View());
      PeersOfReviewed(own, c, marker, e.openTick);
      ok := ReviewRecovery(c, e.review);
      if !ok { return; }
      ok := OpenForChange(c, e.openReachable, e.openTick, e.openSecond, e.open);
      if !ok { return; }
      ok := FinishChange(e.finish);
    }

    method Carry(c: Policy, e: ChangeEnvironment) returns (ok: bool)
      requires Valid() && At(View(), Begun) && job.candidate == c
      modifies this
      ensures Valid() && Continues()
      ensures ok ==> job.Idle? && Files() == Settled(old(Files()), c, e.openTick)
      ensures ok ==> PeersOf(own, c, marker, e.openTick).Success? && kernel == InstallFor(View(), c, e.openTick, e.openSecond)
      ensures !ok ==> At(View(), ChangeFailing)
      ensures forall now | FaultFree(e, now) ::
                ok <==> ClockAllows(old(Files()), now) && PeersOf(own, c, old(marker), now).Success?
    {
      hide IsRun, Initial, Inv, Step, ValidPolicy, PendingOf, PeersOf, FreshDocuments, Load;
      ok := Replace(c, e);
      if !ok { return; }
      ok := Relaunch(c, e);
      if !ok { return; }
      ok := Conclude(c, e);
    }

    /** The exception handler of a change: one more attempt to close. */
    method FailClosed(reply: Reply) returns (r: Transition)
      requires Valid() && At(View(), ChangeFailing)
      modifies this`kernel, this`job, this`states, this`actions
      ensures Valid() && Continues() && job.Idle?
      ensures r == TransitionError(reply.Works?)
      ensures kernel == if reply.RaisesBefore? then old(kernel) else Shut
    {
      hide IsRun, Initial, Inv, ValidPolicy, PendingOf, PeersOf, FreshDocuments, Load;
      if reply.RaisesBefore? {
        Crashed();
      } else {
        kernel := Shut;
        job := Idle;
        Record(ChangeClosed);
      }
      r := TransitionError(reply.Works?);
    }

    /** One policy change, or the resumption of the pending one. Whatever fails, the last thing
        attempted is closing. A fault-free attempt goes through exactly when `Resumable` holds. */
    method Apply(c: Policy, e: ChangeEnvironment) returns (r: Transition)
      requires Valid() && job.Idle? && certificate.None? && fence.None? && Prepared(Files(), c)
      modifies this
      ensures Valid() && Continues() && job.Idle?
      ensures r.Refused? <==> !BeginAllowed(own, old(Files()), c)
      ensures r.Refused? ==> View() == old(View())
      ensures r.Interrupted? <==> BeginAllowed(own, old(Files()), c) && old(pending).None? && !e.begin.Works?
      ensures r.Interrupted? ==>
                View() == if e.begin.RaisesBefore? then old(View())
                          else old(View()).(disk := old(Files()).(pending := Some(c)))
      ensures r.Applied? ==> Files() == Settled(old(Files()), c, e.openTick)
      ensures r.Applied? ==>
                && PeersOf(own, c, marker, e.openTick).Success?
                && kernel == Installed(Members(PeersOf(own, c, marker, e.openTick).value, e.openSecond), c, marker, e.openTick)
      ensures r == TransitionError(true) ==> kernel.Shut?
      ensures forall now | FaultFree(e, now) :: r.Applied? <==> Resumable(old(View()), c, now)
    {
      hide IsRun, Initial, Inv, ValidPolicy, PendingOf, PeersOf, FreshDocuments, BeginAllowed, Load;
      var begun, refused := StoreBegin(c, e.begin);
      if !begun { return if refused then Refused else Interrupted; }
      var ok := Carry(c, e);
      if ok { return Applied; }
      r := FailClosed(e.handler);
    }

    // ----- Operator changes -----

    method Candidate(docs: seq<Document>, ids: set<AgreementId>, now: Time) returns (r: Result<Policy>)
      requires Valid()
      ensures r.Success? <==>
                var c := Policy(policy.generation + 1, docs, policy.revoked + ids);
                pending.None? && ValidPolicy(own, c) && FreshDocuments(marker, docs) && PeersOf(own, c, marker, now).Success?
      ensures r.Success? ==> r.value == Policy(policy.generation + 1, docs, policy.revoked + ids)
      ensures r.Success? ==> BeginAllowed(own, Files(), r.value) && Prepared(Files(), r.value)
    {
      hide IsRun, Initial, Inv, PendingOf, PeersOf, FreshDocuments, Load, ValidPolicy;
      InvReads(View());
      var change := ReadPending();
      if change.Failure? || change.value.Some? { return Failure; }
      var c := Policy(policy.generation + 1, docs, policy.revoked + ids);
      var valid := ReadValid(c);
      var record := Load(Files());
      if !valid || record.Failure? || !FreshDocuments(record.value, docs) { return Failure; }
      var rules := Peers(c, now);
      r := if rules.Success? then Success(c) else Failure;
    }

    /** The documents of a new change: the given ones, else the committed ones, of which a revocation
        during a recovery review keeps only the fresh. */
    function Selected(docs: Option<seq<Document>>, ids: set<AgreementId>): seq<Document>
      reads this
    {
      if docs.Some? then docs.value
      else if ids != {} && AwaitingReview(marker) then SelectFresh(marker, policy.agreements)
      else policy.agreements
    }

    /** The operator's change: the exact pending candidate on resume, else a successor of the
        committed policy that keeps every revocation. `docs` is absent for a plain revocation. */
    method Change(docs: Option<seq<Document>>, ids: set<AgreementId>, resume: bool, now: Time, e: ChangeEnvironment)
      returns (r: Transition, ghost chosen: Policy)
      requires Valid() && job.Idle?
      modifies this
      ensures Valid() && Continues() && job.Idle?
      ensures !resume ==> chosen == Policy(old(policy).generation + 1, old(Selected(docs, ids)), old(policy).revoked + ids)
      ensures resume && old(pending).Some? ==> old(pending) == Some(chosen)
      ensures !r.Refused? <==>
                && old(fence).None? && old(certificate).None?
                && if resume then old(pending).Some?
                   else && old(pending).None? && ValidPolicy(own, chosen) && FreshDocuments(old(marker), chosen.agreements)
                        && PeersOf(own, chosen, old(marker), now).Success?
      ensures r.Refused? ==> View() == old(View())
      ensures r.Applied? ==> policy == chosen && pending.None?
      ensures r == TransitionError(true) ==> kernel.Shut?
      ensures forall at | FaultFree(e, at) && !r.Refused? :: r.Applied? <==> Resumable(old(View()), chosen, at)
    {
      hide IsRun, Initial, Inv, PendingOf, PeersOf, FreshDocuments, Load, ValidPolicy, Resumable;
      InvReads(View());
      if pending.Some? { PendingCanBegin(View()); }
      chosen := if resume then if pending.Some? then pending.value else policy
                else Policy(policy.generation + 1, Selected(docs, ids), policy.revoked + ids);
      if fence.Some? || certificate.Some? { return Refused, chosen; }
      var c;
      if resume {
        var change := ReadPending();
        if change.Failure? || change.value.None? { return Refused, chosen; }
        c := change.value.value;
      } else {
        var candidate := Candidate(Selected(docs, ids), ids, now);
        if candidate.Failure? { return Refused, chosen; }
        c := candidate.value;
      }
      r := Apply(c, e);
    }

    // ----- The periodic guard -----

    /** A guard tick that got the lock: closes while anything is outstanding or a check fails. */
    method GuardTick(e: GuardEnvironment) returns (ok: bool)
      requires Valid() && job.Idle?
      modifies this`clock, this`kernel, this`states, this`actions
      ensures Valid() && Continues()
      ensures Files() == old(Files()) || (ClockAllows(old(Files()), e.tick) && Files() == old(Files()).(clock := Some(e.tick)))
      ensures ok ==> if pending.Some? || certificate.Some? || AwaitingReview(marker) then kernel.Shut?
                     else PeersOf(own, policy, marker, e.tick).Success? && kernel == InstallFor(View(), policy, e.tick, e.second)
      ensures ok <==> if pending.Some? || certificate.Some? || AwaitingReview(marker) then e.close.Works?
                      else && e.reachable && ClockAllows(old(Files()), e.tick)
                           && PeersOf(own, policy, marker, e.tick).Success? && e.open.Works?
      ensures !ok && e.handler.Works? ==> kernel.Shut?
    {
      hide IsRun, Initial, Inv, PendingOf, PeersOf, Load, ValidPolicy, FreshDocuments, Merged;
      InvReads(View());
      if pending.Some? || certificate.Some? || AwaitingReview(marker) {
        ok := CloseKernel(e.close);
      } else {
        var r := OpenChecks(policy, e.reachable, e.tick);
        ok := r.Success? && !e.open.RaisesBefore?;
        if ok {
          InvReads(View());
          kernel := Installed(Members(r.value, e.second), policy, marker, e.tick);
          Record(GatewayMachine.Guard(e.tick, e.second));
          ok := e.open.Works?;
        }
      }
      if !ok { var _ := CloseKernel(e.handler); }
    }

    method CloseKernel(reply: Reply) returns (ok: bool)
      requires Valid()
      modifies this`kernel, this`states, this`actions
      ensures Valid() && Continues() && ok == reply.Works?
      ensures kernel == if reply.RaisesBefore? then old(kernel) else Shut
    {
      hide IsRun, Initial, Inv, PendingOf, PeersOf, ValidPolicy, FreshDocuments, Merged;
      if !reply.RaisesBefore? {
        kernel := Shut;
        Record(CloseNow);
      }
      ok := reply.Works?;
    }

    // ----- Certificate replacement -----

    ghost method ReplacementFault()
      requires Valid() && job.Replacing?
      modifies this`job, this`states, this`actions
      ensures Valid() && Continues() && View() == Stepped(old(View()), ReplaceFailing)
    {
      hide IsRun, Initial, Inv, PendingOf, PeersOf, ValidPolicy, FreshDocuments, Merged;
      job := Replacing(job.digest, ReplaceFailing);
      Record(ReplaceFault);
    }

    method ClearIntent(reply: Reply) returns (ok: bool)
      requires Valid() && (InReplacement(View(), Activated) || InReplacement(View(), Confirmed))
      modifies this
      ensures Valid() && Continues() && ok == reply.Works?
      ensures job == Replacing(old(job.digest), if ok then GatewayMachine.Cleared else ReplaceFailing)
      ensures Files() == if reply.RaisesBefore? then old(Files()) else old(Files()).(certificate := None)
    {
      hide IsRun, Initial, Inv, PendingOf, PeersOf, ValidPolicy, FreshDocuments, Merged;
      if !reply.RaisesBefore? {
        certificate := None;
        job := Replacing(job.digest, GatewayMachine.Cleared);
        Record(Clear);
      }
      ok := reply.Works?;
      if !ok { ReplacementFault(); }
    }

    ghost method Left()
      requires Valid() && InReplacement(View(), Reopened)
      modifies this`job, this`states, this`actions
      ensures Valid() && Continues() && View() == old(View()).(job := Idle)
    {
      hide IsRun, Initial, Inv, PendingOf, PeersOf, Load, ValidPolicy, FreshDocuments, Merged;
      job := Idle;
      Record(Leave);
    }

    method ReopenForReview(e: ReplaceEnvironment) returns (ok: bool)
      requires Valid() && InReplacement(View(), GatewayMachine.Cleared) && AwaitingReview(marker)
      modifies this`kernel, this`job, this`states, this`actions
      ensures Valid() && Continues()
      ensures job == if ok then Replacing(old(job.digest), Reopened) else Replacing(old(job.digest), ReplaceFailing)
      ensures ok == e.reclose.Works? && (ok ==> kernel.Shut?)
    {
      hide IsRun, Initial, Inv, PendingOf, PeersOf, Load, ValidPolicy, FreshDocuments, Merged;
      ReplaceReads(View());
      if !e.reclose.RaisesBefore? {
        kernel := Shut;
        job := Replacing(job.digest, Reopened);
        Record(ReopenClosed);
      }
      ok := e.reclose.Works?;
      if !ok { ReplacementFault(); }
    }

    method ReopenForPeers(e: ReplaceEnvironment) returns (ok: bool)
      requires Valid() && InReplacement(View(), GatewayMachine.Cleared) && !AwaitingReview(marker)
      modifies this`kernel, this`clock, this`job, this`states, this`actions
      ensures Valid() && Continues()
      ensures ok <==> ReopenWorks(old(View()), e)
      ensures job == if ok then Replacing(old(job.digest), Reopened) else Replacing(old(job.digest), ReplaceFailing)
      ensures ok ==> PeersOf(own, policy, marker, e.tick).Success? && kernel == InstallFor(View(), policy, e.tick, e.second)
    {
      hide IsRun, Initial, Inv, PendingOf, PeersOf, Load, ValidPolicy, FreshDocuments, Merged;
      ReplaceReads(View());
      var r := OpenChecks(policy, e.reachable, e.tick);
      ok := r.Success? && e.open.Works?;
      if r.Success? && !e.open.RaisesBefore? {
        kernel := Installed(Members(r.value, e.second), policy, marker, e.tick);
        job := Replacing(job.digest, Reopened);
        Record(Reopen(e.tick, e.second));
      }
      if !ok { ReplacementFault(); }
    }

    method ReopenAfterReplacement(e: ReplaceEnvironment) returns (ok: bool)
      requires Valid() && InReplacement(View(), GatewayMachine.Cleared)
      modifies this
      ensures Valid() && Continues()
      ensures job == if ok then Idle else Replacing(old(job.digest), ReplaceFailing)
      ensures Files() == old(Files()).(clock := clock)
      ensures ok <==> ReopenWorks(old(View()), e)
      ensures ok ==> if AwaitingReview(marker) then kernel.Shut?
                     else PeersOf(own, policy, marker, e.tick).Success? && kernel == InstallFor(View(), policy, e.tick, e.second)
    {
      hide IsRun, Initial, Inv, Step, PendingOf, PeersOf, Load, ValidPolicy;
      if AwaitingReview(marker) {
        ok := ReopenForReview(e);
      } else {
        ok := ReopenForPeers(e);
      }
      if ok { Left(); }
    }

    /** What activation has done to the unit: a restart closes and ends a start in progress. */
    method ActivationDone(restarted: bool)
      requires Valid() && InReplacement(View(), Isolated)
      modifies this`kernel, this`start, this`job, this`states, this`actions
      ensures Valid() && Continues()
      ensures View() == if restarted then Stepped(old(View()), Activated).(kernel := Shut, start := Absent)
                        else Stepped(old(View()), Confirmed)
    {
      hide IsRun, Initial, Inv, PendingOf, PeersOf, Load, ValidPolicy, FreshDocuments, Merged;
      if restarted { kernel, start := Shut, Absent; }
      job := Replacing(job.digest, if restarted then Activated else Confirmed);
      Record(GatewayMachine.Activate(restarted));
    }

    /** The durable intent, outside the guarded part. */
    method WriteIntent(m: Digest, write: Reply) returns (ok: bool)
      requires Valid() && job.Idle? && pending.None? && certificate in {None, Some(m)} && fence.None?
      modifies this
      ensures Valid() && Continues() && ok == write.Works?
      ensures View() == if ok then old(View()).(disk := old(Files()).(certificate := Some(m)), job := Replacing(m, Marked))
                        else if write.RaisesBefore? then old(View())
                        else old(View()).(disk := old(Files()).(certificate := Some(m)))
    {
      hide IsRun, Initial, Inv, PendingOf, PeersOf, ValidPolicy, FreshDocuments, Merged;
      InvReads(View());
      ok := write.Works?;
      if !write.RaisesBefore? {
        certificate := Some(m);
        job := Replacing(m, Marked);
        Record(Mark(m));
        if !ok { Crashed(); }
      }
    }

    /** Closing behind the intent. */
    method CloseForReplacement(reply: Reply) returns (ok: bool)
      requires Valid() && InReplacement(View(), Marked)
      modifies this`kernel, this`job, this`states, this`actions
      ensures Valid() && Continues() && ok == reply.Works?
      ensures job == Replacing(old(job.digest), if ok then Isolated else ReplaceFailing)
      ensures kernel == if reply.RaisesBefore? then old(kernel) else Shut
    {
      hide IsRun, Initial, Inv, PendingOf, PeersOf, ValidPolicy, FreshDocuments, Merged;
      if !reply.RaisesBefore? {
        kernel := Shut;
        job := Replacing(job.digest, Isolated);
        Record(Isolate);
      }
      ok := reply.Works?;
      if !ok { ReplacementFault(); }
    }

    method WriteIntentAgain(m: Digest)
      requires Valid() && InReplacement(View(), ReplaceFailing) && job.digest == m
      modifies this`certificate, this`job, this`states, this`actions
      ensures Valid() && Continues() && job == Replacing(m, Remarked) && certificate == Some(m)
    {
      hide IsRun, Initial, Inv, PendingOf, PeersOf, Load, ValidPolicy, FreshDocuments, Merged;
      certificate := Some(m);
      job := Replacing(m, Remarked);
      Record(Remark);
    }

    /** The failure handler: the intent is durable again before the last attempt to close. If that
        write fails, nothing is closed any more. */
    method KeepPending(m: Digest, write: Reply, reply: Reply) returns (r: Replacement)
      requires Valid() && InReplacement(View(), ReplaceFailing) && job.digest == m
      modifies this
      ensures Valid() && Continues() && job.Idle?
      ensures r == if write.Works? then LeftPending(reply.Works?) else Abandoned
      ensures Files() == if write.RaisesBefore? then old(Files()) else old(Files()).(certificate := Some(m))
      ensures kernel == if write.Works? && !reply.RaisesBefore? then Shut else old(kernel)
    {
      hide IsRun, Initial, Inv, PendingOf, PeersOf, Load, ValidPolicy, FreshDocuments, Merged;
      if !write.RaisesBefore? { WriteIntentAgain(m); }
      if !write.Works? {
        Crashed();
        return Abandoned;
      }
      if reply.RaisesBefore? {
        Crashed();
      } else {
        kernel := Shut;
        job := Idle;
        Record(ReplaceClosed);
      }
      r := LeftPending(reply.Works?);
    }

    /** Activation behind the closed kernel set; `ok` when the gateway runs on verified material
        again, be it the new or the previous one. */
    method Perform(tls: CertificateLifecycle.Generations, m: Digest, e: ReplaceEnvironment)
      returns (ok: bool, replaced: bool)
      requires Valid() && InReplacement(View(), Isolated) && job.digest == m && tls.Valid()
      modifies this, tls
      ensures Valid() && Continues() && tls.Valid()
      ensures job == if ok then Idle else Replacing(m, ReplaceFailing)
      ensures Files() == old(Files()).(certificate := certificate, clock := clock)
      ensures ok ==> certificate.None?
      ensures ok && replaced ==> tls.active == Some(m) && tls.verified == Some(m.cert.leaf)
                                 && (old(tls.active) != Some(m) ==> CertificateLifecycle.Holds(tls.folders[m], m))
      ensures old(tls.Replaceable(m, e.power)) ==>
                && (ok <==> && ((e.tls.restart && e.tls.verify) || (e.tls.restoreRestart && e.tls.restoreVerify))
                            && e.clear.Works? && ReopenWorks(old(View()), e))
                && replaced == (e.tls.restart && e.tls.verify)
      ensures ok && !replaced ==>
                && tls.active == old(tls.active) && tls.active.Some?
                && tls.verified.Some? && tls.verified == old(tls.folders)[tls.active.value].metadata
      ensures ok ==> if AwaitingReview(marker) then kernel.Shut?
                     else PeersOf(own, policy, marker, e.tick).Success? && kernel == InstallFor(View(), policy, e.tick, e.second)
    {
      hide IsRun, Initial, Inv, Step, PendingOf, PeersOf, Load, ValidPolicy;
      var served := tls.active == Some(m) && e.tls.served;
      var outcome := tls.Activate(m, true, false, e.tls, e.debris, e.power);
      replaced := outcome.Active?;
      ok := outcome.Active? || outcome == CertificateLifecycle.ActivationError(true);
      if !ok {
        ReplacementFault();
        return;
      }
      ActivationDone(!served);
      ok := ClearIntent(e.clear);
      if ok { ok := ReopenAfterReplacement(e); }
    }

    /** Replaces the certificate of a gateway without touching partner policy. The service restarts
        inside `tls.Activate` run behind the durable intent and therefore cannot pass their checks. */
    method ReplaceCertificate(tls: CertificateLifecycle.Generations, m: Digest, e: ReplaceEnvironment)
      returns (r: Replacement)
      requires Valid() && job.Idle? && tls.Valid()
      modifies this, tls
      ensures Valid() && Continues() && job.Idle? && tls.Valid()
      // Partner policy, the pending change and the recovery record are never edited.
      ensures Files() == old(Files()).(certificate := certificate, clock := clock)
      // Unsuitable material, a pending policy change, another pending intent or a restore: nothing happens.
      ensures r.Declined? <==> !e.suitable || old(pending).Some? || old(certificate) !in {None, Some(m)} || old(fence).Some?
      ensures r.Declined? ==> View() == old(View()) && tls.active == old(tls.active) && tls.folders == old(tls.folders)
      ensures r.Replaced? ==> certificate.None? && tls.active == Some(m) && tls.verified == Some(m.cert.leaf)
      ensures r.Replaced? && old(tls.active) != Some(m) ==> CertificateLifecycle.Holds(tls.folders[m], m)
      ensures r.Recovered? ==>
                && certificate.None? && tls.active == old(tls.active) && tls.active.Some?
                && tls.verified.Some? && tls.verified == old(tls.folders)[tls.active.value].metadata
      ensures r.Replaced? || r.Recovered? ==>
                if AwaitingReview(marker) then kernel.Shut?
                else PeersOf(own, policy, marker, e.tick).Success? && kernel == InstallFor(View(), policy, e.tick, e.second)
      // With working calls around the activation, the service's answers decide between the outcomes.
      ensures (&& !r.Declined? && old(tls.Replaceable(m, e.power))
               && e.mark.Works? && e.close.Works? && e.clear.Works? && e.remark.Works?
               && ReopenWorks(old(View()), e)) ==>
                if e.tls.restart && e.tls.verify then r.Replaced?
                else if e.tls.restoreRestart && e.tls.restoreVerify then r.Recovered? else r.LeftPending?
      // A failing write of the intent: in front of the guarded part nothing else happens, in its
      // handler the last attempt to close is skipped.
      ensures r.Unmarked? <==> !r.Declined? && !e.mark.Works?
      ensures r.Unmarked? ==>
                View() == if e.mark.RaisesBefore? then old(View()) else old(View()).(disk := old(Files()).(certificate := Some(m)))
      ensures r.Unmarked? ==> tls.active == old(tls.active) && tls.folders == old(tls.folders)
      ensures r.Abandoned? ==> !e.remark.Works?
      ensures r.LeftPending? ==> certificate == Some(m) && (r.closed ==> kernel.Shut?)
    {
      hide IsRun, Initial, Inv, Step, PendingOf, PeersOf, Load, ValidPolicy, FreshDocuments, Merged;
      if pending.Some? || !e.suitable || certificate !in {None, Some(m)} || fence.Some? { return Declined; }
      var ok := WriteIntent(m, e.mark);
      if !ok { return Unmarked; }
      ok := CloseForReplacement(e.close);
      if ok {
        var replaced;
        ok, replaced := Perform(tls, m, e);
        if ok { return if replaced then Replaced else Recovered; }
      }
      r := KeepPending(m, e.remark, e.handler);
    }

    // ----- Recovery from a backup -----

    /** A restore is planned only with nothing outstanding; its journal keeps every operation away. */
    method PlanRestore() returns (ok: bool)
      requires Valid() && job.Idle?
      modifies this`fence, this`states, this`actions
      ensures Valid() && Continues()
      ensures ok <==> old(fence).None? && pending.None? && certificate.None?
      ensures fence == if ok then Some(Preparing) else old(fence)
    {
      hide IsRun, Initial, Inv, PeersOf, ValidPolicy, Load, FreshDocuments;
      InvReads(View());
      if fence.Some? || pending.Some? || certificate.Some? { return false; }
      fence := Some(Preparing);
      Record(GatewayMachine.PlanRestore);
      ok := true;
    }

    method WriteMarker(record: Recovery)
      requires Valid() && job.Idle? && record.reviewPending && 0 < record.floor < MAX_INTEGER
      requires Floor(Files()) <= record.floor && ClockOf(Files()) <= record.floor && fence == Some(Preparing)
      modifies this
      ensures Valid() && Continues()
      ensures View() == old(View()).(disk := old(Files()).(marker := Some(record)), job := Suspending(record))
    {
      hide IsRun, Initial, Inv, PendingOf, PeersOf, ValidPolicy, FreshDocuments, Merged;
      InvReads(View());
      marker := Some(record);
      job := Suspending(record);
      Record(Suspend(record));
    }

    method WriteFloorReference(record: Recovery)
      requires Valid() && job == Suspending(record)
      modifies this
      ensures Valid() && Continues()
      ensures View() == old(View()).(disk := old(Files()).(reference := Some(record.floor)), job := Idle)
    {
      hide IsRun, Initial, Inv, PendingOf, PeersOf, ValidPolicy, FreshDocuments, Merged;
      reference := Some(record.floor);
      job := Idle;
      Record(WriteReference);
    }

    /** Suspends the live store before a restore: no approval older than the new floor counts again.
        `interrupted` is a crash between the two writes. */
    method BeginRestore(transaction: nat, now: Time, savedClock: Time, savedFloor: Time, interrupted: bool)
      returns (ok: bool)
      requires Valid() && job.Idle? && fence == Some(Preparing)
      modifies this
      ensures Valid() && Continues() && job.Idle? && kernel == old(kernel)
      ensures ok <==> 0 < Max(now, Max(savedClock, savedFloor)) < MAX_INTEGER && ClockOf(old(Files())) < MAX_INTEGER && !interrupted
      ensures ok ==>
                var floor := Max(Max(Max(now, Max(savedClock, savedFloor)), Floor(old(Files()))), ClockOf(old(Files())));
                Files() == old(Files()).(marker := Some(Recovery(transaction, floor, true)), reference := Some(floor))
      ensures Files() == old(Files()).(marker := marker, reference := reference)
      ensures marker == old(marker) || (AwaitingReview(marker) && Floor(old(Files())) <= marker.value.floor)
    {
      hide IsRun, Initial, Inv, Step;
      InvReads(View());
      var latest := Max(now, Max(savedClock, savedFloor));
      if !(0 < latest < MAX_INTEGER) || ClockOf(Files()) >= MAX_INTEGER { return false; }
      var record := Recovery(transaction, Max(Max(latest, Floor(Files())), ClockOf(Files())), true);
      WriteMarker(record);
      if interrupted {
        Crashed();
        return false;
      }
      WriteFloorReference(record);
      ok := true;
    }

    ghost method Crashed()
      requires Valid()
      modifies this`job, this`states, this`actions
      ensures Valid() && Continues() && job.Idle?
    {
      hide IsRun, Initial, Inv, PendingOf, PeersOf, ValidPolicy, FreshDocuments, Merged;
      job := Idle;
      Record(Crash(false));
    }

    /** Replaces the closed gateway directory by a restored one whose state merges both histories. */
    method ReplaceDirectory(saved: Policy, savedClock: Time) returns (ok: bool)
      requires Valid() && job.Idle? && fence == Some(Preparing) && kernel.Shut? && start.Absent? && clock.Some?
      modifies this
      ensures Valid() && Continues() && job.Idle? && kernel.Shut?
      ensures ok <==> AwaitingReview(old(marker)) && ValidPolicy(own, Merged(old(policy), saved))
      ensures !ok ==> View() == old(View())
      ensures ok ==>
                && old(policy).revoked <= policy.revoked && saved.revoked <= policy.revoked
                && policy.generation > old(policy).generation && policy.generation > saved.generation
                && policy.agreements == saved.agreements
                && old(pending).None? && pending.None? && old(certificate).None? && certificate.None? && marker == old(marker)
                && clock == Some(Max(Max(ClockOf(old(Files())), savedClock), Floor(old(Files()))))
                && reference == Some(Floor(old(Files())))
                && fence == Some(Exchanged(old(policy), old(clock), old(reference)))
    {
      hide IsRun, Initial, Inv, PendingOf, PeersOf, ValidPolicy, Step;
      InvReads(View());
      var merged := Merged(policy, saved);
      var valid := ReadValid(merged);
      if !AwaitingReview(marker) || !valid { return false; }
      PlannedIsSettled(View());
      ExchangeDirectory(saved, savedClock);
      ok := true;
    }

    method ExchangeDirectory(saved: Policy, savedClock: Time)
      requires Valid() && job.Idle? && fence == Some(Preparing) && kernel.Shut? && start.Absent? && clock.Some? && AwaitingReview(marker)
      requires ValidPolicy(own, Merged(policy, saved))
      modifies this
      ensures Valid() && Continues()
      ensures View() == old(View()).(disk := GatewayMachine.Replaced(old(Files()), saved, savedClock))
    {
      hide IsRun, Initial, Inv, PendingOf, PeersOf, ValidPolicy;
      InvReads(View());
      var after := GatewayMachine.Replaced(Files(), saved, savedClock);
      policy, pending, clock, reference, certificate, fence :=
        after.policy, None, after.clock, after.reference, None, after.fence;
      Record(Restore(saved, savedClock));
    }

    /** A restore that fails puts the previous directory back; the raised floor stays. */
    method RollBackRestore()
      requires Valid() && job.Idle? && fence.Some? && fence.value.Exchanged? && kernel.Shut? && start.Absent?
      modifies this
      ensures Valid() && Continues() && job.Idle? && kernel.Shut?
      ensures policy == old(fence).value.policy && clock == old(fence).value.clock && reference == old(fence).value.reference
      ensures pending.None? && certificate.None? && marker == old(marker) && fence == Some(Preparing)
    {
      hide IsRun, Initial, Inv, PendingOf, PeersOf, ValidPolicy;
      var f := fence.value;
      policy, pending, clock, reference, certificate, fence := f.policy, None, f.clock, f.reference, None, Some(Preparing);
      Record(RollBack);
    }

    /** The journal goes once the restore is committed or rolled back. */
    method EndRestore()
      requires Valid() && job.Idle? && fence.Some?
      modifies this`fence, this`states, this`actions
      ensures Valid() && Continues() && fence.None?
    {
      hide IsRun, Initial, Inv, PendingOf, PeersOf, ValidPolicy;
      fence := None;
      Record(GatewayMachine.EndRestore);
    }
  }

  /** Whatever sequence of operations, failures and interruptions a gateway object has been through,
      every address it admits is admitted by an agreement of its committed policy or, while a change is
      still pending that a start of the unit has been overtaken by, of the policy before it. */
  lemma LiveGatewayIsSafe(g: Gateway, a: Address)
    requires g.Valid() && g.kernel.Installed? && a in g.kernel.members
    ensures g.kernel.source == g.policy || g.pending == Some(g.policy)
    ensures exists d :: GatewaySafety.Admits(g.own, g.kernel.source, g.kernel.record, d, a, g.kernel.at)
  {
    hide Inv, Initial;
    GatewaySafety.WholeRunSafety(g.states, g.actions, |g.states| - 1, a);
  }
}
