/** Runs of the gateway machine: a change that goes through, starts of the unit that a change and a
    suspension overtake, and a pending change that cannot be resumed. */
module GatewayExamples {
  import opened Wrappers
  import opened RegionalAgreements
  import opened GatewayContracts
  import opened GatewayMachine
  import opened GatewaySafety
  import Gateway

  function Last(states: seq<System>): System
    requires states != []
  {
    states[|states| - 1]
  }

  lemma Joined(states: seq<System>, actions: seq<Action>, more: seq<System>, all: seq<Action>)
    requires IsRun(states, actions) && IsRun(more, all) && Last(states) == more[0]
    ensures IsRun(states + more[1..], actions + all)
  {
    hide Step;
    var longer, acts := states + more[1..], actions + all;
    forall i | 0 <= i < |acts| ensures Step(longer[i], acts[i], longer[i + 1]) {
      if i < |actions| {
        assert longer[i] == states[i] && longer[i + 1] == states[i + 1] && acts[i] == actions[i];
      } else {
        var k := i - |actions|;
        assert longer[i] == more[k] && longer[i + 1] == more[k + 1] && acts[i] == all[k];
      }
    }
  }

  // ----- A change goes through -----

  /** What one undisturbed change demands of the state that it starts in. */
  ghost predicate Ready(s: System, c: Policy, at: Time) {
    && Inv(s) && s.job.Idle? && s.disk.certificate.None? && s.disk.fence.None?
    && BeginAllowed(s.own, s.disk, c) && Prepared(s.disk, c)
    && s.disk.clock == Some(at) && PeersOf(s.own, c, AfterReview(s.disk.marker), at).Success?
  }

  function Begins(s: System, c: Policy): System {
    s.(disk := s.disk.(pending := Some(c)), job := Changing(c, Begun))
  }

  function AfterRelaunch(s: System): System
    requires s.job.Changing?
  {
    Moved(s, Relaunched).(kernel := Shut, start := Absent)
  }

  function Reviews(s: System): System
    requires s.job.Changing?
  {
    Moved(s, Reviewed).(disk := s.disk.(marker := AfterReview(s.disk.marker)))
  }

  ghost function Opens(s: System, at: Time, second: Time): System
    requires s.job.Changing? && PeersOf(s.own, s.job.candidate, s.disk.marker, at).Success?
  {
    Moved(s, Opened).(kernel := InstallFor(s, s.job.candidate, at, second))
  }

  function Finishes(s: System): System
    requires s.job.Changing?
  {
    Moved(s, Finished).(disk := s.disk.(pending := None))
  }

  lemma BeginsStep(s: System, c: Policy, at: Time)
    requires Ready(s, c, at)
    ensures Step(s, Begin(c), Begins(s, c))
  {
    hide ValidPolicy, PeersOf, Inv, BeginAllowed, FreshDocuments;
  }

  lemma RelaunchStep(s: System)
    requires At(s, Committed)
    ensures Step(s, Relaunch, AfterRelaunch(s))
  {
    hide ValidPolicy, PeersOf;
  }

  lemma ReviewStep(s: System)
    requires Inv(s) && At(s, Relaunched)
    ensures Step(s, Review, Reviews(s))
  {
    hide ValidPolicy, PeersOf, FreshDocuments, Derived, VerifyIdentity;
    InvReads(s);
  }

  lemma OpenStep(s: System, at: Time, second: Time)
    requires Inv(s) && At(s, Reviewed) && s.disk.clock == Some(at) && !AwaitingReview(s.disk.marker)
    requires PeersOf(s.own, s.job.candidate, s.disk.marker, at).Success?
    ensures Step(s, Open(at, second), Opens(s, at, second))
  {
    hide ValidPolicy, PeersOf, Derived, PendingOf, Members, VerifyIdentity, Fresh, FreshDocuments;
    InvReads(s);
  }

  lemma FinishSteps(s: System)
    requires Inv(s) && At(s, Opened)
    ensures Step(s, Finish, Finishes(s)) && Step(Finishes(s), Return, Finishes(s).(job := Idle))
  {
    hide ValidPolicy, PeersOf, Derived, Members, VerifyIdentity, FreshDocuments;
    InvReads(s);
  }

  /** From every state that is ready for it, an undisturbed change ends with its candidate committed,
      nothing pending and exactly its peers installed. */
  lemma ChangeGoesThrough(s: System, c: Policy, at: Time, second: Time) returns (states: seq<System>, actions: seq<Action>)
    requires Ready(s, c, at)
    ensures IsRun(states, actions) && |actions| == 8 && states[0] == s
    ensures var last := Last(states);
            && last.disk == s.disk.(policy := c, pending := None, marker := AfterReview(s.disk.marker))
            && last.own == s.own && last.job.Idle? && last.start.Absent?
            && last.kernel.Installed? && last.kernel.source == c && last.kernel.record == AfterReview(s.disk.marker)
            && last.kernel.members == Members(PeersOf(s.own, c, AfterReview(s.disk.marker), at).value, second)
  {
    hide Step, Inv, PeersOf, FreshDocuments, BeginAllowed, Members;
    BeginsStep(s, c, at);
    var begun := Begins(s, c);
    StepInv(s, Begin(c), begun);
    BegunCanCommit(begun);
    var closed := AfterClose(begun);
    var committed := AfterCommit(closed);
    StepInv(begun, Close, closed);
    StepInv(closed, Commit, committed);
    RelaunchStep(committed);
    var relaunched := AfterRelaunch(committed);
    StepInv(committed, Relaunch, relaunched);
    ReviewStep(relaunched);
    var reviewed := Reviews(relaunched);
    StepInv(relaunched, Review, reviewed);
    OpenStep(reviewed, at, second);
    var open := Opens(reviewed, at, second);
    StepInv(reviewed, Open(at, second), open);
    FinishSteps(open);
    states := [s, begun, closed, committed, relaunched, reviewed, open, Finishes(open), Finishes(open).(job := Idle)];
    actions := [Begin(c), Close, Commit, Relaunch, Review, Open(at, second), Finish, Return];
  }

  // ----- A start up to its install -----

  ghost function ChecksOf(s: System, at: Time, second: Time): Start
    requires PeersOf(s.own, s.disk.policy, s.disk.marker, at).Success?
  {
    Checked(InstallFor(s, s.disk.policy, at, second))
  }

  lemma StartSteps(s: System, at: Time, second: Time)
    requires Inv(s) && s.disk.pending.None? && s.disk.certificate.None? && !AwaitingReview(s.disk.marker)
    requires PeersOf(s.own, s.disk.policy, s.disk.marker, at).Success?
    ensures var p := s.disk.policy;
            && Step(s, StartLoad, s.(start := Loaded(p)))
            && Step(s.(start := Loaded(p)), PassPending, s.(start := PastPending(p)))
            && Step(s.(start := PastPending(p)), PassCertificate, s.(start := PastCertificate(p)))
            && Step(s.(start := PastCertificate(p)), PassReview, s.(start := PastReview(p)))
            && Step(s.(start := PastReview(p)), StartCheck(at, second), s.(start := ChecksOf(s, at, second)))
  {
    hide ValidPolicy, PeersOf, Members, Derived, VerifyIdentity, FreshDocuments;
    InvReads(s);
  }

  /** With nothing outstanding a start passes its checks. */
  lemma StartPassesChecks(s: System, at: Time, second: Time) returns (states: seq<System>, actions: seq<Action>)
    requires Inv(s) && s.disk.pending.None? && s.disk.certificate.None? && !AwaitingReview(s.disk.marker)
    requires PeersOf(s.own, s.disk.policy, s.disk.marker, at).Success?
    ensures IsRun(states, actions) && |actions| == 5 && states[0] == s
    ensures Last(states) == s.(start := ChecksOf(s, at, second))
  {
    hide Step, Inv, PeersOf;
    StartSteps(s, at, second);
    var p := s.disk.policy;
    states := [ s, s.(start := Loaded(p)), s.(start := PastPending(p)), s.(start := PastCertificate(p)),
                s.(start := PastReview(p)), s.(start := ChecksOf(s, at, second)) ];
    actions := [StartLoad, PassPending, PassCertificate, PassReview, StartCheck(at, second)];
  }

  // ----- The example -----

  const OWN: Identity := ExampleIdentity("a", 0x6440_0001, 1)
  const AGREEMENT: AgreementId := 7
  const PARTNER: Address := 0x6440_0002

  const BEFORE: Policy := Policy(0, [], {})
  const FIRST: Policy := Policy(1, [ExampleAgreement(AGREEMENT, 10, 12)], {})
  const REVOKING: Policy := Policy(2, [ExampleAgreement(AGREEMENT, 10, 12)], {AGREEMENT})

  function Example(disk: Disk, job: Job): System { System(OWN, disk, Shut, job, Absent) }

  const FRESH: System := Example(Disk(BEFORE, None, None, None, None, None, None), Idle)
  const TICKED: System := Example(Disk(BEFORE, None, Some(20), None, None, None, None), Idle)

  lemma EmptyIsValid(generation: nat, revoked: set<AgreementId>)
    requires generation < MAX_INTEGER && |revoked| <= MAX_REVOCATIONS
    ensures VerifyIdentity(OWN) && ValidPolicy(OWN, Policy(generation, [], revoked))
  {
    ExamplesAreGenuine(1, 0, 0);
  }

  /** One agreement with the partner, offered at second 10 and accepted at second 12. */
  lemma ExampleIsDerivable(now: Time)
    requires 12 <= now < 1000
    ensures var d := ExampleAgreement(AGREEMENT, 10, 12);
            && Acceptable(OWN, multiset([d]), {}, 0) && Acceptable(OWN, multiset([d]), {}, now)
            && Active(OWN, d, {}, now) && RuleOf(OWN, d).address == PARTNER
            && RuleOf(OWN, d).services == {"matrix"} && RuleOf(OWN, d).expiresAt == 1000
  {
    ExamplesAreGenuine(AGREEMENT, 10, 12);
    var d := ExampleAgreement(AGREEMENT, 10, 12);
    assert d.offer.initiator == OWN;
    hide VerifyAgreement, VerifyIdentity, OneLocalParty;
    assert multiset([d]) == multiset{d};
  }

  lemma FirstPeers()
    ensures ValidPolicy(OWN, FIRST) && PeersOf(OWN, FIRST, None, 20).Success?
    ensures PARTNER in Members(PeersOf(OWN, FIRST, None, 20).value, 20)
  {
    var d := ExampleAgreement(AGREEMENT, 10, 12);
    ExampleIsDerivable(20);
    assert SelectFresh(None, [d]) == [d] by { assert [d][1..] == []; }
    var rules := PeersOf(OWN, FIRST, None, 20).value;
    PeerRulesSound(OWN, [d], {}, 20);
    var rule := RuleOf(OWN, d);
    assert d in multiset([d]);
    assert rule in rules && "matrix" in rule.services * SERVICES && rule.address in Members(rules, 20);
  }

  lemma RevokingIsValid()
    ensures ValidPolicy(OWN, REVOKING)
  {
    var d := ExampleAgreement(AGREEMENT, 10, 12);
    ExamplesAreGenuine(AGREEMENT, 10, 12);
    hide VerifyAgreement, VerifyIdentity, OneLocalParty;
    assert multiset([d]) == multiset{d};
  }

  lemma FirstTick()
    ensures IsRun([FRESH, TICKED], [Tick(20)]) && Initial(FRESH)
  {
    EmptyIsValid(0, {});
    hide ValidPolicy, PeersOf;
  }

  lemma FirstIsReady()
    requires Inv(TICKED)
    ensures Ready(TICKED, FIRST, 20) && PARTNER in Members(PeersOf(OWN, FIRST, None, 20).value, 20)
  {
    hide PeersOf, Members, ValidPolicy, Inv;
    EmptyIsValid(0, {});
    FirstPeers();
  }

  /** The partner is admitted, and a start of the unit waits to admit it again. */
  ghost predicate PartnerWaits(s: System) {
    && s.own == OWN && s.disk == Disk(FIRST, None, Some(20), None, None, None, None) && s.job.Idle?
    && s.kernel.Installed? && s.start.Checked?
    && s.start.set'.Installed? && s.start.set'.source == FIRST && s.start.set'.record.None?
    && PARTNER in s.start.set'.members
  }

  lemma ExampleWaits() returns (states: seq<System>, actions: seq<Action>)
    ensures IsRun(states, actions) && Initial(states[0]) && Inv(Last(states)) && PartnerWaits(Last(states))
  {
    hide Step, Inv, PeersOf, Members, ValidPolicy, BeginAllowed;
    FirstTick();
    InitialInv(FRESH);
    RunInv([FRESH, TICKED], [Tick(20)], 1);
    FirstIsReady();
    var opening, acts := ChangeGoesThrough(TICKED, FIRST, 20, 20);
    Joined([FRESH, TICKED], [Tick(20)], opening, acts);
    states, actions := [FRESH, TICKED] + opening[1..], [Tick(20)] + acts;
    RunInv(states, actions, |states| - 1);
    var checking, acts' := StartPassesChecks(Last(states), 20, 20);
    Joined(states, actions, checking, acts');
    states, actions := states + checking[1..], actions + acts';
    RunInv(states, actions, |states| - 1);
  }

  // ----- A change overtakes a start -----

  lemma RevokingCanBegin(s: System)
    requires PartnerWaits(s)
    ensures Step(s, Begin(REVOKING), Begins(s, REVOKING))
  {
    hide ValidPolicy, PeersOf, Inv, Members;
    FirstPeers();
    RevokingIsValid();
  }

  /** A start of the unit that a change overtakes admits, behind the committed revocation, the partner
      whose agreement was revoked. */
  lemma OvertakenStartAdmitsRevoked() returns (states: seq<System>, actions: seq<Action>)
    ensures IsRun(states, actions) && Initial(states[0])
    ensures var last := Last(states);
            && last.kernel.Installed? && PARTNER in last.kernel.members
            && last.disk.policy == REVOKING && AGREEMENT in last.disk.policy.revoked
            && last.disk.policy.agreements == [ExampleAgreement(AGREEMENT, 10, 12)]
  {
    hide Step, Inv;
    states, actions := ExampleWaits();
    var begun := Begins(Last(states), REVOKING);
    RevokingCanBegin(Last(states));
    var last, acts := OvertakenStartIsStale(Last(states), REVOKING, begun);
    Joined(states, actions, last, acts);
    states, actions := states + last[1..], actions + acts;
  }

  // ----- A suspension overtakes a start -----

  const RECOVERY: Recovery := Recovery(1, 30, true)

  lemma SuspendSteps(s: System)
    requires PartnerWaits(s)
    ensures var planned := s.(disk := s.disk.(fence := Some(Preparing)));
            && Step(s, PlanRestore, planned)
            && Step(planned, Suspend(RECOVERY), planned.(disk := planned.disk.(marker := Some(RECOVERY)), job := Suspending(RECOVERY)))
  {
    hide ValidPolicy, PeersOf, Members;
  }

  /** A restore raises the floor to second 30; the start that waited admits the partner by its approval
      of second 12, below the floor and with the review pending. */
  lemma OvertakenStartPrecedesFloor() returns (states: seq<System>, actions: seq<Action>)
    ensures IsRun(states, actions) && Initial(states[0])
    ensures var last := Last(states);
            && last.kernel.Installed? && PARTNER in last.kernel.members
            && AwaitingReview(last.disk.marker) && Floor(last.disk) == 30
            && last.kernel.source.agreements == [ExampleAgreement(AGREEMENT, 10, 12)]
            && !AboveFloor(last.own, last.kernel, Floor(last.disk))
  {
    hide Step, Inv, Admits;
    states, actions := ExampleWaits();
    var s := Last(states);
    SuspendSteps(s);
    var planned := s.(disk := s.disk.(fence := Some(Preparing)));
    var suspended := planned.(disk := planned.disk.(marker := Some(RECOVERY)), job := Suspending(RECOVERY));
    StepInv(s, PlanRestore, planned);
    Joined(states, actions, [s, planned], [PlanRestore]);
    states, actions := states + [planned], actions + [PlanRestore];
    var last, acts := OvertakenStartIgnoresReview(planned, Suspend(RECOVERY), suspended);
    Joined(states, actions, last, acts);
    states, actions := states + last[1..], actions + acts;
    var k := Last(states).kernel;
    forall d ensures !(Admits(OWN, k.source, k.record, d, PARTNER, k.at) && d.offer.issuedAt >= 30) {
      OnlyAgreement(k.source, k.record, d, k.at);
    }
  }

  lemma OnlyAgreement(p: Policy, record: Option<Recovery>, d: Document, at: Time)
    requires p == FIRST
    ensures Admits(OWN, p, record, d, PARTNER, at) ==> d.offer.issuedAt == 10
  {
    hide VerifyAgreement, OneLocalParty, Active, Peer;
  }

  // ----- A pending change that cannot be resumed -----

  const DOUBTFUL: Policy := Policy(1, [ExampleAgreement(1, 0, 10), ExampleAgreement(2, 0, 50)], {})

  lemma DoubtfulPeers()
    ensures ValidPolicy(OWN, DOUBTFUL)
    ensures PeersOf(OWN, DOUBTFUL, None, 20).Success? && PeersOf(OWN, DOUBTFUL, None, 60).Failure?
  {
    AwaitedAgreementTurnsAmbiguous();
    var d, e := ExampleAgreement(1, 0, 10), ExampleAgreement(2, 0, 50);
    DoubtfulIsValid();
    hide ValidPolicy, ExampleAgreement, ExampleIdentity, PeerRulesOf;
    assert SelectFresh(None, [d, e]) == [d, e] by { assert [d, e][1..] == [e] && [e][1..] == []; }
  }

  lemma DoubtfulIsValid()
    ensures ValidPolicy(OWN, DOUBTFUL)
  {
    var d, e := ExampleAgreement(1, 0, 10), ExampleAgreement(2, 0, 50);
    ExamplesAreGenuine(1, 0, 10);
    ExamplesAreGenuine(2, 0, 50);
    assert d.offer.id == 1 && e.offer.id == 2;
    assert !Active(OWN, d, {}, 0) && !Active(OWN, e, {}, 0);
    hide VerifyAgreement, VerifyIdentity, OneLocalParty, Active, RuleOf, ExampleAgreement, ExampleIdentity;
    assert multiset([d, e]) == multiset{d, e};
  }

  lemma DoubtfulSteps()
    ensures Step(TICKED, Begin(DOUBTFUL), Begins(TICKED, DOUBTFUL))
    ensures Step(Begins(TICKED, DOUBTFUL), Crash(false), Begins(TICKED, DOUBTFUL).(job := Idle))
  {
    hide ValidPolicy, PeersOf, Members;
    EmptyIsValid(0, {});
    DoubtfulIsValid();
  }

  /** A change is interrupted behind its intent; when the second of its two agreements with one partner
      comes into force, no resumption can go through any more. */
  lemma PendingTurnsUnresumable() returns (states: seq<System>, actions: seq<Action>)
    ensures IsRun(states, actions) && Initial(states[0])
    ensures var last := Last(states);
            && last.job.Idle? && last.disk.pending == Some(DOUBTFUL) && ClockAllows(last.disk, 60)
            && Gateway.Resumable(last, DOUBTFUL, 20) && !Gateway.Resumable(last, DOUBTFUL, 60)
  {
    hide Step, PeersOf, ValidPolicy, Inv;
    FirstTick();
    DoubtfulSteps();
    DoubtfulPeers();
    var begun := Begins(TICKED, DOUBTFUL);
    states := [FRESH, TICKED, begun, begun.(job := Idle)];
    actions := [Tick(20), Begin(DOUBTFUL), Crash(false)];
    assert Step(FRESH, Tick(20), TICKED) by { assert [FRESH, TICKED][0] == FRESH && [FRESH, TICKED][0 + 1] == TICKED && [Tick(20)][0] == Tick(20); }
    InitialInv(FRESH);
    RunInv(states, actions, 3);
    Gateway.PendingIsResumable(states[3], DOUBTFUL, 20);
    Gateway.PendingIsResumable(states[3], DOUBTFUL, 60);
  }
}
