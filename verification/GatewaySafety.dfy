/** Safety of every run of the gateway machine: what an installed peer set may contain, what a start of
    the unit can do to it, and that revocations, the recovery floor and a pending change are never lost. */
module GatewaySafety {
  import opened Wrappers
  import opened RegionalAgreements
  import opened GatewayContracts
  import opened GatewayMachine

  // ----- The invariant over runs -----

  lemma {:induction false} RunInv(states: seq<System>, actions: seq<Action>, i: nat)
    requires IsRun(states, actions) && Inv(states[0]) && i < |states|
    ensures Inv(states[i])
  {
    hide Step, Inv;
    if i > 0 {
      RunInv(states, actions, i - 1);
      StepOf(states, actions, i - 1);
      StepInv(states[i - 1], actions[i - 1], states[i]);
    }
  }

  lemma StepOf(states: seq<System>, actions: seq<Action>, i: nat)
    requires IsRun(states, actions) && i < |actions|
    ensures Step(states[i], actions[i], states[i + 1])
  {
    hide Step;
  }

  lemma StepOwn(s: System, a: Action, s': System)
    requires Step(s, a, s')
    ensures s'.own == s.own
  {
    hide ValidPolicy, PeersOf, Members, Load, PendingOf, FreshDocuments, Merged;
  }

  lemma {:induction false} OwnUnchanged(states: seq<System>, actions: seq<Action>, i: nat)
    requires IsRun(states, actions) && i < |states|
    ensures states[i].own == states[0].own
  {
    hide Step;
    if i > 0 {
      OwnUnchanged(states, actions, i - 1);
      StepOf(states, actions, i - 1);
      StepOwn(states[i - 1], actions[i - 1], states[i]);
    }
  }

  // ----- Whole-run safety -----

  /** `d` is a current bilateral agreement of the committed policy that admits `a` at time `at`. */
  ghost predicate Admits(own: Identity, p: Policy, record: Option<Recovery>, d: Document, a: Address, at: Time) {
    && d in p.agreements && VerifyAgreement(d) && OneLocalParty(own, d)
    && Active(own, d, p.revoked, at) && d.offer.id !in p.revoked
    && Peer(own, d).address == a
    && Fresh(record, d)
  }

  lemma {:induction false} SelectFreshIs(record: Option<Recovery>, docs: seq<Document>)
    ensures forall d :: d in SelectFresh(record, docs) <==> d in docs && Fresh(record, d)
  {
    if docs != [] {
      SelectFreshIs(record, docs[1..]);
      assert docs == [docs[0]] + docs[1..];
    }
  }

  lemma RulesAdmit(own: Identity, p: Policy, record: Option<Recovery>, at: Time, r: Rule)
    requires PeersOf(own, p, record, at).Success? && r in PeersOf(own, p, record, at).value
    ensures exists d :: Admits(own, p, record, d, r.address, at)
  {
    var docs := SelectFresh(record, p.agreements);
    PeerRulesSound(own, docs, p.revoked, at);
    var d :| d in multiset(docs) && Active(own, d, p.revoked, at) && r == RuleOf(own, d);
    SelectFreshIs(record, p.agreements);
    assert Genuine(own, multiset(docs));
    assert Admits(own, p, record, d, r.address, at);
  }

  lemma InvAdmits(s: System, a: Address)
    requires Inv(s) && s.kernel.Installed? && a in s.kernel.members
    ensures exists d :: Admits(s.own, s.kernel.source, s.kernel.record, d, a, s.kernel.at)
  {
    hide ValidPolicy, PeersOf, Members;
    var r :| r in PeersOf(s.own, s.kernel.source, s.kernel.record, s.kernel.at).value && r.address == a;
    RulesAdmit(s.own, s.kernel.source, s.kernel.record, s.kernel.at, r);
  }

  /** In every reachable state, whatever was interrupted before it, each address in the kernel set
      is admitted by an agreement that is signed by both parties and was unrevoked and current when the
      set was computed. It belongs to the committed policy, or, while a change that has just been
      committed is still pending, to the policy before it. */
  lemma WholeRunSafety(states: seq<System>, actions: seq<Action>, i: nat, a: Address)
    requires IsRun(states, actions) && Initial(states[0]) && i < |states|
    requires states[i].kernel.Installed? && a in states[i].kernel.members
    ensures Current(states[i], states[i].kernel.source)
    ensures states[i].disk.pending.None? ==> states[i].kernel.source == states[i].disk.policy
    ensures exists d :: Admits(states[i].own, states[i].kernel.source, states[i].kernel.record, d, a, states[i].kernel.at)
  {
    hide Step, Admits;
    InitialInv(states[0]);
    RunInv(states, actions, i);
    InvAdmits(states[i], a);
  }

  // ----- Starts of the unit that no operation overtakes -----

  ghost predicate AllUnlocked(states: seq<System>, actions: seq<Action>, i: nat)
    requires i <= |actions| <= |states|
  {
    forall k | 0 <= k < i :: Unlocked(states[k], actions[k])
  }

  /** Along a run the stricter invariant holds throughout exactly when no operation overtakes a start. */
  lemma {:induction false} RunStrict(states: seq<System>, actions: seq<Action>, i: nat)
    requires IsRun(states, actions) && Strict(states[0]) && i < |states|
    ensures (forall k | 0 <= k <= i :: Strict(states[k])) <==> AllUnlocked(states, actions, i)
  {
    hide Step, Strict, Unlocked;
    if i > 0 {
      RunStrict(states, actions, i - 1);
      StepOf(states, actions, i - 1);
      if Strict(states[i - 1]) { StepStrict(states[i - 1], actions[i - 1], states[i]); }
    }
  }

  /** As long as no operation overtakes a start, every address is admitted by the committed policy
      itself, and the set is empty from closing to opening. */
  lemma UnlockedRunSafety(states: seq<System>, actions: seq<Action>, i: nat, a: Address)
    requires IsRun(states, actions) && Initial(states[0]) && i < |states| && AllUnlocked(states, actions, i)
    requires states[i].kernel.Installed? && a in states[i].kernel.members
    ensures states[i].kernel.source == states[i].disk.policy && StrictJob(states[i])
    ensures exists d :: Admits(states[i].own, states[i].disk.policy, states[i].kernel.record, d, a, states[i].kernel.at)
  {
    hide Step, Inv, Admits, Unlocked;
    InitialStrict(states[0]);
    RunStrict(states, actions, i);
    assert Strict(states[i]);
    InvAdmits(states[i], a);
  }

  // ----- What an overtaken start installs -----

  function AfterClose(s: System): System
    requires s.job.Changing?
  {
    Moved(s, Closed).(kernel := Shut)
  }

  function AfterCommit(s: System): System
    requires s.job.Changing?
  {
    Moved(s, Committed).(disk := s.disk.(policy := s.job.candidate))
  }

  function AfterStartInstall(s: System): System
    requires s.start.Checked?
  {
    s.(kernel := s.start.set', start := Absent)
  }

  /** A change that has just begun can be closed and committed while a start waits to install. */
  lemma BegunCanCommit(s: System)
    requires Inv(s) && At(s, Begun)
    ensures Step(s, Close, AfterClose(s)) && Step(AfterClose(s), Commit, AfterCommit(AfterClose(s)))
  {
    hide ValidPolicy, FreshDocuments;
    InvReads(s);
  }

  lemma WaitingCanInstall(s: System)
    requires s.start.Checked?
    ensures Step(s, StartInstall, AfterStartInstall(s))
  {
    hide ValidPolicy, PeersOf, PendingOf;
  }

  lemma CheckedSetIsCommitted(s: System, c: Policy, begun: System)
    requires Inv(s) && Step(s, Begin(c), begun) && s.start.Checked? && c != s.disk.policy
    ensures At(begun, Begun) && begun.job.candidate == c && begun.start == s.start
    ensures s.start.set'.Installed? && s.start.set'.source == s.disk.policy
  {
    hide ValidPolicy, PeersOf, Derived, FreshDocuments;
  }

  /** Wherever a new change begins while a start waits to install, it can be committed with the
      superseded set installed behind it. */
  lemma OvertakenStartIsStale(s: System, c: Policy, begun: System) returns (states: seq<System>, actions: seq<Action>)
    requires Inv(s) && Step(s, Begin(c), begun) && s.start.Checked? && c != s.disk.policy
    ensures IsRun(states, actions) && |states| == 5
    ensures states[0] == s && states[1] == begun
    ensures states[4].disk.policy == c && states[4].kernel == s.start.set'
    ensures states[4].kernel.Installed? && states[4].kernel.source != c
  {
    hide Step, Inv;
    StepInv(s, Begin(c), begun);
    CheckedSetIsCommitted(s, c, begun);
    BegunCanCommit(begun);
    var closed := AfterClose(begun);
    var committed := AfterCommit(closed);
    WaitingCanInstall(committed);
    states := [s, begun, closed, committed, AfterStartInstall(committed)];
    actions := [Begin(c), Close, Commit, StartInstall];
  }

  /** Wherever a certificate replacement begins while a start waits to install, the set can be installed
      behind the intent, after the closing in front of the activation. */
  lemma OvertakenStartIgnoresIntent(s: System, d: Digest, marked: System) returns (states: seq<System>, actions: seq<Action>)
    requires Inv(s) && Step(s, Mark(d), marked) && s.start.Checked?
    ensures IsRun(states, actions) && |states| == 4
    ensures states[0] == s && states[1] == marked
    ensures InReplacement(states[3], Isolated) && states[3].disk.certificate == Some(d)
    ensures states[3].kernel.Installed? && states[3].kernel == s.start.set'
  {
    hide ValidPolicy, PeersOf, PendingOf, Derived;
    var isolated := Stepped(marked, Isolated).(kernel := Shut);
    assert Step(marked, Isolate, isolated);
    WaitingCanInstall(isolated);
    states := [s, marked, isolated, AfterStartInstall(isolated)];
    actions := [Mark(d), Isolate, StartInstall];
  }

  /** Wherever an intent is written again, or a restore suspends the gateway, while a start waits to
      install, the set can be installed at once, with the intent or the review outstanding. */
  lemma OvertakenStartIgnoresReview(s: System, a: Action, s': System) returns (states: seq<System>, actions: seq<Action>)
    requires Inv(s) && Step(s, a, s') && (a.Remark? || a.Suspend?) && s.start.Checked?
    ensures IsRun(states, actions) && actions == [a, StartInstall]
    ensures |states| == 3 && states[0] == s && states[1] == s' && states[2].own == s.own && states[2].disk == s'.disk
    ensures states[2].kernel.Installed? && states[2].kernel == s.start.set'
    ensures if a.Remark? then states[2].disk.certificate.Some? else AwaitingReview(states[2].disk.marker)
  {
    hide ValidPolicy, PeersOf, PendingOf, Derived;
    assert s'.start == s.start;
    WaitingCanInstall(s');
    states, actions := [s, s', AfterStartInstall(s')], [a, StartInstall];
  }

  // ----- What a start finds when it installs, exactly -----

  /** The actions that end a start in progress or replace it by another one. */
  predicate EndsStart(a: Action) {
    || a.StartLoad? || a.StartEnd? || a.StartInstall? || a.Relaunch?
    || (a.Activate? && a.restarted) || (a.Crash? && a.lost)
  }

  predicate OneStart(actions: seq<Action>, i: nat, j: nat)
    requires i <= j <= |actions|
  {
    forall k | i <= k < j :: !EndsStart(actions[k])
  }

  /** A start has read, under the policy `base`, that no change is pending: a change begun since then is
      still pending, and the policy is `base` until that change is committed. */
  predicate Waits(s: System, base: Policy) {
    && s.start.Past() && (s.start.Checked? ==> s.start.set'.Installed?) && Held(s.start) == base
    && match s.disk.pending
       case None => s.disk.policy == base
       case Some(c) => c.generation == base.generation + 1 && (s.disk.policy == base || s.disk.policy == c)
  }

  lemma PassWaits(s: System, a: Action, s': System)
    requires Inv(s) && Step(s, a, s') && a.PassPending?
    ensures Waits(s', s.disk.policy) && s'.disk == s.disk && s'.disk.pending.None?
  {
    hide ValidPolicy, PeersOf, Derived, Members;
    InvReads(s);
  }

  lemma StepWaits(s: System, a: Action, s': System, base: Policy)
    requires Inv(s) && Waits(s, base) && Step(s, a, s') && !EndsStart(a)
    ensures Waits(s', base)
    ensures s'.disk.pending.None? <==> s.disk.pending.None? && !a.Begin?
    ensures s'.disk.policy == base <==> s.disk.policy == base && !a.Commit?
  {
    hide ValidPolicy, PeersOf, Derived, Members, VerifyIdentity, FreshDocuments;
    InvReads(s);
  }

  lemma {:induction false} RunWaits(states: seq<System>, actions: seq<Action>, i: nat, j: nat, base: Policy)
    requires IsRun(states, actions) && Inv(states[0]) && i <= j < |states| && OneStart(actions, i, j)
    requires Waits(states[i], base) && states[i].disk.pending.None? && states[i].disk.policy == base
    ensures Waits(states[j], base)
    ensures states[j].disk.pending.None? <==> forall k | i <= k < j :: !actions[k].Begin?
    ensures states[j].disk.policy == base <==> forall k | i <= k < j :: !actions[k].Commit?
    decreases j
  {
    hide Step, Inv, Waits, EndsStart;
    if i < j {
      RunWaits(states, actions, i, j - 1, base);
      RunInv(states, actions, j - 1);
      StepOf(states, actions, j - 1);
      StepWaits(states[j - 1], actions[j - 1], states[j], base);
    }
  }

  /** An intent has been written, or written again, and not been cleared since. */
  predicate MarkedSince(actions: seq<Action>, i: nat, j: nat)
    requires i <= j <= |actions|
  {
    exists k :: i <= k < j && (actions[k].Mark? || actions[k].Remark?) && forall m | k < m < j :: !actions[m].Clear?
  }

  lemma StepIntent(s: System, a: Action, s': System)
    requires Inv(s) && Step(s, a, s') && s.start.Past()
    ensures s'.disk.certificate.Some? <==> a.Mark? || a.Remark? || (s.disk.certificate.Some? && !a.Clear?)
  {
    hide ValidPolicy, PeersOf, Derived, Members, VerifyIdentity, FreshDocuments, PendingOf;
  }

  lemma MarkedSinceStep(actions: seq<Action>, i: nat, j: nat)
    requires i < j <= |actions|
    ensures var a := actions[j - 1];
            MarkedSince(actions, i, j) <==> a.Mark? || a.Remark? || (MarkedSince(actions, i, j - 1) && !a.Clear?)
  {
    var a := actions[j - 1];
    if MarkedSince(actions, i, j - 1) && !a.Clear? {
      var k :| i <= k < j - 1 && (actions[k].Mark? || actions[k].Remark?) && forall m | k < m < j - 1 :: !actions[m].Clear?;
      assert forall m | k < m < j :: !actions[m].Clear?;
    }
    if MarkedSince(actions, i, j) && !a.Mark? && !a.Remark? {
      var k :| i <= k < j && (actions[k].Mark? || actions[k].Remark?) && forall m | k < m < j :: !actions[m].Clear?;
      assert k < j - 1;
    }
  }

  lemma {:induction false} RunIntent(states: seq<System>, actions: seq<Action>, i: nat, j: nat)
    requires IsRun(states, actions) && Inv(states[0]) && i <= j < |states|
    requires states[i].disk.certificate.None? && forall k | i <= k <= j :: states[k].start.Past()
    ensures states[j].disk.certificate.Some? <==> MarkedSince(actions, i, j)
    decreases j
  {
    hide Step, Inv, MarkedSince;
    if i < j {
      RunIntent(states, actions, i, j - 1);
      RunInv(states, actions, j - 1);
      StepOf(states, actions, j - 1);
      StepIntent(states[j - 1], actions[j - 1], states[j]);
      MarkedSinceStep(actions, i, j);
    } else {
      assert !MarkedSince(actions, i, i) by { NothingMarked(actions, i); }
    }
  }

  lemma NothingMarked(actions: seq<Action>, i: nat)
    requires i <= |actions|
    ensures !MarkedSince(actions, i, i)
  {
  }

  lemma StepReview(s: System, a: Action, s': System)
    requires Inv(s) && Step(s, a, s') && s.start.Past()
    ensures AwaitingReview(s'.disk.marker) <==> AwaitingReview(s.disk.marker) || a.Suspend?
  {
    hide ValidPolicy, PeersOf, Derived, Members, VerifyIdentity, FreshDocuments, PendingOf;
  }

  lemma {:induction false} RunReview(states: seq<System>, actions: seq<Action>, i: nat, j: nat)
    requires IsRun(states, actions) && Inv(states[0]) && i <= j < |states|
    requires !AwaitingReview(states[i].disk.marker) && forall k | i <= k <= j :: states[k].start.Past()
    ensures AwaitingReview(states[j].disk.marker) <==> exists k :: i <= k < j && actions[k].Suspend?
    decreases j
  {
    hide Step, Inv, AwaitingReview;
    if i < j {
      RunReview(states, actions, i, j - 1);
      RunInv(states, actions, j - 1);
      StepOf(states, actions, j - 1);
      StepReview(states[j - 1], actions[j - 1], states[j]);
    }
  }

  lemma PassIsSettled(s: System, a: Action, s': System)
    requires Inv(s) && Step(s, a, s') && (a.PassCertificate? || a.PassReview?)
    ensures s'.disk == s.disk
    ensures if a.PassCertificate? then s.disk.certificate.None? else !AwaitingReview(s.disk.marker)
  {
    hide ValidPolicy, PeersOf, PendingOf;
    InvReads(s);
  }

  lemma StaysPast(states: seq<System>, actions: seq<Action>, i: nat, j: nat, base: Policy)
    requires IsRun(states, actions) && Inv(states[0]) && i <= j < |states| && OneStart(actions, i, j)
    requires Waits(states[i], base) && states[i].disk.pending.None? && states[i].disk.policy == base
    ensures forall k | i <= k <= j :: states[k].start.Past()
  {
    hide Step, Inv;
    forall k | i <= k <= j ensures states[k].start.Past() { RunWaits(states, actions, i, k, base); }
  }

  /** What a start installs at `j`, having read at `p` that no change is pending, at `c` that no
      certificate intent exists and at `r` that no review is pending. It is the set of the policy at `p`;
      a change is pending exactly when one began since `p`, and the set is superseded exactly when one was
      committed; an intent exists exactly when one was written and not cleared since `c`; a review is
      pending exactly when a restore suspended the gateway since `r`. */
  lemma StartInstallsExactly(states: seq<System>, actions: seq<Action>, p: nat, c: nat, r: nat, j: nat)
    requires IsRun(states, actions) && Initial(states[0]) && p < c < r < j < |actions| && OneStart(actions, p + 1, j)
    requires actions[p].PassPending? && actions[c].PassCertificate? && actions[r].PassReview? && actions[j].StartInstall?
    ensures states[j + 1].kernel.Installed? && states[j + 1].kernel.source == states[p].disk.policy
    ensures states[j + 1].disk == states[j].disk
    ensures states[j].disk.pending.None? <==> forall k | p < k < j :: !actions[k].Begin?
    ensures states[j + 1].kernel.source == states[j].disk.policy <==> forall k | p < k < j :: !actions[k].Commit?
    ensures states[j].disk.certificate.Some? <==> MarkedSince(actions, c + 1, j)
    ensures AwaitingReview(states[j].disk.marker) <==> exists k :: r < k < j && actions[k].Suspend?
  {
    hide Step, Inv, Initial, MarkedSince, AwaitingReview, EndsStart;
    InitialInv(states[0]);
    var base := states[p].disk.policy;
    RunInv(states, actions, p);
    StepOf(states, actions, p);
    PassWaits(states[p], actions[p], states[p + 1]);
    StaysPast(states, actions, p + 1, j, base);
    RunWaits(states, actions, p + 1, j, base);
    RunInv(states, actions, c);
    StepOf(states, actions, c);
    PassIsSettled(states[c], actions[c], states[c + 1]);
    RunIntent(states, actions, c + 1, j);
    RunInv(states, actions, r);
    StepOf(states, actions, r);
    PassIsSettled(states[r], actions[r], states[r + 1]);
    RunReview(states, actions, r + 1, j);
    StepOf(states, actions, j);
    InstallKeepsDisk(states[j], actions[j], states[j + 1]);
  }

  lemma InstallKeepsDisk(s: System, a: Action, s': System)
    requires Step(s, a, s') && a.StartInstall?
    ensures s.start.Checked? && s'.disk == s.disk && s'.kernel == s.start.set'
  {
    hide ValidPolicy, PeersOf, PendingOf;
  }

  // ----- How long a superseded set can last -----

  /** The set is empty, or computed from the pending change `c` itself, and no start is past the check
      for pending changes. */
  predicate NothingStale(s: System, c: Policy) {
    && !s.start.Past() && (s.kernel.Installed? ==> s.kernel.source == c && s.disk.policy == c)
  }

  lemma StepNothingStale(s: System, a: Action, s': System, c: Policy)
    requires Inv(s) && Step(s, a, s') && NothingStale(s, c)
    requires s.disk.pending == Some(c) && s'.disk.pending == Some(c)
    ensures NothingStale(s', c)
  {
    hide ValidPolicy, PeersOf, Derived, Members, VerifyIdentity, FreshDocuments;
    InvReads(s);
  }

  /** A superseded set lasts at most until the next close: from a moment when the set is empty and no
      start waits, as long as `c` stays pending, only sets of `c` are installed. */
  lemma {:induction false} StaleUntilClosed(states: seq<System>, actions: seq<Action>, i: nat, j: nat, c: Policy)
    requires IsRun(states, actions) && Inv(states[0]) && i <= j < |states|
    requires states[i].kernel.Shut? && !states[i].start.Past()
    requires forall k | i <= k <= j :: states[k].disk.pending == Some(c)
    ensures NothingStale(states[j], c)
    decreases j
  {
    hide Step, Inv, NothingStale;
    if i < j {
      StaleUntilClosed(states, actions, i, j - 1, c);
      RunInv(states, actions, j - 1);
      StepOf(states, actions, j - 1);
      StepNothingStale(states[j - 1], actions[j - 1], states[j], c);
    } else {
      ShutIsNotStale(states[i], c);
    }
  }

  lemma ShutIsNotStale(s: System, c: Policy)
    requires s.kernel.Shut? && !s.start.Past()
    ensures NothingStale(s, c)
  {
  }

  // ----- What an install demands -----

  predicate Installs(a: Action) { a.StartInstall? || a.Guard? || a.Open? || a.Reopen? }

  /** No operation and no guard tick installs peers while a certificate replacement, a recovery review or
      an uncommitted change is outstanding, and they read the committed policy and the present floor. The
      install of a start does so as long as nothing has overtaken it; `StartInstallsExactly` says when. */
  lemma InstallsOnlyWhenSettled(s: System, a: Action, s': System)
    requires Inv(s) && Step(s, a, s') && Installs(a) && (a.StartInstall? ==> StrictSets(s))
    ensures s.disk.certificate.None? && !AwaitingReview(s.disk.marker)
    ensures s.disk.pending in {None, Some(s.disk.policy)}
    ensures s'.kernel.Installed? && s'.kernel.source == s.disk.policy && s'.kernel.record == s.disk.marker
  {
    hide ValidPolicy, PeersOf, Members, VerifyIdentity, FreshDocuments, Derived;
    InvReads(s);
  }

  /** Only an install makes the set other than empty, or other than it was but for expired addresses. */
  lemma OnlyInstallsInstall(s: System, a: Action, s': System)
    requires Step(s, a, s') && s'.kernel.Installed? && !Installs(a)
    ensures s.kernel.Installed? && s'.kernel == s.kernel.(members := s'.kernel.members)
    ensures s'.kernel.members <= s.kernel.members
  {
    hide ValidPolicy, PeersOf, Members, VerifyIdentity, FreshDocuments, PendingOf, Load;
  }

  // ----- Nothing shrinks -----

  /** The policy that survives even a rollback of the restore in progress, if there is one. */
  function Kept(disk: Disk): Policy {
    if disk.fence.Some? && disk.fence.value.Exchanged? then disk.fence.value.policy else disk.policy
  }

  function KeptClock(disk: Disk): Time {
    if disk.fence.Some? && disk.fence.value.Exchanged? && disk.fence.value.clock.Some? then disk.fence.value.clock.value
    else ClockOf(disk)
  }

  ghost predicate NotOlder(before: Disk, after: Disk) {
    && Kept(before).generation <= Kept(after).generation <= after.policy.generation
    && Kept(before).revoked <= Kept(after).revoked <= after.policy.revoked
    && KeptClock(before) <= KeptClock(after) <= ClockOf(after)
    && Floor(before) <= Floor(after)
    && (before.marker.Some? ==> after.marker.Some?)
  }

  /** A pending change continues the committed history. */
  lemma ChangeContinues(s: System)
    requires Inv(s) && s.disk.pending.Some?
    ensures var c := s.disk.pending.value;
            s.disk.policy.generation <= c.generation && s.disk.policy.revoked <= c.revoked
  {
    hide ValidPolicy;
  }

  predicate Restores(a: Action) {
    a.PlanRestore? || a.Suspend? || a.WriteReference? || a.Restore? || a.RollBack? || a.EndRestore?
  }

  lemma WorkNotOlder(s: System, a: Action, s': System)
    requires Inv(s) && Step(s, a, s') && !Restores(a)
    ensures s'.disk.fence == s.disk.fence
    ensures Floor(s'.disk) == Floor(s.disk) && (s.disk.marker.Some? ==> s'.disk.marker.Some?)
    ensures s.disk.policy.generation <= s'.disk.policy.generation && s.disk.policy.revoked <= s'.disk.policy.revoked
    ensures ClockOf(s.disk) <= ClockOf(s'.disk)
  {
    hide ValidPolicy, PeersOf, PendingOf, Members, InstallFor, VerifyIdentity, FreshDocuments, Derived;
    hide BeginAllowed, NothingPending, InstallAllowed, Prepared, SetInv, StartInv, FenceInv;
    if s.disk.pending.Some? { ChangeContinues(s); }
  }

  lemma RestoringNotOlder(s: System, a: Action, s': System)
    requires Inv(s) && Step(s, a, s') && Restores(a)
    ensures NotOlder(s.disk, s'.disk)
    ensures a.RollBack? ==> s'.disk.policy == Kept(s.disk)
    ensures !a.RollBack? ==>
              && s.disk.policy.generation <= s'.disk.policy.generation && s.disk.policy.revoked <= s'.disk.policy.revoked
              && ClockOf(s.disk) <= ClockOf(s'.disk)
    ensures a.Restore? ==>
              && s.disk.policy.generation < s'.disk.policy.generation && a.saved.generation < s'.disk.policy.generation
              && a.saved.revoked <= s'.disk.policy.revoked
  {
    hide ValidPolicy, PeersOf, PendingOf, Members, InstallFor, VerifyIdentity, FreshDocuments, Derived;
    hide BeginAllowed, NothingPending, InstallAllowed, Prepared, SetInv, StartInv, JobInv, Load;
  }

  lemma StepNotOlder(s: System, a: Action, s': System)
    requires Inv(s) && Step(s, a, s')
    ensures NotOlder(s.disk, s'.disk)
    ensures !a.RollBack? ==>
              && s.disk.policy.generation <= s'.disk.policy.generation && s.disk.policy.revoked <= s'.disk.policy.revoked
              && ClockOf(s.disk) <= ClockOf(s'.disk)
    ensures a.RollBack? ==> s'.disk.policy == Kept(s.disk)
    ensures a.Restore? ==>
              && s.disk.policy.generation < s'.disk.policy.generation && a.saved.generation < s'.disk.policy.generation
              && a.saved.revoked <= s'.disk.policy.revoked
  {
    hide Step, PendingOf, JobInv, SetInv, StartInv, ValidPolicy, VerifyIdentity, FreshDocuments, Load;
    if Restores(a) { RestoringNotOlder(s, a, s'); } else { WorkNotOlder(s, a, s'); }
  }

  /** Over any run, restores, rollbacks and crashes included, no revocation is forgotten, the generation,
      the clock checkpoint and the recovery floor never decrease; what a restore has put in place counts
      once it is committed. */
  lemma {:induction false} RunNotOlder(states: seq<System>, actions: seq<Action>, i: nat, j: nat)
    requires IsRun(states, actions) && Inv(states[0]) && i <= j < |states|
    ensures NotOlder(states[i].disk, states[j].disk)
    decreases j
  {
    hide Step, Inv;
    if i < j {
      RunNotOlder(states, actions, i, j - 1);
      RunInv(states, actions, j - 1);
      StepOf(states, actions, j - 1);
      StepNotOlder(states[j - 1], actions[j - 1], states[j]);
    } else {
      RunInv(states, actions, i);
      KeptIsOlder(states[i]);
    }
  }

  lemma KeptIsOlder(s: System)
    requires Inv(s)
    ensures NotOlder(s.disk, s.disk)
  {
    hide ValidPolicy, Derived;
  }

  /** The in-directory reference never exceeds the floor kept outside. */
  lemma ReferenceBelowFloor(states: seq<System>, actions: seq<Action>, i: nat)
    requires IsRun(states, actions) && Initial(states[0]) && i < |states|
    ensures Load(states[i].disk).Success?
    ensures states[i].disk.reference.Some? ==> states[i].disk.reference.value <= Floor(states[i].disk)
  {
    InitialInv(states[0]);
    RunInv(states, actions, i);
  }

  // ----- The recovery floor -----

  /** Every address of a set is admitted by an agreement offered and accepted at or after `f`. */
  ghost predicate AboveFloor(own: Identity, k: Kernel, f: Time) {
    k.Installed? ==>
      forall a | a in k.members ::
        exists d :: Admits(own, k.source, k.record, d, a, k.at) && d.offer.issuedAt >= f && d.acceptance.acceptedAt >= f
  }

  /** What a start is about to install respects the floor `f`. */
  ghost predicate WaitingAbove(s: System, f: Time) {
    s.start.Checked? ==> AboveFloor(s.own, s.start.set', f)
  }

  lemma InstallAbove(s: System, p: Policy, at: Time, second: Time, f: Time)
    requires PeersOf(s.own, p, s.disk.marker, at).Success? && f <= Floor(s.disk)
    ensures AboveFloor(s.own, InstallFor(s, p, at, second), f)
  {
    hide PeersOf, ValidPolicy, VerifyAgreement, Active, OneLocalParty;
    var k := InstallFor(s, p, at, second);
    forall a | a in k.members
      ensures exists d :: Admits(s.own, k.source, k.record, d, a, k.at) && d.offer.issuedAt >= f && d.acceptance.acceptedAt >= f
    {
      var r :| r in PeersOf(s.own, p, s.disk.marker, at).value && r.address == a;
      RulesAdmit(s.own, p, s.disk.marker, at, r);
    }
  }

  lemma StepWaitingAbove(s: System, a: Action, s': System, f: Time)
    requires Inv(s) && Step(s, a, s') && WaitingAbove(s, f) && f <= Floor(s.disk)
    ensures WaitingAbove(s', f)
    ensures Installs(a) ==> AboveFloor(s'.own, s'.kernel, f)
  {
    hide ValidPolicy, PeersOf, VerifyIdentity, FreshDocuments, Derived, PendingOf, AboveFloor, InstallFor, Load;
    match a
    case StartCheck(at, second) => InstallAbove(s, s.start.policy, at, second, f);
    case Guard(at, second) => InstallAbove(s, s.disk.policy, at, second, f);
    case Open(at, second) => InstallAbove(s, s.job.candidate, at, second, f);
    case Reopen(at, second) => InstallAbove(s, s.disk.policy, at, second, f);
    case _ =>
  }

  lemma {:induction false} RunWaitingAbove(states: seq<System>, actions: seq<Action>, i: nat, j: nat, f: Time)
    requires IsRun(states, actions) && Inv(states[0]) && i <= j < |states|
    requires WaitingAbove(states[i], f) && f <= Floor(states[i].disk)
    ensures WaitingAbove(states[j], f) && f <= Floor(states[j].disk)
    decreases j
  {
    hide Step, Inv, WaitingAbove;
    RunNotOlder(states, actions, i, j);
    if i < j {
      RunWaitingAbove(states, actions, i, j - 1, f);
      RunInv(states, actions, j - 1);
      StepOf(states, actions, j - 1);
      StepWaitingAbove(states[j - 1], actions[j - 1], states[j], f);
    }
  }

  /** After a suspension every later install admits only agreements offered and accepted at or after its
      floor, even after the review, if a start that waits in state i does so already. */
  lemma FloorOutlivesReview(states: seq<System>, actions: seq<Action>, i: nat, j: nat, f: Time)
    requires IsRun(states, actions) && Inv(states[0]) && i <= j < |actions| && f <= Floor(states[i].disk)
    requires WaitingAbove(states[i], f) && Installs(actions[j])
    ensures AboveFloor(states[j + 1].own, states[j + 1].kernel, f)
  {
    hide Step, Inv, WaitingAbove, AboveFloor;
    RunWaitingAbove(states, actions, i, j, f);
    RunInv(states, actions, j);
    StepOf(states, actions, j);
    StepWaitingAbove(states[j], actions[j], states[j + 1], f);
  }

  /** Every install of every run from `s` respects the floor `f`. */
  ghost predicate InstallsAbove(s: System, f: Time) {
    forall states: seq<System>, actions: seq<Action>, j: nat ::
      IsRun(states, actions) && states[0] == s && j < |actions| && Installs(actions[j]) ==>
        AboveFloor(states[j + 1].own, states[j + 1].kernel, f)
  }

  /** The floor holds for all that is installed later exactly when it holds for the set of a start that
      waits already. */
  lemma FloorExactly(s: System, f: Time)
    requires Inv(s) && f <= Floor(s.disk)
    ensures InstallsAbove(s, f) <==> WaitingAbove(s, f)
  {
    hide Step, Inv, AboveFloor;
    if WaitingAbove(s, f) {
      forall states: seq<System>, actions: seq<Action>, j: nat | IsRun(states, actions) && states[0] == s && j < |actions| && Installs(actions[j])
        ensures AboveFloor(states[j + 1].own, states[j + 1].kernel, f)
      {
        FloorOutlivesReview(states, actions, 0, j, f);
      }
    } else {
      var s' := AfterStartInstall(s);
      WaitingCanInstall(s);
      assert IsRun([s, s'], [StartInstall]);
      assert [s, s'][0] == s && [s, s'][0 + 1] == s' && Installs([StartInstall][0]);
    }
  }

  /** The review flag is cleared only for a candidate that is pending, committed and entirely fresh. */
  lemma ReviewClearsOnlyFresh(s: System, a: Action, s': System)
    requires Inv(s) && Step(s, a, s') && AwaitingReview(s.disk.marker) && !AwaitingReview(s'.disk.marker)
    ensures a.Review? && s.job.Changing?
    ensures s.disk.pending == Some(s.job.candidate) && s.disk.policy == s.job.candidate
    ensures FreshDocuments(s.disk.marker, s.disk.policy.agreements)
    ensures Floor(s'.disk) == Floor(s.disk)
  {
    hide ValidPolicy, PeersOf, Members, VerifyIdentity, FreshDocuments, Derived;
  }

  // ----- Revocations cannot be undone -----

  predicate Keeps(k: Kernel, ids: set<AgreementId>) {
    k.Installed? ==> ids <= k.source.revoked
  }

  /** What a start past its first check goes on with holds the revocations `ids`. */
  predicate StartKeeps(start: Start, ids: set<AgreementId>) {
    if start.Checked? then Keeps(start.set', ids) else start.Past() ==> ids <= start.policy.revoked
  }

  /** The revocations `ids` are committed or durably pending, would survive a rollback, and are out of
      reach: neither the installed set nor what a start goes on with lacks them. */
  predicate Sealed(s: System, ids: set<AgreementId>) {
    && Keeps(s.kernel, ids) && StartKeeps(s.start, ids)
    && (ids <= Kept(s.disk).revoked || (s.disk.pending.Some? && ids <= s.disk.pending.value.revoked))
  }

  lemma SealedSets(s: System, a: Action, s': System, ids: set<AgreementId>)
    requires Inv(s) && Step(s, a, s') && Sealed(s, ids)
    ensures Keeps(s'.kernel, ids) && StartKeeps(s'.start, ids)
  {
    hide ValidPolicy, PeersOf, PendingOf, Members, VerifyIdentity, FreshDocuments, Derived, Prepared, SetInv, BeginAllowed;
    InvReads(s);
    if s.disk.pending.Some? { ChangeContinues(s); }
  }

  lemma PendingIsUnfenced(s: System)
    requires Inv(s) && s.disk.pending.Some?
    ensures Kept(s.disk) == s.disk.policy
  {
    hide ValidPolicy, PeersOf, PendingOf;
  }

  /** No action brings anybody back: what is out of reach stays so. */
  lemma StepSealed(s: System, a: Action, s': System, ids: set<AgreementId>)
    requires Inv(s) && Step(s, a, s') && Sealed(s, ids)
    ensures Sealed(s', ids)
  {
    hide Step, Inv, Keeps, StartKeeps;
    SealedSets(s, a, s', ids);
    StepNotOlder(s, a, s');
    if s.disk.pending.Some? && s'.disk.pending != s.disk.pending {
      PendingEndsCommitted(s, a, s', s.disk.pending.value);
      PendingIsUnfenced(s);
    }
  }

  /** Over any run, restores and rollbacks included, revocations that are out of reach stay so. */
  lemma {:induction false} RunSealed(states: seq<System>, actions: seq<Action>, i: nat, j: nat, ids: set<AgreementId>)
    requires IsRun(states, actions) && Inv(states[0]) && i <= j < |states| && Sealed(states[i], ids)
    ensures Sealed(states[j], ids)
    decreases j
  {
    hide Step, Inv, Sealed;
    if i < j {
      RunSealed(states, actions, i, j - 1, ids);
      RunInv(states, actions, j - 1);
      StepOf(states, actions, j - 1);
      StepSealed(states[j - 1], actions[j - 1], states[j], ids);
    }
  }

  /** Once a change is durable behind an empty set, with no start going on without its revocations, every
      set that is ever installed later, by whatever actor and after whatever interruptions and restores,
      comes from a policy holding all of them, and nobody is admitted by a revoked agreement. */
  lemma RevocationIsPermanent(states: seq<System>, actions: seq<Action>, i: nat, j: nat, c: Policy, a: Address)
    requires IsRun(states, actions) && Initial(states[0]) && i <= j < |states|
    requires states[i].disk.pending == Some(c) && states[i].kernel.Shut? && StartKeeps(states[i].start, c.revoked)
    requires states[j].kernel.Installed? && a in states[j].kernel.members
    ensures c.revoked <= states[j].kernel.source.revoked
    ensures exists d :: && Admits(states[j].own, states[j].kernel.source, states[j].kernel.record, d, a, states[j].kernel.at)
                        && d.offer.id !in c.revoked
  {
    hide Step, Inv, Initial;
    InitialInv(states[0]);
    RunInv(states, actions, j);
    RunSealed(states, actions, i, j, c.revoked);
    InvAdmits(states[j], a);
  }

  /** Every install of every run from `s` comes from a policy that holds the revocations `ids`. */
  ghost predicate InstallsKeep(s: System, ids: set<AgreementId>) {
    forall states: seq<System>, actions: seq<Action>, j: nat ::
      IsRun(states, actions) && states[0] == s && j < |actions| && Installs(actions[j]) ==> Keeps(states[j + 1].kernel, ids)
  }

  /** The condition on a waiting start is exact: behind an empty set, revocations that are committed or
      durably pending are permanent exactly when the set that waits holds them. */
  lemma RevocationExactly(s: System, ids: set<AgreementId>)
    requires Inv(s) && s.kernel.Shut? && (s.start.Past() ==> s.start.Checked?)
    requires ids <= Kept(s.disk).revoked || (s.disk.pending.Some? && ids <= s.disk.pending.value.revoked)
    ensures InstallsKeep(s, ids) <==> StartKeeps(s.start, ids)
  {
    hide Step, Inv;
    if StartKeeps(s.start, ids) {
      forall states: seq<System>, actions: seq<Action>, j: nat | IsRun(states, actions) && states[0] == s && j < |actions| && Installs(actions[j])
        ensures Keeps(states[j + 1].kernel, ids)
      {
        RunSealed(states, actions, 0, j + 1, ids);
      }
    } else {
      var s' := AfterStartInstall(s);
      WaitingCanInstall(s);
      assert IsRun([s, s'], [StartInstall]);
      assert [s, s'][0] == s && [s, s'][0 + 1] == s' && Installs([StartInstall][0]);
    }
  }

  // ----- A pending change ends only committed -----

  lemma PendingEndsCommitted(s: System, a: Action, s': System, c: Policy)
    requires Inv(s) && Step(s, a, s') && s.disk.pending == Some(c) && s'.disk.pending != Some(c)
    ensures a.Finish? && s.disk.policy == c && s'.disk.policy == c && s'.disk.pending.None?
  {
    hide ValidPolicy, PeersOf, Members, VerifyIdentity, FreshDocuments, Derived, InstallFor, InstallAllowed, SetInv, StartInv, FenceInv;
  }

  /** Over any run a durable change is still pending, or its policy has been committed since. */
  lemma {:induction false} ChangeIsNeverLost(states: seq<System>, actions: seq<Action>, i: nat, j: nat, c: Policy)
    requires IsRun(states, actions) && Inv(states[0]) && i <= j < |states|
    requires states[i].disk.pending == Some(c)
    ensures states[j].disk.pending == Some(c) || exists k :: i <= k <= j && states[k].disk.policy == c
    decreases j
  {
    hide Step, Inv;
    if i < j {
      ChangeIsNeverLost(states, actions, i, j - 1, c);
      if states[j - 1].disk.pending == Some(c) && states[j].disk.pending != Some(c) {
        RunInv(states, actions, j - 1);
        StepOf(states, actions, j - 1);
        PendingEndsCommitted(states[j - 1], actions[j - 1], states[j], c);
      }
    }
  }
}
