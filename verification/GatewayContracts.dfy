/** Derivation of the active peers of one gateway (scripts/gateway_contracts.py, peer_rules). */
module GatewayContracts {
  import opened Wrappers
  import opened RegionalAgreements

  const MAX_PEERS: nat := 8

  datatype Rule = Rule(
    id: AgreementId, fingerprint: Fingerprint, institution: string, address: Address,
    domains: map<string, string>, services: set<string>, expiresAt: Time)

  /** Exactly one of the two parties is the pinned local identity, signature included. */
  predicate OneLocalParty(own: Identity, d: Document) {
    (d.offer.initiator == own) != (d.offer.recipient == own)
  }

  function Peer(own: Identity, d: Document): Identity {
    if d.offer.initiator == own then d.offer.recipient else d.offer.initiator
  }

  predicate Active(own: Identity, d: Document, revoked: set<AgreementId>, now: Time) {
    Evaluate(d, own.key, {Peer(own, d).key}, revoked, now).MutuallyApproved?
  }

  function RuleOf(own: Identity, d: Document): Rule {
    var peer := Peer(own, d);
    var domains := map name | name in d.offer.services && name in peer.services :: peer.services[name];
    Rule(d.offer.id, peer.key, peer.institution, peer.address, domains, d.offer.services, d.offer.expiresAt)
  }

  /** Two rules that may not be in force together. */
  predicate Ambiguous(a: Rule, b: Rule) {
    || a.fingerprint == b.fingerprint
    || a.address == b.address
    || !(a.domains.Values !! b.domains.Values)
  }

  // ----- What a selection of documents must satisfy, independent of their order -----

  ghost predicate Genuine(own: Identity, docs: multiset<Document>) {
    forall d | d in docs :: docs[d] == 1 && VerifyAgreement(d) && OneLocalParty(own, d)
  }

  ghost predicate DistinctIds(docs: multiset<Document>) {
    forall d, e | d in docs && e in docs && d != e :: d.offer.id != e.offer.id
  }

  ghost predicate Unambiguous(own: Identity, docs: multiset<Document>, revoked: set<AgreementId>, now: Time) {
    && (forall d, e | d in docs && e in docs && d != e
                      && Active(own, d, revoked, now) && Active(own, e, revoked, now) ::
         !Ambiguous(RuleOf(own, d), RuleOf(own, e)))
    && (forall d | d in docs && Active(own, d, revoked, now) ::
         RuleOf(own, d).domains.Values !! own.services.Values)
  }

  ghost predicate Consistent(own: Identity, docs: multiset<Document>, revoked: set<AgreementId>, now: Time) {
    Genuine(own, docs) && DistinctIds(docs) && Unambiguous(own, docs, revoked, now)
  }

  ghost predicate Acceptable(own: Identity, docs: multiset<Document>, revoked: set<AgreementId>, now: Time) {
    && VerifyIdentity(own) && now <= MAX_EPOCH && |docs| <= MAX_PEERS
    && Consistent(own, docs, revoked, now)
  }

  // ----- The rules in force, sorted by fingerprint -----

  ghost predicate StrictlySorted(rules: seq<Rule>) {
    forall i, j | 0 <= i < j < |rules| :: rules[i].fingerprint < rules[j].fingerprint
  }

  /** `rules` lists exactly the rules of the active documents, once each, by rising fingerprint. */
  ghost predicate Lists(rules: seq<Rule>, own: Identity, docs: multiset<Document>,
                        revoked: set<AgreementId>, now: Time)
  {
    && StrictlySorted(rules)
    && (forall r | r in rules :: exists d :: d in docs && Active(own, d, revoked, now) && r == RuleOf(own, d))
    && (forall d | d in docs && Active(own, d, revoked, now) :: RuleOf(own, d) in rules)
  }

  function ActiveRules(own: Identity, docs: seq<Document>, revoked: set<AgreementId>, now: Time): seq<Rule> {
    if docs == [] then []
    else
      var last := docs[|docs| - 1];
      ActiveRules(own, docs[..|docs| - 1], revoked, now)
      + (if Active(own, last, revoked, now) then [RuleOf(own, last)] else [])
  }

  function Insert(rule: Rule, sorted: seq<Rule>): seq<Rule> {
    if sorted == [] || rule.fingerprint < sorted[0].fingerprint then [rule] + sorted
    else [sorted[0]] + Insert(rule, sorted[1..])
  }

  function SortByFingerprint(rules: seq<Rule>): seq<Rule> {
    if rules == [] then [] else Insert(rules[|rules| - 1], SortByFingerprint(rules[..|rules| - 1]))
  }

  /** The specification of `PeerRules` below. */
  ghost function PeerRulesOf(own: Identity, docs: seq<Document>, revoked: set<AgreementId>, now: Time)
    : Result<seq<Rule>>
  {
    if Acceptable(own, multiset(docs), revoked, now)
    then Success(SortByFingerprint(ActiveRules(own, docs, revoked, now)))
    else Failure
  }

  // ----- Sorting lemmas -----

  lemma {:induction false} InsertKeepsSorted(rule: Rule, sorted: seq<Rule>)
    requires StrictlySorted(sorted)
    requires forall r | r in sorted :: r.fingerprint != rule.fingerprint
    ensures StrictlySorted(Insert(rule, sorted))
    ensures forall r :: r in Insert(rule, sorted) <==> r == rule || r in sorted
  {
    if sorted == [] || rule.fingerprint < sorted[0].fingerprint {
    } else {
      var rest := sorted[1..];
      assert sorted == [sorted[0]] + rest;
      InsertKeepsSorted(rule, rest);
      var tail := Insert(rule, rest);
      assert forall r | r in tail :: sorted[0].fingerprint < r.fingerprint;
      SortedCons(sorted[0], tail);
    }
  }

  lemma SortedCons(head: Rule, tail: seq<Rule>)
    requires StrictlySorted(tail)
    requires forall r | r in tail :: head.fingerprint < r.fingerprint
    ensures StrictlySorted([head] + tail)
  {
    var all := [head] + tail;
    forall i, j | 0 <= i < j < |all| ensures all[i].fingerprint < all[j].fingerprint {
      assert all[j] == tail[j - 1];
    }
  }

  ghost predicate DistinctFingerprints(rules: seq<Rule>) {
    forall i, j | 0 <= i < j < |rules| :: rules[i].fingerprint != rules[j].fingerprint
  }

  lemma {:induction false} SortIsSorted(rules: seq<Rule>)
    requires DistinctFingerprints(rules)
    ensures StrictlySorted(SortByFingerprint(rules))
    ensures forall r :: r in SortByFingerprint(rules) <==> r in rules
  {
    if rules != [] {
      var front, last := rules[..|rules| - 1], rules[|rules| - 1];
      assert rules == front + [last];
      SortIsSorted(front);
      forall r | r in front ensures r.fingerprint != last.fingerprint {
        var k :| 0 <= k < |front| && front[k] == r;
        assert rules[k] == r;
      }
      InsertKeepsSorted(last, SortByFingerprint(front));
    }
  }

  /** A strictly sorted list is determined by its elements. */
  lemma {:induction false} SortedUnique(a: seq<Rule>, b: seq<Rule>)
    requires StrictlySorted(a) && StrictlySorted(b)
    requires forall r :: r in a <==> r in b
    ensures a == b
  {
    assert b != [] ==> b[0] in b;
    if a != [] {
      assert a[0] in b && b != [];
      assert b[0] in a;
      var i :| 0 <= i < |b| && b[i] == a[0];
      var j :| 0 <= j < |a| && a[j] == b[0];
      assert a[0] == b[0];
      assert a == [a[0]] + a[1..] && b == [b[0]] + b[1..];
      assert a[0] !in a[1..] && b[0] !in b[1..];
      assert forall r :: r in a <==> r == a[0] || r in a[1..];
      assert forall r :: r in b <==> r == b[0] || r in b[1..];
      SortedUnique(a[1..], b[1..]);
    }
  }

  lemma ListsUnique(a: seq<Rule>, b: seq<Rule>, own: Identity, docs: multiset<Document>,
                    revoked: set<AgreementId>, now: Time)
    requires Lists(a, own, docs, revoked, now) && Lists(b, own, docs, revoked, now)
    ensures a == b
  {
    SortedUnique(a, b);
  }

  // ----- The active rules of a consistent selection -----

  lemma {:induction false} ActiveRulesAre(own: Identity, docs: seq<Document>, revoked: set<AgreementId>, now: Time)
    ensures forall r | r in ActiveRules(own, docs, revoked, now) ::
              exists d :: d in docs && Active(own, d, revoked, now) && r == RuleOf(own, d)
    ensures forall d | d in docs && Active(own, d, revoked, now) :: RuleOf(own, d) in ActiveRules(own, docs, revoked, now)
  {
    if docs != [] {
      var front, last := docs[..|docs| - 1], docs[|docs| - 1];
      assert docs == front + [last];
      ActiveRulesAre(own, front, revoked, now);
    }
  }

  lemma {:induction false} ConsistentFingerprints(own: Identity, docs: seq<Document>, revoked: set<AgreementId>, now: Time)
    requires Consistent(own, multiset(docs), revoked, now)
    ensures DistinctFingerprints(ActiveRules(own, docs, revoked, now))
  {
    if docs != [] {
      var front, last := docs[..|docs| - 1], docs[|docs| - 1];
      assert docs == front + [last];
      assert multiset(docs) == multiset(front) + multiset{last};
      ConsistentFront(own, front, last, revoked, now);
      ConsistentFingerprints(own, front, revoked, now);
      ActiveRulesAre(own, front, revoked, now);
      hide VerifyAgreement, Active, RuleOf, OneLocalParty;
      if Active(own, last, revoked, now) {
        var rules := ActiveRules(own, front, revoked, now);
        forall r | r in rules ensures r.fingerprint != RuleOf(own, last).fingerprint {
          var d :| d in front && Active(own, d, revoked, now) && r == RuleOf(own, d);
          assert d in multiset(front);
        }
      }
    }
  }

  /** One more document, exactly as one iteration of the loop judges it. */
  ghost predicate Joins(own: Identity, docs: multiset<Document>, d: Document, revoked: set<AgreementId>, now: Time) {
    && VerifyAgreement(d) && OneLocalParty(own, d)
    && (forall e | e in docs :: e.offer.id != d.offer.id)
    && (Active(own, d, revoked, now) ==>
          && (forall e | e in docs && Active(own, e, revoked, now) :: !Ambiguous(RuleOf(own, e), RuleOf(own, d)))
          && RuleOf(own, d).domains.Values !! own.services.Values)
  }

  lemma FrontOfConsistent(own: Identity, front: seq<Document>, d: Document, revoked: set<AgreementId>, now: Time)
    requires Consistent(own, multiset(front + [d]), revoked, now)
    ensures Consistent(own, multiset(front), revoked, now) && Joins(own, multiset(front), d, revoked, now)
  {
    hide VerifyAgreement, Active, RuleOf, OneLocalParty;
    var before, after := multiset(front), multiset(front + [d]);
    assert after == before + multiset{d};
    assert forall e :: e in after <==> e in before || e == d;
    assert after[d] == before[d] + 1;
    assert d !in before;
    assert forall e | e in before :: before[e] == after[e];
  }

  lemma JoinedIsConsistent(own: Identity, front: seq<Document>, d: Document, revoked: set<AgreementId>, now: Time)
    requires Consistent(own, multiset(front), revoked, now) && Joins(own, multiset(front), d, revoked, now)
    ensures Consistent(own, multiset(front + [d]), revoked, now)
  {
    hide VerifyAgreement, Active, RuleOf, OneLocalParty;
    var before, after := multiset(front), multiset(front + [d]);
    assert after == before + multiset{d};
    assert d !in before;
    assert forall e :: e in after <==> e in before || e == d;
  }

  lemma ConsistentFront(own: Identity, front: seq<Document>, d: Document, revoked: set<AgreementId>, now: Time)
    ensures Consistent(own, multiset(front + [d]), revoked, now)
            <==> Consistent(own, multiset(front), revoked, now) && Joins(own, multiset(front), d, revoked, now)
  {
    hide Consistent, Joins;
    if Consistent(own, multiset(front + [d]), revoked, now) {
      FrontOfConsistent(own, front, d, revoked, now);
    } else if Consistent(own, multiset(front), revoked, now) && Joins(own, multiset(front), d, revoked, now) {
      JoinedIsConsistent(own, front, d, revoked, now);
    }
  }

  lemma {:induction false} ConsistentPrefix(own: Identity, docs: seq<Document>, i: nat, revoked: set<AgreementId>, now: Time)
    requires i <= |docs|
    requires Consistent(own, multiset(docs), revoked, now)
    ensures Consistent(own, multiset(docs[..i]), revoked, now)
    decreases |docs| - i
  {
    if i == |docs| {
      assert docs[..i] == docs;
    } else {
      ConsistentPrefix(own, docs, i + 1, revoked, now);
      assert docs[..i + 1] == docs[..i] + [docs[i]];
      ConsistentFront(own, docs[..i], docs[i], revoked, now);
    }
  }

  // ----- Main results -----

  /** A successful derivation lists exactly the rules of the active documents, by fingerprint. */
  lemma PeerRulesSound(own: Identity, docs: seq<Document>, revoked: set<AgreementId>, now: Time)
    requires PeerRulesOf(own, docs, revoked, now).Success?
    ensures Lists(PeerRulesOf(own, docs, revoked, now).value, own, multiset(docs), revoked, now)
  {
    var rules := ActiveRules(own, docs, revoked, now);
    ConsistentFingerprints(own, docs, revoked, now);
    SortIsSorted(rules);
    ActiveRulesAre(own, docs, revoked, now);
  }

  lemma RuleOfActive(own: Identity, d: Document, revoked: set<AgreementId>, now: Time)
    requires VerifyAgreement(d) && OneLocalParty(own, d) && Active(own, d, revoked, now)
    ensures var r := RuleOf(own, d);
            && r.id !in revoked && now < r.expiresAt && r.services != {} && r.domains.Keys == r.services
  {
    assert d.offer.services <= Peer(own, d).services.Keys;
  }

  ghost predicate MayCoexist(a: Rule, b: Rule) {
    a.address != b.address && a.domains.Values !! b.domains.Values
  }

  /** Rules in force together never share a partner, an address or a domain, none of them is
      revoked, expired or not yet accepted, and none claims a domain of this institution. */
  lemma PeerRulesDistinct(own: Identity, docs: seq<Document>, revoked: set<AgreementId>, now: Time)
    requires PeerRulesOf(own, docs, revoked, now).Success?
    ensures var rules := PeerRulesOf(own, docs, revoked, now).value;
            && StrictlySorted(rules)
            && (forall i, j | 0 <= i < j < |rules| :: MayCoexist(rules[i], rules[j]))
            && (forall r | r in rules ::
                 && r.id !in revoked && now < r.expiresAt
                 && r.services != {} && r.domains.Keys == r.services
                 && r.domains.Values !! own.services.Values)
  {
    PeerRulesSound(own, docs, revoked, now);
    var rules := PeerRulesOf(own, docs, revoked, now).value;
    var all := multiset(docs);
    assert Consistent(own, all, revoked, now);
    hide VerifyAgreement, Active, RuleOf, OneLocalParty, VerifyIdentity, ActiveRules, SortByFingerprint, PeerRulesOf;
    forall r | r in rules
      ensures r.id !in revoked && now < r.expiresAt && r.services != {} && r.domains.Keys == r.services
      ensures r.domains.Values !! own.services.Values
    {
      var d :| d in all && Active(own, d, revoked, now) && r == RuleOf(own, d);
      RuleOfActive(own, d, revoked, now);
    }
    forall i, j | 0 <= i < j < |rules| ensures MayCoexist(rules[i], rules[j]) {
      var a, b := rules[i], rules[j];
      assert a in rules && b in rules;
      var d :| d in all && Active(own, d, revoked, now) && a == RuleOf(own, d);
      var e :| e in all && Active(own, e, revoked, now) && b == RuleOf(own, e);
      assert a.fingerprint < b.fingerprint;
      assert !Ambiguous(RuleOf(own, d), RuleOf(own, e));
    }
  }

  /** The order in which documents are selected has no effect. */
  lemma PeerRulesOrderIndependent(own: Identity, docs: seq<Document>, docs': seq<Document>,
                                  revoked: set<AgreementId>, now: Time)
    requires multiset(docs) == multiset(docs')
    ensures PeerRulesOf(own, docs, revoked, now) == PeerRulesOf(own, docs', revoked, now)
  {
    if Acceptable(own, multiset(docs), revoked, now) {
      PeerRulesSound(own, docs, revoked, now);
      PeerRulesSound(own, docs', revoked, now);
      ListsUnique(PeerRulesOf(own, docs, revoked, now).value, PeerRulesOf(own, docs', revoked, now).value,
                  own, multiset(docs), revoked, now);
    }
  }

  /** The rules that `more` does not revoke and that have not expired at `later`. */
  function InForce(rules: seq<Rule>, more: set<AgreementId>, later: Time): seq<Rule> {
    if rules == [] then []
    else (if rules[0].id in more || later >= rules[0].expiresAt then [] else [rules[0]]) + InForce(rules[1..], more, later)
  }

  lemma {:induction false} InForceKeeps(rules: seq<Rule>, more: set<AgreementId>, later: Time)
    requires StrictlySorted(rules)
    ensures StrictlySorted(InForce(rules, more, later))
    ensures forall r :: r in InForce(rules, more, later) <==> r in rules && r.id !in more && later < r.expiresAt
  {
    if rules != [] {
      assert rules == [rules[0]] + rules[1..];
      InForceKeeps(rules[1..], more, later);
      assert forall r | r in InForce(rules[1..], more, later) :: r in rules[1..];
      SortedCons(rules[0], InForce(rules[1..], more, later));
    }
  }

  /** No agreement is in force at `later` that was still awaited at `now`. */
  ghost predicate NoneBegins(own: Identity, docs: seq<Document>, all: set<AgreementId>, now: Time, later: Time) {
    forall d | d in docs && Active(own, d, all, later) :: d.acceptance.acceptedAt <= now
  }

  /** Recording further revocations while time passes removes exactly the revoked and the expired rules
      if and only if no agreement comes into force in between. At a fixed time none does. */
  lemma PeerRulesAntitone(own: Identity, docs: seq<Document>, revoked: set<AgreementId>,
                          more: set<AgreementId>, now: Time, later: Time)
    requires PeerRulesOf(own, docs, revoked, now).Success? && now <= later
    ensures PeerRulesOf(own, docs, revoked + more, later)
            == Success(InForce(PeerRulesOf(own, docs, revoked, now).value, more, later))
            <==> later <= MAX_EPOCH && NoneBegins(own, docs, revoked + more, now, later)
    ensures later == now ==> NoneBegins(own, docs, revoked + more, now, later)
  {
    hide PeerRulesOf, Active;
    var all := revoked + more;
    if later <= MAX_EPOCH && NoneBegins(own, docs, all, now, later) {
      NoneBeginsRemoves(own, docs, revoked, more, now, later);
    } else if PeerRulesOf(own, docs, all, later) == Success(InForce(PeerRulesOf(own, docs, revoked, now).value, more, later)) {
      RemovesNoneBegins(own, docs, revoked, more, now, later);
    }
    if later == now {
      forall d | Active(own, d, all, now) ensures d.acceptance.acceptedAt <= now {
        if now < d.acceptance.acceptedAt { AwaitedIsInactive(own, d, all, now); }
      }
    }
  }

  lemma NoneBeginsRemoves(own: Identity, docs: seq<Document>, revoked: set<AgreementId>,
                          more: set<AgreementId>, now: Time, later: Time)
    requires PeerRulesOf(own, docs, revoked, now).Success? && now <= later <= MAX_EPOCH
    requires NoneBegins(own, docs, revoked + more, now, later)
    ensures PeerRulesOf(own, docs, revoked + more, later)
            == Success(InForce(PeerRulesOf(own, docs, revoked, now).value, more, later))
  {
    hide VerifyAgreement, OneLocalParty, Ambiguous, RuleOf, VerifyIdentity, ActiveRules, SortByFingerprint;
    var all := revoked + more;
    FewerActive(own, multiset(docs), docs, revoked, more, now, later);
    PeerRulesSound(own, docs, revoked, now);
    PeerRulesSound(own, docs, all, later);
    var before, after := PeerRulesOf(own, docs, revoked, now).value, PeerRulesOf(own, docs, all, later).value;
    hide PeerRulesOf, Consistent;
    FewerListed(before, own, docs, revoked, more, now, later);
    ListsUnique(InForce(before, more, later), after, own, multiset(docs), all, later);
  }

  lemma RemovesNoneBegins(own: Identity, docs: seq<Document>, revoked: set<AgreementId>,
                          more: set<AgreementId>, now: Time, later: Time)
    requires PeerRulesOf(own, docs, revoked, now).Success?
    requires PeerRulesOf(own, docs, revoked + more, later)
             == Success(InForce(PeerRulesOf(own, docs, revoked, now).value, more, later))
    ensures later <= MAX_EPOCH && NoneBegins(own, docs, revoked + more, now, later)
  {
    hide VerifyAgreement, OneLocalParty, Ambiguous, RuleOf, VerifyIdentity, ActiveRules, SortByFingerprint, Active;
    var all := revoked + more;
    PeerRulesSound(own, docs, revoked, now);
    PeerRulesSound(own, docs, all, later);
    var before, after := PeerRulesOf(own, docs, revoked, now).value, PeerRulesOf(own, docs, all, later).value;
    assert DistinctIds(multiset(docs));
    forall d | d in docs && Active(own, d, all, later) ensures d.acceptance.acceptedAt <= now {
      if now < d.acceptance.acceptedAt { BegunIsListedLate(own, docs, revoked, more, now, later, before, after, d); }
    }
  }

  lemma ActiveLater(own: Identity, d: Document, revoked: set<AgreementId>, more: set<AgreementId>, now: Time, later: Time)
    requires now <= later && (Active(own, d, revoked + more, later) ==> d.acceptance.acceptedAt <= now)
    ensures Active(own, d, revoked + more, later) <==>
            Active(own, d, revoked, now) && RuleOf(own, d).id !in more && later < RuleOf(own, d).expiresAt
  {
  }

  lemma FewerActive(own: Identity, docs: multiset<Document>, list: seq<Document>, revoked: set<AgreementId>,
                    more: set<AgreementId>, now: Time, later: Time)
    requires docs == multiset(list) && Consistent(own, docs, revoked, now)
    requires now <= later && NoneBegins(own, list, revoked + more, now, later)
    ensures Consistent(own, docs, revoked + more, later)
  {
    hide VerifyAgreement, OneLocalParty, Ambiguous, RuleOf, Active;
    forall d | d in docs ensures Active(own, d, revoked + more, later) ==> Active(own, d, revoked, now) {
      ActiveLater(own, d, revoked, more, now, later);
    }
  }

  lemma FewerListed(rules: seq<Rule>, own: Identity, docs: seq<Document>,
                    revoked: set<AgreementId>, more: set<AgreementId>, now: Time, later: Time)
    requires Lists(rules, own, multiset(docs), revoked, now)
    requires now <= later && NoneBegins(own, docs, revoked + more, now, later)
    ensures Lists(InForce(rules, more, later), own, multiset(docs), revoked + more, later)
  {
    hide RuleOf, Active;
    InForceKeeps(rules, more, later);
    forall d | d in multiset(docs)
      ensures Active(own, d, revoked + more, later) <==>
              Active(own, d, revoked, now) && RuleOf(own, d).id !in more && later < RuleOf(own, d).expiresAt
    {
      ActiveLater(own, d, revoked, more, now, later);
    }
  }

  /** The rule of an agreement that has come into force is new: no earlier rule carries its identifier. */
  lemma BegunIsListedLate(own: Identity, docs: seq<Document>, revoked: set<AgreementId>, more: set<AgreementId>,
                          now: Time, later: Time, before: seq<Rule>, after: seq<Rule>, d: Document)
    requires DistinctIds(multiset(docs)) && Lists(before, own, multiset(docs), revoked, now)
    requires Lists(after, own, multiset(docs), revoked + more, later)
    requires d in docs && Active(own, d, revoked + more, later) && d.acceptance.acceptedAt > now
    ensures after != InForce(before, more, later)
  {
    hide Active;
    assert d in multiset(docs);
    InForceKeeps(before, more, later);
    var rule := RuleOf(own, d);
    assert rule in after;
    if rule in before {
      var e :| e in multiset(docs) && Active(own, e, revoked, now) && rule == RuleOf(own, e);
      assert e == d;
      AwaitedIsInactive(own, d, revoked, now);
    }
  }

  lemma AwaitedIsInactive(own: Identity, d: Document, revoked: set<AgreementId>, now: Time)
    requires now < d.acceptance.acceptedAt
    ensures !Active(own, d, revoked, now)
  {
  }

  function ExampleIdentity(name: string, address: Address, key: Fingerprint): Identity {
    Identity(name, "region", name, address, map["matrix" := name], key, true)
  }

  function ExampleAgreement(id: AgreementId, issuedAt: Time, acceptedAt: Time): Document {
    var offer := Offer(id, issuedAt, 1000, ExampleIdentity("a", 0x6440_0001, 1), ExampleIdentity("b", 0x6440_0002, 2),
                       {"matrix"}, true);
    Document(offer, Acceptance(offer, acceptedAt, true))
  }

  lemma ExamplesAreGenuine(id: AgreementId, issuedAt: Time, acceptedAt: Time)
    requires issuedAt <= acceptedAt < 1000
    ensures var d := ExampleAgreement(id, issuedAt, acceptedAt);
            var own := ExampleIdentity("a", 0x6440_0001, 1);
            && VerifyAgreement(d) && OneLocalParty(own, d) && VerifyIdentity(own)
            && RuleOf(own, d).fingerprint == 2 && RuleOf(own, d).domains.Values !! own.services.Values
  {
    assert "a"[0] != "b"[0];
    var own, peer := ExampleIdentity("a", 0x6440_0001, 1), ExampleIdentity("b", 0x6440_0002, 2);
    assert "matrix" in own.services.Keys && "matrix" in peer.services.Keys && "matrix" in SERVICES;
    assert own.services.Values == {"a"} && peer.services.Values == {"b"};
    assert RuleOf(own, ExampleAgreement(id, issuedAt, acceptedAt)).domains == map["matrix" := "b"];
  }

  /** Time alone can break the derivation: a second agreement with the same partner, accepted
      in the future, makes a selection ambiguous that was derivable before. */
  lemma AwaitedAgreementTurnsAmbiguous()
    ensures var own := ExampleIdentity("a", 0x6440_0001, 1);
            var docs := [ExampleAgreement(1, 0, 10), ExampleAgreement(2, 0, 50)];
            PeerRulesOf(own, docs, {}, 20).Success? && PeerRulesOf(own, docs, {}, 60).Failure?
  {
    var own := ExampleIdentity("a", 0x6440_0001, 1);
    var d, e := ExampleAgreement(1, 0, 10), ExampleAgreement(2, 0, 50);
    ExamplesAreGenuine(1, 0, 10);
    ExamplesAreGenuine(2, 0, 50);
    assert d.offer.id == 1 && e.offer.id == 2;
    assert !Active(own, e, {}, 20) && Active(own, d, {}, 60) && Active(own, e, {}, 60);
    hide VerifyAgreement, VerifyIdentity, OneLocalParty, Active, RuleOf, ExampleAgreement, ExampleIdentity;
    var docs := multiset([d, e]);
    assert docs == multiset{d, e} && d in docs && e in docs;
    assert Ambiguous(RuleOf(own, d), RuleOf(own, e));
    assert Consistent(own, docs, {}, 20);
  }

  // ----- The loop -----

  /** What the four seen-sets of the loop hold after the documents `done`. */
  ghost predicate Seen(own: Identity, done: multiset<Document>, revoked: set<AgreementId>, now: Time,
                       ids: set<AgreementId>, peers: set<Fingerprint>, addresses: set<Address>, domains: set<string>)
  {
    && (forall x :: x in ids <==> exists d :: d in done && d.offer.id == x)
    && (forall x :: x in peers <==>
          exists d :: d in done && Active(own, d, revoked, now) && RuleOf(own, d).fingerprint == x)
    && (forall x :: x in addresses <==>
          exists d :: d in done && Active(own, d, revoked, now) && RuleOf(own, d).address == x)
    && (forall x :: x in domains <==>
          x in own.services.Values || exists d :: d in done && Active(own, d, revoked, now) && x in RuleOf(own, d).domains.Values)
  }

  lemma SeenDecidesJoin(own: Identity, done: multiset<Document>, d: Document, revoked: set<AgreementId>, now: Time,
                        ids: set<AgreementId>, peers: set<Fingerprint>, addresses: set<Address>, domains: set<string>)
    requires Seen(own, done, revoked, now, ids, peers, addresses, domains)
    ensures Joins(own, done, d, revoked, now) <==>
            && VerifyAgreement(d) && d.offer.id !in ids && OneLocalParty(own, d)
            && (Active(own, d, revoked, now) ==>
                  var r := RuleOf(own, d);
                  r.fingerprint !in peers && r.address !in addresses && r.domains.Values !! domains)
  {
    hide VerifyAgreement, Active, RuleOf, OneLocalParty;
  }

  lemma SeenGrows(own: Identity, done: multiset<Document>, d: Document, revoked: set<AgreementId>, now: Time,
                  ids: set<AgreementId>, peers: set<Fingerprint>, addresses: set<Address>, domains: set<string>)
    requires Seen(own, done, revoked, now, ids, peers, addresses, domains)
    ensures var r := RuleOf(own, d);
            if Active(own, d, revoked, now)
            then Seen(own, done + multiset{d}, revoked, now, ids + {d.offer.id}, peers + {r.fingerprint},
                      addresses + {r.address}, domains + r.domains.Values)
            else Seen(own, done + multiset{d}, revoked, now, ids + {d.offer.id}, peers, addresses, domains)
  {
    hide Active, RuleOf;
    assert forall e :: e in done + multiset{d} <==> e in done || e == d;
  }

  lemma NothingSeen(own: Identity, revoked: set<AgreementId>, now: Time)
    ensures Consistent(own, multiset([]), revoked, now)
    ensures Seen(own, multiset([]), revoked, now, {}, {}, {}, own.services.Values)
  {
  }

  method PeerRules(own: Identity, docs: seq<Document>, revoked: set<AgreementId>, now: Time)
    returns (result: Result<seq<Rule>>)
    ensures result == PeerRulesOf(own, docs, revoked, now)
  {
    hide VerifyAgreement, VerifyIdentity, Active, RuleOf, OneLocalParty, Ambiguous, Consistent, Joins, Seen;
    if !VerifyIdentity(own) || now > MAX_EPOCH || |docs| > MAX_PEERS {
      return Failure;
    }
    var rules: seq<Rule> := [];
    var ids, peers, addresses, domains := {}, {}, {}, own.services.Values;
    var i := 0;
    assert docs[..i] == [];
    NothingSeen(own, revoked, now);
    while i < |docs|
      invariant 0 <= i <= |docs|
      invariant Consistent(own, multiset(docs[..i]), revoked, now)
      invariant Seen(own, multiset(docs[..i]), revoked, now, ids, peers, addresses, domains)
      invariant rules == ActiveRules(own, docs[..i], revoked, now)
    {
      var d := docs[i];
      ghost var done, next := multiset(docs[..i]), docs[..i + 1];
      assert next == docs[..i] + [d] && next[..i] == docs[..i];
      assert multiset(next) == done + multiset{d};
      ConsistentFront(own, docs[..i], d, revoked, now);
      SeenDecidesJoin(own, done, d, revoked, now, ids, peers, addresses, domains);
      SeenGrows(own, done, d, revoked, now, ids, peers, addresses, domains);
      var refused := !VerifyAgreement(d) || d.offer.id in ids || !OneLocalParty(own, d);
      var active, rule := Active(own, d, revoked, now), RuleOf(own, d);
      if !refused && active {
        refused := rule.fingerprint in peers || rule.address in addresses || !(rule.domains.Values !! domains);
      }
      if refused {
        assert !Joins(own, done, d, revoked, now);
        if Consistent(own, multiset(docs), revoked, now) { ConsistentPrefix(own, docs, i + 1, revoked, now); assert false; }
        return Failure;
      }
      assert Joins(own, done, d, revoked, now);
      assert Consistent(own, multiset(next), revoked, now);
      ids := ids + {d.offer.id};
      if active {
        peers, addresses := peers + {rule.fingerprint}, addresses + {rule.address};
        domains := domains + rule.domains.Values;
        rules := rules + [rule];
      }
      assert Seen(own, multiset(next), revoked, now, ids, peers, addresses, domains);
      assert rules == ActiveRules(own, next, revoked, now);
      i := i + 1;
    }
    assert docs[..i] == docs;
    result := Success(SortByFingerprint(rules));
  }
}
