/** Signed bilateral agreements (scripts/regional_agreements.py).
    Ed25519 and SHA-256 are abstract: `authentic` says that the format checks and the signature of
    a document pass, a fingerprint is represented by the public key it hashes, and the offer digest
    inside an acceptance is represented by the offer it was computed from. */
module RegionalAgreements {
  type AgreementId = nat
  type Fingerprint = nat
  type Address = nat
  type Time = nat

  const MAX_LIFETIME: nat := 90 * 86400
  const MAX_EPOCH: nat := 253402300799
  const SERVICES: set<string> := {"matrix", "nextcloud"}

  datatype Identity = Identity(
    institution: string, controller: string, node: string, address: Address,
    services: map<string, string>, key: Fingerprint, authentic: bool)

  datatype Offer = Offer(
    id: AgreementId, issuedAt: Time, expiresAt: Time,
    initiator: Identity, recipient: Identity, services: set<string>, authentic: bool)

  datatype Acceptance = Acceptance(offer: Offer, acceptedAt: Time, authentic: bool)

  datatype Document = Document(offer: Offer, acceptance: Acceptance)

  datatype AgreementState = MutuallyApproved | Revoked | Expired | NotYetValid | PeerNotApproved

  predicate InRegionalOverlay(a: Address) {
    0x6440_0000 <= a < 0x6480_0000
  }

  /** Pairwise distinct values: as many values as keys. */
  predicate DistinctDomains(services: map<string, string>) {
    forall m, n | m in services && n in services && m != n :: services[m] != services[n]
  }

  predicate VerifyIdentity(i: Identity) {
    && InRegionalOverlay(i.address) && i.address != 0x6464_6464
    && i.services.Keys != {} && i.services.Keys <= SERVICES && DistinctDomains(i.services)
    && i.authentic
  }

  predicate VerifyOffer(o: Offer) {
    && o.issuedAt < o.expiresAt <= o.issuedAt + MAX_LIFETIME
    && o.issuedAt <= MAX_EPOCH && o.expiresAt <= MAX_EPOCH
    && VerifyIdentity(o.initiator) && VerifyIdentity(o.recipient)
    && o.initiator.controller == o.recipient.controller
    && o.initiator.institution != o.recipient.institution
    && o.initiator.address != o.recipient.address
    && o.initiator.key != o.recipient.key
    && o.initiator.services.Values !! o.recipient.services.Values
    && o.services != {} && o.services <= o.initiator.services.Keys * o.recipient.services.Keys
    && o.authentic
  }

  predicate VerifyAgreement(d: Document) {
    && VerifyOffer(d.offer)
    && d.acceptance.authentic
    && d.acceptance.offer == d.offer
    && d.offer.issuedAt <= d.acceptance.acceptedAt < d.offer.expiresAt
  }

  /** The state of a verified agreement in which `local` is a party. */
  function Evaluate(d: Document, local: Fingerprint, approvedPeers: set<Fingerprint>,
                    revoked: set<AgreementId>, now: Time): AgreementState
  {
    var peer := if d.offer.initiator.key == local then d.offer.recipient.key else d.offer.initiator.key;
    if d.offer.id in revoked then Revoked
    else if now >= d.offer.expiresAt then Expired
    else if now < d.acceptance.acceptedAt then NotYetValid
    else if peer !in approvedPeers then PeerNotApproved
    else MutuallyApproved
  }
}
