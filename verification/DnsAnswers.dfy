/** Checking a DNS response against its query (scripts/portable_network_probe.py, dns_answer;
    sections 4.1.1 to 4.1.4 of RFC 1035). An IPv4 address is its four bytes. */
module DnsAnswers {
  import opened Wrappers
  import opened DnsNames

  function Word(p: Bytes, i: nat): (w: nat)
    requires i + 1 < |p|
    ensures w < 65536
  {
    p[i] as int * 256 + p[i + 1]
  }

  /** A slice with Python's clipping. */
  function Slice(p: Bytes, i: nat, count: nat): Bytes {
    if i >= |p| then [] else if i + count > |p| then p[i..] else p[i..i + count]
  }

  function Flags(p: Bytes): nat
    requires |p| >= 12
  {
    Word(p, 2)
  }

  function Rcode(p: Bytes): nat
    requires |p| >= 12
  {
    Flags(p) % 16
  }

  /** A response to a standard query, not truncated: bit 15 is set, bits 14 to 11 and bit 9 are clear. */
  predicate ResponseFlags(flags: nat) {
    flags >= 0x8000 && (flags / 0x800) % 16 == 0 && (flags / 0x200) % 2 == 0
  }

  function AnswerCount(p: Bytes): nat requires |p| >= 12 { Word(p, 6) }

  function RecordCount(p: Bytes): nat
    requires |p| >= 12
  {
    Word(p, 6) + Word(p, 8) + Word(p, 10)
  }

  // ----- Records -----

  /** A resource record fills the bytes from `off` up to `next`. */
  ghost predicate RecordAt(p: Bytes, off: nat, next: nat) {
    && NameOf(p, off).Success?
    && var e := NameEnd(p, off);
       e + 10 <= |p| && next == e + 10 + Word(p, e + 8) && next <= |p|
  }

  /** An address record of the Internet class owned by `wanted`, for `address`. */
  ghost predicate AddressRecord(p: Bytes, off: nat, wanted: Bytes, address: Bytes) {
    && NameOf(p, off) == Success(wanted)
    && var e := NameEnd(p, off);
       e + 14 <= |p| && Word(p, e) == 1 && Word(p, e + 2) == 1 && Word(p, e + 8) == 4 && p[e + 10..e + 14] == address
  }

  /** Consecutive records begin at `offs[0]`, `offs[1]`, ..., and the last one ends at the last offset. */
  ghost predicate Tiling(p: Bytes, offs: seq<nat>) {
    |offs| > 0 && forall k | 0 <= k < |offs| - 1 :: RecordAt(p, offs[k], offs[k + 1])
  }

  ghost predicate Answers(p: Bytes, offs: seq<nat>, count: nat, wanted: Bytes, addresses: seq<Bytes>) {
    && count < |offs| && |addresses| == count
    && forall k | 0 <= k < count :: AddressRecord(p, offs[k], wanted, addresses[k])
  }

  ghost predicate QuestionMatches(p: Bytes, request: Bytes) {
    && NameOf(p, 12).Success? && NameOf(request, 12) == NameOf(p, 12)
    && Slice(p, NameEnd(p, 12), 4) == Slice(request, NameEnd(request, 12), 4)
  }

  ghost predicate HeaderMatches(p: Bytes, request: Bytes) {
    12 <= |p| <= 4096 && Slice(p, 0, 2) == Slice(request, 0, 2) && ResponseFlags(Flags(p))
  }

  /** The header-only refusal that a negative check may receive. */
  predicate BareRefusal(p: Bytes)
    requires |p| >= 12
  {
    Word(p, 4) == 0 && RecordCount(p) == 0 && |p| == 12 && Rcode(p) == 5
  }

  /** The records tile the packet behind the question and its first ones are `addresses` of the
      name that was asked for. */
  ghost predicate Body(p: Bytes, request: Bytes, offs: seq<nat>, addresses: seq<Bytes>)
    requires |p| >= 12
  {
    && Word(p, 4) == 1 && QuestionMatches(p, request)
    && |offs| == RecordCount(p) + 1 && offs[0] == NameEnd(p, 12) + 4 && Tiling(p, offs) && offs[|offs| - 1] == |p|
    && Answers(p, offs, AnswerCount(p), NameOf(p, 12).value, addresses)
  }

  predicate Conclusive(rcode: nat, addresses: seq<Bytes>, expected: Option<Bytes>) {
    match expected
    case None => rcode in {3, 5} && addresses == []
    case Some(a) => rcode == 0 && addresses != [] && forall x | x in addresses :: x == a
  }

  /** What a response must be to be accepted, stated without reading it in any order. */
  ghost predicate Accepted(p: Bytes, request: Bytes, expected: Option<Bytes>) {
    && HeaderMatches(p, request)
    && (|| (expected.None? && BareRefusal(p))
        || exists offs, addresses :: Body(p, request, offs, addresses) && Conclusive(Rcode(p), addresses, expected))
  }

  // ----- The records are determined by the packet -----

  lemma {:induction false} TilingUnique(p: Bytes, offs: seq<nat>, offs': seq<nat>, k: nat)
    requires Tiling(p, offs) && Tiling(p, offs') && offs[0] == offs'[0] && k < |offs| && k < |offs'|
    ensures offs[k] == offs'[k]
  {
    if k > 0 {
      TilingUnique(p, offs, offs', k - 1);
      assert RecordAt(p, offs[k - 1], offs[(k - 1) + 1]) && RecordAt(p, offs'[k - 1], offs'[(k - 1) + 1]);
    }
  }

  /** The prefix read so far: `offs` tile from the question on and the answers among them are `addresses`. */
  ghost predicate ReadSoFar(p: Bytes, offs: seq<nat>, addresses: seq<Bytes>, wanted: Bytes)
    requires |p| >= 12
  {
    && offs != [] && offs[0] == NameEnd(p, 12) + 4 && Tiling(p, offs)
    && |addresses| == (if |offs| - 1 <= AnswerCount(p) then |offs| - 1 else AnswerCount(p))
    && forall k | 0 <= k < |addresses| :: AddressRecord(p, offs[k], wanted, addresses[k])
  }

  /** One more record, or no body at all. */
  lemma NextRecord(p: Bytes, request: Bytes, offs: seq<nat>, addresses: seq<Bytes>, wanted: Bytes)
    requires |p| >= 12 && ReadSoFar(p, offs, addresses, wanted) && NameOf(p, 12) == Success(wanted)
    requires |offs| - 1 < RecordCount(p)
    ensures forall offs', a' :: Body(p, request, offs', a') ==>
              && RecordAt(p, offs[|offs| - 1], offs'[|offs|])
              && (|offs| - 1 < AnswerCount(p) ==> AddressRecord(p, offs[|offs| - 1], wanted, a'[|offs| - 1]))
  {
    hide RecordAt, AddressRecord, QuestionMatches, NameOf, NameEnd;
    var i := |offs| - 1;
    forall offs', a' | Body(p, request, offs', a')
      ensures RecordAt(p, offs[i], offs'[i + 1]) && (i < AnswerCount(p) ==> AddressRecord(p, offs[i], wanted, a'[i]))
    {
      TilingUnique(p, offs, offs', i);
      assert RecordAt(p, offs'[i], offs'[i + 1]);
    }
  }

  lemma Extended(p: Bytes, offs: seq<nat>, addresses: seq<Bytes>, wanted: Bytes, next: nat, address: Bytes)
    requires |p| >= 12 && ReadSoFar(p, offs, addresses, wanted) && RecordAt(p, offs[|offs| - 1], next)
    requires |offs| - 1 < AnswerCount(p) ==> AddressRecord(p, offs[|offs| - 1], wanted, address)
    ensures ReadSoFar(p, offs + [next], if |offs| - 1 < AnswerCount(p) then addresses + [address] else addresses, wanted)
  {
    hide RecordAt, AddressRecord, NameOf, NameEnd;
    var longer := offs + [next];
    forall k | 0 <= k < |longer| - 1 ensures RecordAt(p, longer[k], longer[k + 1]) {
      if k < |offs| - 1 { assert RecordAt(p, offs[k], offs[k + 1]); }
    }
  }

  /** Two readings of the same body agree on the addresses. */
  lemma BodyAddresses(p: Bytes, request: Bytes, offs: seq<nat>, a: seq<Bytes>, offs': seq<nat>, a': seq<Bytes>)
    requires |p| >= 12 && Body(p, request, offs, a) && Body(p, request, offs', a')
    ensures a == a'
  {
    forall k | 0 <= k < |a| ensures a[k] == a'[k] {
      TilingUnique(p, offs, offs', k);
      assert AddressRecord(p, offs[k], NameOf(p, 12).value, a[k]) && AddressRecord(p, offs'[k], NameOf(p, 12).value, a'[k]);
    }
  }

  method DnsAnswer(p: Bytes, request: Bytes, expected: Option<Bytes>) returns (ok: bool)
    ensures ok <==> Accepted(p, request, expected)
  {
    hide NameOf, NameEnd, RecordAt, AddressRecord, Tiling;
    if !(12 <= |p| <= 4096) || Slice(p, 0, 2) != Slice(request, 0, 2) || !ResponseFlags(Flags(p)) { return false; }
    if expected.None? && BareRefusal(p) { return true; }
    if Word(p, 4) != 1 { return false; }
    var question := DnsName(p, 12);
    var asked := DnsName(request, 12);
    if question.Failure? || asked.Failure? { return false; }
    var (wanted, offset) := question.value;
    var (wanted', qend) := asked.value;
    if wanted != wanted' || Slice(p, offset, 4) != Slice(request, qend, 4) { return false; }
    offset := offset + 4;
    var addresses := [];
    ghost var offs := [offset];
    StartReading(p, wanted);
    var index := 0;
    while index < RecordCount(p)
      invariant 0 <= index == |offs| - 1 <= RecordCount(p)
      invariant ReadSoFar(p, offs, addresses, wanted) && offs[|offs| - 1] == offset
    {
      NextRecord(p, request, offs, addresses, wanted);
      var record := ReadRecord(p, offset, index < AnswerCount(p), wanted);
      if record.Failure? { return false; }
      var (next, address) := record.value;
      Extended(p, offs, addresses, wanted, next, address);
      if index < AnswerCount(p) { addresses := addresses + [address]; }
      offset, offs, index := next, offs + [next], index + 1;
    }
    Finished(p, request, offs, addresses, wanted, expected);
    ok := offset == |p| && Conclusive(Rcode(p), addresses, expected);
  }

  lemma StartReading(p: Bytes, wanted: Bytes)
    requires |p| >= 12
    ensures ReadSoFar(p, [NameEnd(p, 12) + 4], [], wanted)
  {
  }

  lemma Finished(p: Bytes, request: Bytes, offs: seq<nat>, addresses: seq<Bytes>, wanted: Bytes, expected: Option<Bytes>)
    requires |p| >= 12 && ReadSoFar(p, offs, addresses, wanted) && |offs| - 1 == RecordCount(p)
    requires Word(p, 4) == 1 && QuestionMatches(p, request) && NameOf(p, 12) == Success(wanted)
    ensures (exists offs', a' :: Body(p, request, offs', a') && Conclusive(Rcode(p), a', expected))
            <==> offs[|offs| - 1] == |p| && Conclusive(Rcode(p), addresses, expected)
  {
    hide RecordAt, AddressRecord, NameOf, NameEnd, QuestionMatches, Conclusive, Tiling;
    if offs[|offs| - 1] == |p| {
      assert Body(p, request, offs, addresses);
      if offs', a' :| Body(p, request, offs', a') && Conclusive(Rcode(p), a', expected) {
        BodyAddresses(p, request, offs, addresses, offs', a');
      }
    } else {
      forall offs', a' ensures !Body(p, request, offs', a') {
        if Body(p, request, offs', a') { TilingUnique(p, offs, offs', RecordCount(p)); assert false; }
      }
    }
  }

  /** Reads one record; an answer must be an address record of the name that was asked for. */
  method ReadRecord(p: Bytes, off: nat, answer: bool, wanted: Bytes) returns (r: Result<(nat, Bytes)>)
    ensures r.Success? ==> RecordAt(p, off, r.value.0) && (answer ==> AddressRecord(p, off, wanted, r.value.1))
    ensures r.Failure? ==>
              (forall next: nat :: !RecordAt(p, off, next)) || (answer && forall a :: !AddressRecord(p, off, wanted, a))
  {
    hide NameOf, NameEnd;
    var owner := DnsName(p, off);
    if owner.Failure? { return Failure; }
    var (host, e) := owner.value;
    if e + 10 > |p| { return Failure; }
    var size := Word(p, e + 8);
    if e + 10 + size > |p| { return Failure; }
    if answer && !(host == wanted && Word(p, e) == 1 && Word(p, e + 2) == 1 && size == 4) { return Failure; }
    r := Success((e + 10 + size, p[e + 10..e + 10 + size]));
  }

  // ----- Compressed responses -----

  /** An address record whose owner is a pointer to the question. */
  function CompressedRecord(ttl: Bytes, address: Bytes): (r: Bytes)
    requires |ttl| == 4 && |address| == 4
    ensures |r| == 16
  {
    [192, 12, 0, 1, 0, 1] + ttl + [0, 4] + address
  }

  /** A successful response to query `q` whose answers are compressed records of `address`, one for each
      time to live in `ttls`. Nothing is said about what follows them. */
  predicate Compressed(p: Bytes, q: Bytes, ttls: seq<Bytes>, address: Bytes) {
    && 12 <= |q| && |p| <= 4096 && |q| + 16 * |ttls| <= |p| && |address| == 4 && (forall t | t in ttls :: |t| == 4)
    && p[..2] == q[..2] && ResponseFlags(Flags(p)) && Rcode(p) == 0
    && Word(p, 4) == 1 && AnswerCount(p) == |ttls| && p[12..|q|] == q[12..]
    && forall k | 0 <= k < |ttls| :: p[|q| + 16 * k..|q| + 16 * k + 16] == CompressedRecord(ttls[k], address)
  }

  /** Exactly `count` records fill the packet from `start` to its end. */
  ghost predicate Filled(p: Bytes, start: nat, count: nat) {
    exists offs :: |offs| == count + 1 && offs[0] == start && Tiling(p, offs) && offs[count] == |p|
  }

  /** A pointer to a name costs one more visit than the name. */
  lemma PointerOwner(p: Bytes, off: nat, labels: seq<Bytes>)
    requires Denotes(p, 12, labels, |labels| + 1) && off + 1 < |p| && p[off] == 192 && p[off + 1] == 12
    ensures NameOf(p, off) == if |labels| + 2 <= MAX_VISITS then Success(Join(labels)) else Failure
    ensures NameEnd(p, off) == off + 2
  {
    assert Denotes(p, off, labels, |labels| + 2);
    if |labels| + 2 <= MAX_VISITS {
      assert Readable(p, off, labels);
      NameOfReadable(p, off, labels);
    } else {
      forall l, n: nat | Denotes(p, off, l, n) ensures n > MAX_VISITS {
        DenotesUnique(p, off, l, n, labels, |labels| + 2);
      }
      Unreadable(p, off);
    }
  }

  lemma CompressedRecordBytes(p: Bytes, off: nat, ttl: Bytes, address: Bytes)
    requires |ttl| == 4 && |address| == 4 && off + 16 <= |p| && p[off..off + 16] == CompressedRecord(ttl, address)
    ensures p[off] == 192 && p[off + 1] == 12
    ensures Word(p, off + 2) == 1 && Word(p, off + 4) == 1 && Word(p, off + 10) == 4
    ensures p[off + 12..off + 16] == address
  {
    var s, record := p[off..off + 16], CompressedRecord(ttl, address);
    assert record[12..16] == address;
    assert p[off + 12..off + 16] == s[12..16];
    assert s[0] == 192 && s[1] == 12 && s[2] == 0 && s[3] == 1 && s[4] == 0 && s[5] == 1 && s[10] == 0 && s[11] == 4;
  }

  /** A compressed address record is readable as such exactly when its owner is. */
  lemma CompressedRecordAt(p: Bytes, off: nat, labels: seq<Bytes>, ttl: Bytes, address: Bytes)
    requires Denotes(p, 12, labels, |labels| + 1) && |ttl| == 4 && |address| == 4
    requires off + 16 <= |p| && p[off..off + 16] == CompressedRecord(ttl, address)
    ensures |labels| + 2 <= MAX_VISITS ==> RecordAt(p, off, off + 16) && AddressRecord(p, off, Join(labels), address)
    ensures |labels| + 2 > MAX_VISITS ==> NameOf(p, off).Failure?
  {
    hide Denotes, NameOf, NameEnd, CompressedRecord, Word;
    CompressedRecordBytes(p, off, ttl, address);
    PointerOwner(p, off, labels);
  }

  ghost predicate Asks(q: Bytes, host: Bytes, identifier: nat)
    requires identifier < 65536
  {
    && |Split(host)| <= 127 && (forall l | l in Split(host) :: Plain(l))
    && DnsQuery(host, identifier) == Success(q)
  }

  lemma SameRange(p: Bytes, q: Bytes, i: nat, j: nat)
    requires 12 <= i <= j <= |q| <= |p| && p[12..|q|] == q[12..]
    ensures p[i..j] == q[i..j]
  {
    forall k | 0 <= k < j - i ensures p[i..j][k] == q[i..j][k] {
      assert p[12..|q|][i + k - 12] == q[12..][i + k - 12];
    }
  }

  lemma QueryLayout(q: Bytes, host: Bytes, identifier: nat)
    requires identifier < 65536 && Asks(q, host, identifier)
    ensures EncodeLabels(Split(host)).Success?
    ensures var code := EncodeLabels(Split(host)).value; |q| == 16 + |code| && q[12..12 + |code|] == code
  {
  }

  lemma QuestionCode(q: Bytes, p: Bytes, host: Bytes, identifier: nat)
    requires identifier < 65536 && Asks(q, host, identifier) && |p| >= |q| >= 16 && p[12..|q|] == q[12..]
    ensures EncodeLabels(Split(host)).Success?
    ensures var code := EncodeLabels(Split(host)).value; |q| == 16 + |code| && p[12..12 + |code|] == code
    ensures Slice(p, |q| - 4, 4) == Slice(q, |q| - 4, 4)
  {
    hide Split, EncodeLabels, DnsQuery, Asks;
    QueryLayout(q, host, identifier);
    SameRange(p, q, 12, |q| - 4);
    SameRange(p, q, |q| - 4, |q|);
  }

  lemma QuestionDenotes(q: Bytes, p: Bytes, host: Bytes, identifier: nat)
    requires identifier < 65536 && Asks(q, host, identifier) && |p| >= |q| >= 16 && p[12..|q|] == q[12..]
    ensures Denotes(p, 12, Split(host), |Split(host)| + 1) && NameEnd(p, 12) == |q| - 4
  {
    hide Denotes, NameEnd, Split, EncodeLabels, DnsQuery, U16, Slice, Plain;
    QuestionCode(q, p, host, identifier);
    EncodedDenotes(p, 12, Split(host));
  }

  lemma QuestionKept(q: Bytes, p: Bytes, host: Bytes, identifier: nat)
    requires identifier < 65536 && Asks(q, host, identifier) && |p| >= |q| >= 16 && p[12..|q|] == q[12..]
    ensures Denotes(p, 12, Split(host), |Split(host)| + 1)
    ensures NameOf(p, 12) == Success(host) == NameOf(q, 12)
    ensures NameEnd(p, 12) == NameEnd(q, 12) == |q| - 4 && Slice(p, |q| - 4, 4) == Slice(q, |q| - 4, 4)
  {
    hide Denotes, NameOf, NameEnd, Join, Split, EncodeLabels, DnsQuery, Slice, Plain;
    QuestionDenotes(q, p, host, identifier);
    QuestionDenotes(q, q, host, identifier);
    QuestionCode(q, p, host, identifier);
    ShortEnough(p, 12, Split(host));
    ShortEnough(q, 12, Split(host));
    JoinSplit(host);
  }

  lemma ShortEnough(p: Bytes, pos: nat, labels: seq<Bytes>)
    requires Denotes(p, pos, labels, |labels| + 1) && |labels| < MAX_VISITS
    ensures NameOf(p, pos) == Success(Join(labels))
  {
    assert Readable(p, pos, labels);
    NameOfReadable(p, pos, labels);
  }

  /** A compressed response is accepted exactly when it has an answer, its authority and additional
      records fill the rest of the packet, and the name has at most 126 labels: the one name length that
      section 3.1 still allows, 127 labels of one character, exhausts the visit limit through the pointer. */
  lemma CompressedResponseAccepted(p: Bytes, q: Bytes, host: Bytes, identifier: nat, ttls: seq<Bytes>, address: Bytes)
    requires identifier < 65536 && Asks(q, host, identifier) && Compressed(p, q, ttls, address)
    ensures Accepted(p, q, Some(address)) <==>
            && ttls != [] && |Split(host)| <= 126
            && Filled(p, |q| + 16 * |ttls|, RecordCount(p) - |ttls|)
  {
    hide Denotes, NameOf, NameEnd, CompressedRecord, Split, Join, Body, Conclusive, Filled, DnsQuery;
    QueryLayout(q, host, identifier);
    QuestionKept(q, p, host, identifier);
    if ttls == [] {
      NoAnswersNoBody(p, q, address);
    } else if |Split(host)| > 126 {
      assert p[|q| + 16 * 0..|q| + 16 * 0 + 16] == CompressedRecord(ttls[0], address);
      CompressedRecordAt(p, |q|, Split(host), ttls[0], address);
      UnreadableOwnerNoBody(p, q);
    } else {
      JoinSplit(host);
      AnswersRead(p, q, Split(host), ttls, address);
      RegularBody(p, q, |ttls|, host, address);
    }
  }

  lemma AnswersRead(p: Bytes, q: Bytes, labels: seq<Bytes>, ttls: seq<Bytes>, address: Bytes)
    requires Compressed(p, q, ttls, address) && Denotes(p, 12, labels, |labels| + 1) && |labels| <= 126
    ensures forall k | 0 <= k < |ttls| ::
              RecordAt(p, |q| + 16 * k, |q| + 16 * (k + 1)) && AddressRecord(p, |q| + 16 * k, Join(labels), address)
  {
    hide Denotes, NameOf, NameEnd, CompressedRecord, Join, RecordAt, AddressRecord;
    forall k | 0 <= k < |ttls|
      ensures RecordAt(p, |q| + 16 * k, |q| + 16 * (k + 1)) && AddressRecord(p, |q| + 16 * k, Join(labels), address)
    {
      assert p[|q| + 16 * k..|q| + 16 * k + 16] == CompressedRecord(ttls[k], address);
      CompressedRecordAt(p, |q| + 16 * k, labels, ttls[k], address);
    }
  }

  lemma NoAnswersNoBody(p: Bytes, q: Bytes, address: Bytes)
    requires |p| >= 12 && AnswerCount(p) == 0
    ensures forall offs, a :: !(Body(p, q, offs, a) && Conclusive(Rcode(p), a, Some(address)))
  {
    hide Tiling, QuestionMatches, NameOf, NameEnd, AddressRecord;
  }

  lemma UnreadableOwnerNoBody(p: Bytes, q: Bytes)
    requires |p| >= 12 && RecordCount(p) > 0 && NameOf(p, NameEnd(p, 12) + 4).Failure?
    ensures forall offs, a :: !Body(p, q, offs, a)
  {
    hide NameOf, NameEnd;
    forall offs, a ensures !Body(p, q, offs, a) {
      if Body(p, q, offs, a) {
        RecordNeedsOwner(p, offs[0], offs[0 + 1]);
        assert false;
      }
    }
  }

  function Regular(start: nat, n: nat): (offs: seq<nat>)
    ensures |offs| == n + 1 && forall k | 0 <= k <= n :: offs[k] == start + 16 * k
  {
    seq(n + 1, k requires 0 <= k => start + 16 * k)
  }

  /** Sixteen-byte address records behind the question form an accepted body exactly when further
      records fill the rest of the packet. */
  lemma RegularBody(p: Bytes, q: Bytes, n: nat, host: Bytes, address: Bytes)
    requires |p| >= 12 && n > 0 && Word(p, 4) == 1 && QuestionMatches(p, q) && NameOf(p, 12) == Success(host)
    requires AnswerCount(p) == n && NameEnd(p, 12) + 4 == |q| && Rcode(p) == 0
    requires forall k | 0 <= k < n ::
               RecordAt(p, |q| + 16 * k, |q| + 16 * (k + 1)) && AddressRecord(p, |q| + 16 * k, host, address)
    ensures (exists offs, a :: Body(p, q, offs, a) && Conclusive(Rcode(p), a, Some(address)))
            <==> Filled(p, |q| + 16 * n, RecordCount(p) - n)
  {
    hide NameOf, NameEnd, QuestionMatches, RecordAt, AddressRecord;
    if Filled(p, |q| + 16 * n, RecordCount(p) - n) { FilledBody(p, q, n, host, address); }
    if offs, a :| Body(p, q, offs, a) && Conclusive(Rcode(p), a, Some(address)) {
      BodyFills(p, |q|, n, offs);
    }
  }

  lemma BodyFills(p: Bytes, start: nat, n: nat, offs: seq<nat>)
    requires |p| >= 12 && Tiling(p, offs) && n < |offs| && offs[0] == start && offs[|offs| - 1] == |p|
    requires forall k | 0 <= k < n :: RecordAt(p, start + 16 * k, start + 16 * (k + 1))
    ensures Filled(p, start + 16 * n, |offs| - 1 - n)
  {
    hide RecordAt;
    var regular, rest := Regular(start, n), offs[n..];
    forall k | 0 <= k < n ensures RecordAt(p, regular[k], regular[k + 1]) {}
    TilingUnique(p, offs, regular, n);
    forall k | 0 <= k < |rest| - 1 ensures RecordAt(p, rest[k], rest[k + 1]) {
      assert rest[k] == offs[n + k] && rest[k + 1] == offs[(n + k) + 1];
    }
    assert Tiling(p, rest) && rest[|rest| - 1] == |p|;
  }

  lemma TilingsJoin(p: Bytes, a: seq<nat>, b: seq<nat>)
    requires Tiling(p, a) && Tiling(p, b) && a[|a| - 1] == b[0]
    ensures Tiling(p, a + b[1..])
  {
    hide RecordAt;
    var c := a + b[1..];
    forall k | 0 <= k < |c| - 1 ensures RecordAt(p, c[k], c[k + 1]) {
      if k < |a| - 1 {
        assert c[k] == a[k] && c[k + 1] == a[k + 1];
      } else {
        var i := k - (|a| - 1);
        assert c[k] == b[i] && c[k + 1] == b[i + 1];
      }
    }
  }

  lemma RegularAnswers(p: Bytes, offs: seq<nat>, start: nat, n: nat, host: Bytes, address: Bytes)
    requires n < |offs| && forall k | 0 <= k < n :: offs[k] == start + 16 * k && AddressRecord(p, start + 16 * k, host, address)
    ensures Answers(p, offs, n, host, seq(n, k => address))
  {
    hide AddressRecord;
  }

  lemma FilledBody(p: Bytes, q: Bytes, n: nat, host: Bytes, address: Bytes)
    requires |p| >= 12 && n > 0 && Word(p, 4) == 1 && QuestionMatches(p, q) && NameOf(p, 12) == Success(host)
    requires AnswerCount(p) == n && NameEnd(p, 12) + 4 == |q| && Rcode(p) == 0
    requires forall k | 0 <= k < n ::
               RecordAt(p, |q| + 16 * k, |q| + 16 * (k + 1)) && AddressRecord(p, |q| + 16 * k, host, address)
    requires Filled(p, |q| + 16 * n, RecordCount(p) - n)
    ensures exists offs, a :: Body(p, q, offs, a) && Conclusive(Rcode(p), a, Some(address))
  {
    hide NameOf, NameEnd, QuestionMatches, RecordAt, AddressRecord, Tiling, Answers;
    var offs := FilledOffsets(p, |q|, n, RecordCount(p) - n);
    var addresses := seq(n, k => address);
    RegularAnswers(p, offs, |q|, n, host, address);
    assert Body(p, q, offs, addresses);
    assert addresses[0] == address;
    assert Conclusive(Rcode(p), addresses, Some(address));
  }

  lemma FilledOffsets(p: Bytes, start: nat, n: nat, m: nat) returns (offs: seq<nat>)
    requires Filled(p, start + 16 * n, m)
    requires forall k | 0 <= k < n :: RecordAt(p, start + 16 * k, start + 16 * (k + 1))
    ensures |offs| == n + m + 1 && Tiling(p, offs) && offs[n + m] == |p|
    ensures offs[0] == start && forall k | 0 <= k < n :: offs[k] == start + 16 * k
  {
    hide RecordAt;
    var rest :| |rest| == m + 1 && rest[0] == start + 16 * n && Tiling(p, rest) && rest[m] == |p|;
    var regular := Regular(start, n);
    forall k | 0 <= k < n ensures RecordAt(p, regular[k], regular[k + 1]) {}
    offs := regular + rest[1..];
    TilingsJoin(p, regular, rest);
  }

  lemma RecordNeedsOwner(p: Bytes, off: nat, next: nat)
    requires RecordAt(p, off, next)
    ensures NameOf(p, off).Success?
  {
  }

  // ----- Examples -----

  function Records(ttls: seq<Bytes>, address: Bytes): (r: Bytes)
    requires |address| == 4 && forall t | t in ttls :: |t| == 4
    ensures |r| == 16 * |ttls|
  {
    if ttls == [] then [] else Records(ttls[..|ttls| - 1], address) + CompressedRecord(ttls[|ttls| - 1], address)
  }

  lemma {:induction false} RecordsAt(ttls: seq<Bytes>, address: Bytes, k: nat)
    requires |address| == 4 && (forall t | t in ttls :: |t| == 4) && k < |ttls|
    ensures Records(ttls, address)[16 * k..16 * k + 16] == CompressedRecord(ttls[k], address)
  {
    hide CompressedRecord;
    var front, last := Records(ttls[..|ttls| - 1], address), CompressedRecord(ttls[|ttls| - 1], address);
    if k == |ttls| - 1 {
      assert (front + last)[16 * k..16 * k + 16] == last;
    } else {
      RecordsAt(ttls[..|ttls| - 1], address, k);
      assert (front + last)[16 * k..16 * k + 16] == front[16 * k..16 * k + 16];
    }
  }

  /** The response of a resolver that answers with addresses only. */
  function Response(q: Bytes, ttls: seq<Bytes>, address: Bytes): Bytes
    requires |q| >= 12 && |ttls| < 65536 && |address| == 4 && forall t | t in ttls :: |t| == 4
  {
    q[..2] + [0x81, 0x80, 0, 1] + U16(|ttls|) + [0, 0, 0, 0] + q[12..] + Records(ttls, address)
  }

  lemma ResponseIsCompressed(q: Bytes, ttls: seq<Bytes>, address: Bytes)
    requires |q| >= 12 && |ttls| < 65536 && |address| == 4 && forall t | t in ttls :: |t| == 4
    requires |q| + 16 * |ttls| <= 4096
    ensures var p := Response(q, ttls, address);
            Compressed(p, q, ttls, address) && RecordCount(p) == |ttls| && |p| == |q| + 16 * |ttls|
  {
    hide CompressedRecord, Records;
    var records := Records(ttls, address);
    var p, head := Response(q, ttls, address), q[..2] + [0x81, 0x80, 0, 1] + U16(|ttls|) + [0, 0, 0, 0] + q[12..];
    assert p == head + records && |head| == |q|;
    assert head[12..] == q[12..] && head[..2] == q[..2];
    forall k | 0 <= k < |ttls| ensures p[|q| + 16 * k..|q| + 16 * k + 16] == CompressedRecord(ttls[k], address) {
      RecordsAt(ttls, address, k);
      assert p[|q| + 16 * k..|q| + 16 * k + 16] == records[16 * k..16 * k + 16];
    }
  }

  /** `n` labels of one character. */
  function Ladder(n: nat): Bytes {
    if n <= 1 then [97] else [97, DOT] + Ladder(n - 1)
  }

  lemma {:induction false} LadderSplits(n: nat)
    requires n > 0
    ensures |Split(Ladder(n))| == n && forall l | l in Split(Ladder(n)) :: l == [97]
    ensures EncodeLabels(Split(Ladder(n))).Success? && |EncodeLabels(Split(Ladder(n))).value| == 2 * n + 1
  {
    if n == 1 {
      var host, none: Bytes := [97], [];
      assert host[1..] == none && Split(none) == [none];
      assert [host[0]] + none == host && [host] + [none][1..] == [host];
      assert Split(host) == [host];
    } else {
      LadderSplits(n - 1);
      var rest := Ladder(n - 1);
      assert ([97, DOT] + rest)[1..] == [DOT] + rest && ([DOT] + rest)[1..] == rest;
      var t := Split([DOT] + rest);
      assert t == [[]] + Split(rest) && t[1..] == Split(rest);
      assert [97] + t[0] == [97];
      assert Split(Ladder(n)) == [[97]] + Split(rest);
      assert ([[97]] + Split(rest))[1..] == Split(rest);
    }
  }

  /** The longest name that a query can carry is refused in every compressed response, however well
      formed the response is. */
  lemma LongestNameRefused(identifier: nat, ttls: seq<Bytes>, address: Bytes)
    requires identifier < 65536 && |address| == 4 && (forall t | t in ttls :: |t| == 4) && |ttls| <= 200
    ensures DnsQuery(Ladder(127), identifier).Success?
    ensures var q := DnsQuery(Ladder(127), identifier).value;
            |q| == 12 + 255 + 4 && !Accepted(Response(q, ttls, address), q, Some(address))
  {
    hide Split, EncodeLabels, Accepted, Compressed, Response;
    LadderSplits(127);
    forall l | l in Split(Ladder(127)) ensures Plain(l) {}
    var q := DnsQuery(Ladder(127), identifier).value;
    ResponseIsCompressed(q, ttls, address);
    CompressedResponseAccepted(Response(q, ttls, address), q, Ladder(127), identifier, ttls, address);
  }
}
