/** DNS names on the wire (scripts/portable_network_probe.py, dns_query and dns_name; sections 3.1
    and 4.1.4 of RFC 1035). */
module DnsNames {
  import opened Wrappers

  type Byte = n: nat | n < 256
  type Bytes = seq<Byte>

  const DOT: Byte := 46
  const MAX_VISITS: nat := 128

  function Lower(b: Byte): Byte { if 65 <= b <= 90 then b + 32 else b }

  function LowerAll(s: Bytes): (r: Bytes)
    ensures |r| == |s| && forall i | 0 <= i < |s| :: r[i] == Lower(s[i])
  {
    if s == [] then [] else [Lower(s[0])] + LowerAll(s[1..])
  }

  predicate Ascii(s: Bytes) { forall b | b in s :: b < 128 }

  /** Labels separated by dots, and back. */
  function Join(labels: seq<Bytes>): Bytes {
    if labels == [] then [] else if |labels| == 1 then labels[0] else labels[0] + [DOT] + Join(labels[1..])
  }

  function Split(host: Bytes): (labels: seq<Bytes>)
    ensures labels != []
  {
    if host == [] then [[]]
    else
      var rest := Split(host[1..]);
      if host[0] == DOT then [[]] + rest else [[host[0]] + rest[0]] + rest[1..]
  }

  lemma {:induction false} JoinSplit(host: Bytes)
    ensures Join(Split(host)) == host
  {
    if host != [] {
      JoinSplit(host[1..]);
      var rest := Split(host[1..]);
      if host[0] == DOT {
        assert ([[]] + rest)[1..] == rest;
        assert Join([[]] + rest) == [] + [DOT] + Join(rest);
      } else {
        assert Join([[host[0]] + rest[0]] + rest[1..]) == [host[0]] + Join(rest) by {
          if |rest| > 1 { assert ([[host[0]] + rest[0]] + rest[1..])[1..] == rest[1..]; }
        }
      }
    }
  }

  // ----- Meaning of a name -----

  function PointerTarget(high: Byte, low: Byte): nat
    requires high >= 192
  {
    (high - 192) * 256 + low
  }

  /** The name starting at `pos` is `labels`; reading it visits exactly `n` label or pointer positions. */
  ghost predicate Denotes(p: Bytes, pos: nat, labels: seq<Bytes>, n: nat)
    decreases n
  {
    && n > 0 && pos < |p|
    && var size := p[pos];
       if size >= 192 then
         pos + 1 < |p| && Denotes(p, PointerTarget(size, p[pos + 1]), labels, n - 1)
       else if size == 0 then
         labels == [] && n == 1
       else
         && size <= 63 && pos + 1 + size <= |p| && Ascii(p[pos + 1..pos + 1 + size])
         && labels != [] && labels[0] == LowerAll(p[pos + 1..pos + 1 + size])
         && Denotes(p, pos + 1 + size, labels[1..], n - 1)
  }

  lemma {:induction false} DenotesUnique(p: Bytes, pos: nat, l: seq<Bytes>, n: nat, l': seq<Bytes>, n': nat)
    requires Denotes(p, pos, l, n) && Denotes(p, pos, l', n')
    ensures l == l' && n == n'
    decreases n
  {
    var size := p[pos];
    if size >= 192 {
      DenotesUnique(p, PointerTarget(size, p[pos + 1]), l, n - 1, l', n' - 1);
    } else if size != 0 {
      DenotesUnique(p, pos + 1 + size, l[1..], n - 1, l'[1..], n' - 1);
      assert l == [l[0]] + l[1..] && l' == [l'[0]] + l'[1..];
    }
  }

  /** What a decoder may accept: a finite name within the visit limit. */
  ghost predicate Readable(p: Bytes, pos: nat, labels: seq<Bytes>) {
    exists n: nat :: n <= MAX_VISITS && Denotes(p, pos, labels, n)
  }

  ghost function NameOf(p: Bytes, pos: nat): Result<Bytes> {
    if exists labels :: Readable(p, pos, labels)
    then var labels :| Readable(p, pos, labels); Success(Join(labels))
    else Failure
  }

  lemma NameOfReadable(p: Bytes, pos: nat, labels: seq<Bytes>)
    requires Readable(p, pos, labels)
    ensures NameOf(p, pos) == Success(Join(labels))
  {
    var chosen :| Readable(p, pos, chosen) && NameOf(p, pos) == Success(Join(chosen));
    var n: nat :| n <= MAX_VISITS && Denotes(p, pos, labels, n);
    var m: nat :| m <= MAX_VISITS && Denotes(p, pos, chosen, m);
    DenotesUnique(p, pos, labels, n, chosen, m);
  }

  /** Where the encoding of the name that starts at `pos` ends; a pointer ends it. */
  function NameEnd(p: Bytes, pos: nat): nat
    decreases |p| - pos
  {
    if pos >= |p| then pos
    else if p[pos] >= 192 then pos + 2
    else if p[pos] == 0 then pos + 1
    else NameEnd(p, pos + 1 + p[pos])
  }

  // ----- The decoder -----

  /** After `k` visits the decoder stands at `pos` with `labels`: the name at `start` has a meaning
      exactly when the rest of it has one at `pos`. */
  ghost predicate Reached(p: Bytes, start: nat, labels: seq<Bytes>, k: nat, pos: nat) {
    forall l, n: nat :: Denotes(p, start, l, n) <==>
      n > k && |labels| <= |l| && l[..|labels|] == labels && Denotes(p, pos, l[|labels|..], n - k)
  }

  lemma ReachedPointer(p: Bytes, start: nat, labels: seq<Bytes>, k: nat, pos: nat)
    requires Reached(p, start, labels, k, pos) && pos + 1 < |p| && p[pos] >= 192
    ensures Reached(p, start, labels, k + 1, PointerTarget(p[pos], p[pos + 1]))
  {
  }

  lemma ReachedLabel(p: Bytes, start: nat, labels: seq<Bytes>, k: nat, pos: nat)
    requires Reached(p, start, labels, k, pos) && pos < |p| && 0 < p[pos] <= 63 && pos + 1 + p[pos] <= |p|
    requires Ascii(p[pos + 1..pos + 1 + p[pos]])
    ensures Reached(p, start, labels + [LowerAll(p[pos + 1..pos + 1 + p[pos]])], k + 1, pos + 1 + p[pos])
  {
    var word, next := LowerAll(p[pos + 1..pos + 1 + p[pos]]), pos + 1 + p[pos];
    var longer := labels + [word];
    forall l, n: nat
      ensures Denotes(p, start, l, n) <==>
              n > k + 1 && |longer| <= |l| && l[..|longer|] == longer && Denotes(p, next, l[|longer|..], n - k - 1)
    {
      if |longer| <= |l| {
        var rest := l[|labels|..];
        assert rest[1..] == l[|longer|..];
        assert l[..|longer|] == l[..|labels|] + [rest[0]];
        assert l[..|longer|] == longer <==> l[..|labels|] == labels && rest[0] == word;
      }
    }
  }

  ghost predicate Finite(p: Bytes, q: nat, n: nat) {
    exists l :: Denotes(p, q, l, n)
  }

  /** The position `q` was passed after `k` visits. */
  ghost predicate Passed(p: Bytes, start: nat, q: nat, k: nat) {
    forall l, n: nat | Denotes(p, start, l, n) :: n > k && Finite(p, q, n - k)
  }

  lemma ReachedIsPassed(p: Bytes, start: nat, labels: seq<Bytes>, k: nat, pos: nat)
    requires Reached(p, start, labels, k, pos)
    ensures Passed(p, start, pos, k)
  {
    forall l, n: nat | Denotes(p, start, l, n) ensures n > k && Finite(p, pos, n - k) {
      assert Denotes(p, pos, l[|labels|..], n - k);
    }
  }

  /** Coming back to a position means that the name has no finite meaning. */
  lemma NoReturn(p: Bytes, start: nat, q: nat, k: nat, k': nat)
    requires Passed(p, start, q, k) && Passed(p, start, q, k') && k < k'
    ensures forall l, n: nat :: !Denotes(p, start, l, n)
  {
    forall l, n: nat ensures !Denotes(p, start, l, n) {
      if Denotes(p, start, l, n) {
        var m :| Denotes(p, q, m, n - k);
        var m' :| Denotes(p, q, m', n - k');
        DenotesUnique(p, q, m, n - k, m', n - k');
        assert false;
      }
    }
  }

  ghost predicate AllPassed(p: Bytes, start: nat, seen: set<nat>) {
    forall q | q in seen :: exists k: nat | k < |seen| :: Passed(p, start, q, k)
  }

  /** The decoder stops without a result exactly when no readable name starts at `start`. */
  lemma Unreadable(p: Bytes, start: nat)
    requires forall l, n: nat :: Denotes(p, start, l, n) ==> n > MAX_VISITS
    ensures NameOf(p, start).Failure?
  {
  }

  method DnsName(p: Bytes, start: nat) returns (r: Result<(Bytes, nat)>)
    ensures r.Success? <==> NameOf(p, start).Success?
    ensures r.Success? ==> NameOf(p, start) == Success(r.value.0)
    ensures r.Success? ==> r.value.1 == NameEnd(p, start) && start < r.value.1 <= |p|
  {
    hide Denotes, NameOf, Readable, LowerAll, Reached, Passed, AllPassed;
    var labels: seq<Bytes>, seen: set<nat>, end: Option<nat>, position: nat := [], {}, None, start;
    StartReached(p, start);
    while true
      invariant |seen| <= MAX_VISITS
      invariant Reached(p, start, labels, |seen|, position)
      invariant AllPassed(p, start, seen)
      invariant end.Some? ==> end.value == NameEnd(p, start) && start < end.value <= |p|
      invariant end.None? ==> NameEnd(p, position) == NameEnd(p, start) && start <= position
      decreases MAX_VISITS - |seen|
    {
      if position >= |p| || position in seen || |seen| >= MAX_VISITS {
        Stuck(p, start, labels, seen, position);
        return Failure;
      }
      var size := p[position];
      if size >= 192 && position + 1 >= |p| {
        Malformed(p, start, labels, |seen|, position);
        return Failure;
      }
      if 63 < size < 192 || (0 < size <= 63 && !(position + 1 + size <= |p| && Ascii(p[position + 1..position + 1 + size]))) {
        Malformed(p, start, labels, |seen|, position);
        return Failure;
      }
      VisitPassed(p, start, labels, seen, position);
      if size >= 192 {
        ReachedPointer(p, start, labels, |seen|, position);
        seen := seen + {position};
        if end.None? { end := Some(position + 2); }
        position := PointerTarget(size, p[position + 1]);
      } else if size == 0 {
        RootReached(p, start, labels, |seen|, position);
        return Success((Join(labels), if end.Some? then end.value else position + 1));
      } else {
        ReachedLabel(p, start, labels, |seen|, position);
        labels := labels + [LowerAll(p[position + 1..position + 1 + size])];
        seen := seen + {position};
        position := position + 1 + size;
      }
    }
  }

  lemma StartReached(p: Bytes, start: nat)
    ensures Reached(p, start, [], 0, start) && AllPassed(p, start, {})
  {
    forall l: seq<Bytes> ensures l[..0] == [] && l[0..] == l {}
  }

  lemma VisitPassed(p: Bytes, start: nat, labels: seq<Bytes>, seen: set<nat>, pos: nat)
    requires Reached(p, start, labels, |seen|, pos) && AllPassed(p, start, seen) && pos !in seen
    ensures |seen + {pos}| == |seen| + 1 && AllPassed(p, start, seen + {pos})
  {
    hide Reached, Passed;
    ReachedIsPassed(p, start, labels, |seen|, pos);
  }

  lemma Stuck(p: Bytes, start: nat, labels: seq<Bytes>, seen: set<nat>, pos: nat)
    requires Reached(p, start, labels, |seen|, pos) && AllPassed(p, start, seen)
    requires pos >= |p| || pos in seen || |seen| >= MAX_VISITS
    ensures NameOf(p, start).Failure?
  {
    ReachedIsPassed(p, start, labels, |seen|, pos);
    if pos in seen {
      var k: nat :| k < |seen| && Passed(p, start, pos, k);
      NoReturn(p, start, pos, k, |seen|);
    }
    Unreadable(p, start);
  }

  lemma Malformed(p: Bytes, start: nat, labels: seq<Bytes>, k: nat, pos: nat)
    requires Reached(p, start, labels, k, pos) && pos < |p|
    requires || (p[pos] >= 192 && pos + 1 >= |p|)
             || 63 < p[pos] < 192
             || (0 < p[pos] <= 63 && !(pos + 1 + p[pos] <= |p| && Ascii(p[pos + 1..pos + 1 + p[pos]])))
    ensures NameOf(p, start).Failure?
  {
    forall l, n: nat ensures !Denotes(p, pos, l, n) {}
    Unreadable(p, start);
  }

  lemma RootReached(p: Bytes, start: nat, labels: seq<Bytes>, k: nat, pos: nat)
    requires Reached(p, start, labels, k, pos) && pos < |p| && p[pos] == 0 && k < MAX_VISITS
    ensures NameOf(p, start) == Success(Join(labels))
  {
    assert labels[|labels|..] == [] && labels[..|labels|] == labels;
    assert Denotes(p, pos, [], 1);
    assert Denotes(p, start, labels, k + 1);
    NameOfReadable(p, start, labels);
  }

  // ----- The query encoder -----

  function EncodeLabels(labels: seq<Bytes>): Result<Bytes> {
    if labels == [] then Success([0])
    else
      var rest := EncodeLabels(labels[1..]);
      if rest.Failure? || |labels[0]| > 255 || !Ascii(labels[0]) then Failure
      else Success([|labels[0]|] + labels[0] + rest.value)
  }

  function U16(n: nat): Bytes
    requires n < 65536
  {
    [n / 256, n % 256]
  }

  function DnsQuery(host: Bytes, identifier: nat): Result<Bytes>
    requires identifier < 65536
  {
    var name := EncodeLabels(Split(host));
    if name.Failure? then Failure
    else Success(U16(identifier) + [1, 0, 0, 1, 0, 0, 0, 0, 0, 0] + name.value + [0, 1, 0, 1])
  }

  /** A label as registered names have them: 1 to 63 lower-case ASCII characters. */
  predicate Plain(l: Bytes) {
    1 <= |l| <= 63 && forall b | b in l :: b < 128 && Lower(b) == b
  }

  lemma LowerPlain(s: Bytes)
    requires forall b | b in s :: Lower(b) == b
    ensures LowerAll(s) == s
  {
  }

  /** A plain label in front of a name. */
  lemma LabelInFront(p: Bytes, pos: nat, labels: seq<Bytes>, next: nat)
    requires labels != [] && Plain(labels[0]) && next == pos + 1 + |labels[0]| <= |p|
    requires p[pos] == |labels[0]| && p[pos + 1..next] == labels[0] && Denotes(p, next, labels[1..], |labels|)
    ensures Denotes(p, pos, labels, |labels| + 1) && NameEnd(p, pos) == NameEnd(p, next)
  {
    LowerPlain(labels[0]);
  }

  lemma CodeParts(p: Bytes, pos: nat, head: Bytes, rest: Bytes)
    requires |head| <= 63 && pos + 1 + |head| + |rest| <= |p|
    requires p[pos..pos + 1 + |head| + |rest|] == [|head|] + head + rest
    ensures p[pos] == |head| && p[pos + 1..pos + 1 + |head|] == head
    ensures p[pos + 1 + |head|..pos + 1 + |head| + |rest|] == rest
  {
    var code: Bytes := [|head|] + head + rest;
    assert p[pos] == p[pos..pos + |code|][0] == code[0];
    SubSlice(p, pos, code, 1, 1 + |head|);
    SubSlice(p, pos, code, 1 + |head|, |code|);
    assert code[1..1 + |head|] == head && code[1 + |head|..] == rest;
  }

  lemma EncodeHead(labels: seq<Bytes>)
    requires labels != [] && EncodeLabels(labels).Success?
    ensures |labels[0]| <= 255 && EncodeLabels(labels[1..]).Success?
    ensures EncodeLabels(labels).value == [|labels[0]|] + labels[0] + EncodeLabels(labels[1..]).value
  {
  }

  lemma RootDenotes(p: Bytes, pos: nat)
    requires pos < |p| && p[pos] == 0
    ensures Denotes(p, pos, [], 1) && NameEnd(p, pos) == pos + 1
  {
  }

  /** An encoded name means its labels wherever it stands in a packet. */
  lemma {:induction false} EncodedDenotes(p: Bytes, pos: nat, labels: seq<Bytes>)
    requires forall l | l in labels :: Plain(l)
    requires EncodeLabels(labels).Success? && pos + |EncodeLabels(labels).value| <= |p|
    requires p[pos..pos + |EncodeLabels(labels).value|] == EncodeLabels(labels).value
    ensures Denotes(p, pos, labels, |labels| + 1)
    ensures NameEnd(p, pos) == pos + |EncodeLabels(labels).value|
    decreases labels
  {
    hide Denotes, NameEnd, Ascii;
    if labels == [] {
      assert p[pos] == p[pos..pos + 1][0];
      RootDenotes(p, pos);
    } else {
      EncodeHead(labels);
      EncodedTail(p, pos, labels, EncodeLabels(labels[1..]).value);
    }
  }

  lemma EncodedTail(p: Bytes, pos: nat, labels: seq<Bytes>, rest: Bytes)
    requires labels != [] && forall l | l in labels :: Plain(l)
    requires EncodeLabels(labels[1..]) == Success(rest) && pos + 1 + |labels[0]| + |rest| <= |p|
    requires |labels[0]| < 256 && p[pos..pos + 1 + |labels[0]| + |rest|] == [|labels[0]|] + labels[0] + rest
    ensures Denotes(p, pos, labels, |labels| + 1)
    ensures NameEnd(p, pos) == pos + 1 + |labels[0]| + |rest|
    decreases labels, 0
  {
    hide Denotes, NameEnd, Ascii, EncodeLabels;
    assert Plain(labels[0]) && forall l | l in labels[1..] :: l in labels;
    CodeParts(p, pos, labels[0], rest);
    EncodedDenotes(p, pos + 1 + |labels[0]|, labels[1..]);
    LabelInFront(p, pos, labels, pos + 1 + |labels[0]|);
  }

  lemma SubSlice(p: Bytes, pos: nat, code: Bytes, i: nat, j: nat)
    requires pos + |code| <= |p| && p[pos..pos + |code|] == code && i <= j <= |code|
    ensures p[pos + i..pos + j] == code[i..j]
  {
    forall k | 0 <= k < j - i ensures p[pos + i..pos + j][k] == code[i..j][k] {
      assert p[pos..pos + |code|][i + k] == p[pos + i + k];
    }
  }

  lemma {:induction false} PlainEncodes(labels: seq<Bytes>)
    requires forall l | l in labels :: Plain(l)
    ensures EncodeLabels(labels).Success?
  {
    if labels != [] {
      assert Plain(labels[0]);
      assert forall l | l in labels[1..] :: l in labels;
      PlainEncodes(labels[1..]);
    }
  }

  /** Decoding the question of a query yields the host that was asked for, and ends where the
      question type begins, for every name of at most 127 plain labels. */
  lemma QueryRoundTrip(host: Bytes, identifier: nat)
    requires identifier < 65536 && |Split(host)| <= 127 && forall l | l in Split(host) :: Plain(l)
    ensures DnsQuery(host, identifier).Success?
    ensures var q := DnsQuery(host, identifier).value;
            && NameOf(q, 12) == Success(host)
            && NameEnd(q, 12) == |q| - 4
            && Denotes(q, 12, Split(host), |Split(host)| + 1)
  {
    var labels := Split(host);
    PlainEncodes(labels);
    var q, code := DnsQuery(host, identifier).value, EncodeLabels(labels).value;
    assert q[12..12 + |code|] == code;
    EncodedDenotes(q, 12, labels);
    assert Readable(q, 12, labels);
    NameOfReadable(q, 12, labels);
    JoinSplit(host);
  }
}
