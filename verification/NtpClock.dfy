/** NTP timestamps and the offset check (scripts/portable_network_probe.py, timestamp, ntp_query,
    ntp_time and ntp_answer; sections 6 and 8 of RFC 5905). Clock readings are real numbers. */
module NtpClock {
  import opened Wrappers
  import opened DnsNames

  const NTP_EPOCH: int := 2208988800
  const ERA: int := 0x1_0000_0000
  const TIMEOUT: real := 2.0

  function Abs(x: real): real { if x < 0.0 then -x else x }

  function Pow32(): real { ERA as real }

  /** Python's int(): towards zero. */
  function Truncate(x: real): int { if x >= 0.0 then x.Floor else -((-x).Floor) }

  /** Python's round(): to the nearest integer, ties to the even one. */
  function Round(x: real): int {
    var low, rest := x.Floor, x - x.Floor as real;
    if rest < 0.5 || (rest == 0.5 && low % 2 == 0) then low else low + 1
  }

  function U32(n: nat): (b: Bytes)
    requires n < ERA
    ensures |b| == 4
  {
    [n / 0x100_0000, n / 0x1_0000 % 256, n / 256 % 256, n % 256]
  }

  function Long(b: Bytes): (n: nat)
    requires |b| == 4
    ensures n < ERA
  {
    b[0] as int * 0x100_0000 + b[1] as int * 0x1_0000 + b[2] as int * 256 + b[3]
  }

  lemma LongU32(n: nat)
    requires n < ERA
    ensures Long(U32(n)) == n
  {
    assert n / 0x1_0000 == n / 256 / 256 && n / 0x100_0000 == n / 256 / 256 / 256;
  }

  function Timestamp(unixTime: real): (b: Bytes)
    ensures |b| == 8
  {
    var value := unixTime + NTP_EPOCH as real;
    var fraction := (value - value.Floor as real) * Pow32();
    U32(Truncate(value) % ERA) + U32(Truncate(fraction))
  }

  /** The wire value read in the era in which it is smallest. */
  function Wire(raw: Bytes): real
    requires |raw| == 8
  {
    Long(raw[..4]) as real + Long(raw[4..]) as real / Pow32() - NTP_EPOCH as real
  }

  /** `w` shifted by `m` whole eras. */
  function Shifted(w: real, m: int): real {
    w + m as real * Pow32()
  }

  function NtpTime(raw: Bytes, near: real): real
    requires |raw| == 8
  {
    Shifted(Wire(raw), Round((near - Wire(raw)) / Pow32()))
  }

  lemma RoundNearest(x: real, k: int)
    ensures Abs(Round(x) as real - x) <= 0.5
    ensures Abs(Round(x) as real - x) <= Abs(k as real - x)
    ensures Abs(k as real - x) < 0.5 ==> Round(x) == k
  {
    var low := x.Floor;
    assert low as real <= x < low as real + 1.0;
    if k < low {
      assert k as real <= low as real - 1.0;
    } else if k > low {
      assert k as real >= low as real + 1.0;
    }
  }

  lemma ScaledDistance(w: real, near: real, m: int)
    ensures Abs(Shifted(w, m) - near) == Abs(m as real - (near - w) / Pow32()) * Pow32()
  {
    var x := (near - w) / Pow32();
    assert x * Pow32() == near - w;
    assert (m as real - x) * Pow32() == Shifted(w, m) - near;
  }

  /** The decoded time is the wire value shifted by whole eras, no other shift lies nearer to the
      reference, and one that lies within less than half an era is the decoded time. */
  lemma NtpTimeNearest(raw: Bytes, near: real, k: int)
    requires |raw| == 8
    ensures exists m: int :: NtpTime(raw, near) == Shifted(Wire(raw), m)
    ensures Abs(NtpTime(raw, near) - near) <= Pow32() / 2.0
    ensures Abs(NtpTime(raw, near) - near) <= Abs(Shifted(Wire(raw), k) - near)
    ensures Abs(Shifted(Wire(raw), k) - near) < Pow32() / 2.0 ==> NtpTime(raw, near) == Shifted(Wire(raw), k)
  {
    var w := Wire(raw);
    hide Wire, Round, Shifted, Abs;
    var x := (near - w) / Pow32();
    RoundNearest(x, k);
    ScaledDistance(w, near, Round(x));
    ScaledDistance(w, near, k);
    Scale(Abs(Round(x) as real - x), Abs(k as real - x));
    Scale(Abs(k as real - x), 0.5);
    Scale(Abs(Round(x) as real - x), 0.5);
  }

  lemma Scale(a: real, b: real)
    ensures a <= b <==> a * Pow32() <= b * Pow32()
    ensures 0.5 * Pow32() == Pow32() / 2.0
  {
  }

  /** The instants whose truncated and whole seconds agree: from 1900 on, or at a whole second. */
  predicate Representable(t: real) {
    t + NTP_EPOCH as real >= 0.0 || (t + NTP_EPOCH as real).Floor as real == t + NTP_EPOCH as real
  }

  const TICK: real := 1.0 / Pow32()

  /** The wire value of a timestamp, by whole seconds and ticks. */
  lemma WireOfTimestamp(t: real) returns (seconds: int, ticks: nat)
    ensures var value := t + NTP_EPOCH as real;
            var rest := value - value.Floor as real;
            && seconds == Truncate(value) && ticks < ERA
            && rest - TICK < ticks as real / Pow32() <= rest
            && Wire(Timestamp(t)) == (seconds % ERA) as real + ticks as real / Pow32() - NTP_EPOCH as real
  {
    var value := t + NTP_EPOCH as real;
    var rest := value - value.Floor as real;
    seconds := Truncate(value);
    FractionTicks(rest);
    ticks := Truncate(rest * Pow32());
    LongU32(seconds % ERA);
    LongU32(ticks);
    hide U32, Long, Truncate;
    var raw := Timestamp(t);
    assert raw[..4] == U32(seconds % ERA) && raw[4..] == U32(ticks);
  }

  lemma FractionTicks(rest: real)
    requires 0.0 <= rest < 1.0
    ensures 0 <= Truncate(rest * Pow32()) < ERA
    ensures rest - TICK < Truncate(rest * Pow32()) as real / Pow32() <= rest
  {
    var scaled := rest * Pow32();
    assert 0.0 <= scaled < Pow32();
    assert Truncate(scaled) as real <= scaled < Truncate(scaled) as real + 1.0;
  }

  /** What a timestamp keeps of the instant `t`: `t` rounded down to a tick, shifted by whole eras;
      an instant before 1900 that is not a whole second comes out one second late. */
  lemma TimestampKeeps(t: real) returns (k: int)
    ensures var late := if Representable(t) then 0.0 else 1.0;
            t - TICK < Shifted(Wire(Timestamp(t)), k) - late <= t
  {
    var value := t + NTP_EPOCH as real;
    var seconds, ticks := WireOfTimestamp(t);
    k := seconds / ERA;
    TruncateWhole(t);
    hide Timestamp, Wire, Truncate, Representable;
    assert seconds == k * ERA + seconds % ERA;
    SplitSeconds(seconds, k, seconds % ERA);
  }

  lemma SplitSeconds(seconds: int, k: int, rest: int)
    requires seconds == k * ERA + rest
    ensures rest as real + k as real * Pow32() == seconds as real
  {
  }

  lemma TruncateWhole(t: real)
    ensures var value := t + NTP_EPOCH as real;
            Truncate(value) as real == value.Floor as real + (if Representable(t) then 0.0 else 1.0)
  {
    var value := t + NTP_EPOCH as real;
    if value < 0.0 {
      TruncateNegative(value, value.Floor, (-value).Floor);
    }
  }

  lemma TruncateNegative(x: real, f: int, g: int)
    requires f as real <= x < f as real + 1.0 && g as real <= -x < g as real + 1.0
    ensures -g == if f as real == x then f else f + 1
  {
    var h := -g;
    assert h as real - 1.0 < x <= h as real;
    assert f <= h <= f + 1;
  }

  /** Decoding a timestamp near its instant gives the instant back to within a tick of 2^-32 seconds
      exactly when the instant is representable. */
  lemma TimestampRoundTrip(t: real, near: real)
    requires Abs(t - near) <= 0x7fff_ffff as real
    ensures Abs(NtpTime(Timestamp(t), near) - t) < TICK <==> Representable(t)
  {
    var k := TimestampKeeps(t);
    var raw := Timestamp(t);
    NtpTimeNearest(raw, near, k);
    hide Timestamp, Wire, NtpTime, Representable;
    if !Representable(t) {
      var m: int :| NtpTime(raw, near) == Shifted(Wire(raw), m);
      ErasApart(Wire(raw), m, k);
    }
  }

  /** Half a second before 1900 decodes to half a second after it. */
  lemma Before1900IsLate()
    ensures var t := -(NTP_EPOCH as real) - 0.5;
            !Representable(t) && NtpTime(Timestamp(t), t) == t + 1.0
  {
    var t := -(NTP_EPOCH as real) - 0.5;
    var seconds, ticks := WireOfTimestamp(t);
    var value := t + NTP_EPOCH as real;
    assert value == -0.5 && value.Floor == -1 && (-value).Floor == 0;
    assert seconds == 0;
    HalfTicks(ticks);
    hide Timestamp, NtpTime, Truncate;
    assert Shifted(Wire(Timestamp(t)), 0) == t + 1.0;
    NtpTimeNearest(Timestamp(t), t, 0);
  }

  lemma HalfTicks(ticks: nat)
    requires 0.5 - TICK < ticks as real / Pow32() <= 0.5
    ensures ticks as real / Pow32() == 0.5
  {
    assert ticks as real / Pow32() * Pow32() == ticks as real;
    Scale(ticks as real / Pow32(), 0.5);
    Scale(0.5 - TICK, ticks as real / Pow32());
    assert (ERA / 2 - 1) as real <= ticks as real <= (ERA / 2) as real;
    assert ticks == ERA / 2 || ticks == ERA / 2 - 1;
  }

  lemma ErasApart(w: real, m: int, k: int)
    ensures m != k ==> Abs(Shifted(w, m) - Shifted(w, k)) >= Pow32()
  {
    assert Shifted(w, m) - Shifted(w, k) == (m - k) as real * Pow32();
    if m > k { assert (m - k) as real >= 1.0; } else if m < k { assert (m - k) as real <= -1.0; }
  }

  // ----- The answer check -----

  function NtpQuery(now: real): (q: Bytes)
    ensures |q| == 48 && q[40..48] == Timestamp(now)
  {
    var header: Bytes := [0x23] + seq(39, _ => 0);
    assert (header + Timestamp(now))[40..48] == Timestamp(now);
    header + Timestamp(now)
  }

  function Offset(t2: real, t3: real, sent: real, received: real): real {
    ((t2 - sent) + (t3 - received)) / 2.0
  }

  function NtpAnswer(packet: Bytes, request: Bytes, sent: real, received: real): Result<(Byte, real)>
    requires |request| == 48
  {
    if !(|packet| == 48 && packet[0] % 8 == 4 && packet[0] / 8 % 8 in {3, 4} && packet[0] / 64 != 3 && 1 <= packet[1] <= 15)
    then Failure
    else if packet[24..32] != request[40..48] || packet[32..40] == seq(8, _ => 0) || packet[40..48] == seq(8, _ => 0)
    then Failure
    else
      var t2, t3 := NtpTime(packet[32..40], sent), NtpTime(packet[40..48], sent);
      var offset := Offset(t2, t3, sent, received);
      if !(0.0 <= received - sent <= TIMEOUT + 0.5 && t3 >= t2) || Abs(offset) > 5.0 then Failure
      else Success((packet[1], offset))
  }

  /** A server whose clock is ahead of the client's by `skew` receives the query `out` seconds after
      it was sent, answers at its own later time, and the answer travels for `back` seconds. */
  ghost predicate Exchange(packet: Bytes, sent: real, received: real, skew: real, out: real, held: real, back: real) {
    && |packet| == 48 && out >= 0.0 && held >= 0.0 && back >= 0.0
    && received == sent + out + held + back
    && packet[32..40] == Timestamp(sent + out + skew)
    && packet[40..48] == Timestamp(sent + out + held + skew)
    && Representable(sent + out + skew) && Representable(sent + out + held + skew)
    && Abs(out + skew) <= 0x7fff_ffff as real && Abs(out + held + skew) <= 0x7fff_ffff as real
  }

  /** The measured offset misses the true skew by at most half the travel time, and a tick. */
  lemma OffsetAccuracy(packet: Bytes, sent: real, received: real, skew: real, out: real, held: real, back: real)
    requires Exchange(packet, sent, received, skew, out, held, back)
    ensures var t2, t3 := NtpTime(packet[32..40], sent), NtpTime(packet[40..48], sent);
            skew + (out - back) / 2.0 - TICK < Offset(t2, t3, sent, received) < skew + (out - back) / 2.0 + TICK
  {
    hide NtpTime, Timestamp, Representable;
    TimestampRoundTrip(sent + out + skew, sent);
    TimestampRoundTrip(sent + out + held + skew, sent);
  }

  /** An accepted answer echoes the query and bounds the true difference of the clocks, whatever the two
      travel times. */
  lemma AcceptedBoundsSkew(packet: Bytes, sent: real, received: real, skew: real, out: real, held: real, back: real)
    requires Exchange(packet, sent, received, skew, out, held, back)
    requires NtpAnswer(packet, NtpQuery(sent), sent, received).Success?
    ensures Abs(skew) < 5.0 + 2.5 / 2.0 + TICK
    ensures 1 <= NtpAnswer(packet, NtpQuery(sent), sent, received).value.0 <= 15
    ensures packet[24..32] == Timestamp(sent)
  {
    hide NtpTime, Timestamp, Representable;
    OffsetAccuracy(packet, sent, received, skew, out, held, back);
  }

  // ----- Honest answers -----

  /** `t` rounded down to a multiple of a tick. */
  function FloorTick(t: real): real {
    (t * Pow32()).Floor as real / Pow32()
  }

  lemma FloorTickMonotone(t: real, u: real)
    requires t <= u
    ensures FloorTick(t) <= FloorTick(u)
  {
    Scale(t, u);
    FloorsOrdered(t * Pow32(), u * Pow32());
    Scale((t * Pow32()).Floor as real / Pow32(), (u * Pow32()).Floor as real / Pow32());
    hide Pow32;
    Unscale((t * Pow32()).Floor as real);
    Unscale((u * Pow32()).Floor as real);
  }

  lemma Unscale(a: real)
    ensures a / Pow32() * Pow32() == a
  {
  }

  lemma FloorsOrdered(x: real, y: real)
    requires x <= y
    ensures x.Floor as real <= y.Floor as real
  {
    assert x.Floor <= y.Floor;
  }

  /** A multiple of a tick that is less than a tick below `t` is `t` rounded down. */
  lemma FloorTickIs(t: real, n: int)
    requires t - TICK < n as real / Pow32() <= t
    ensures n as real / Pow32() == FloorTick(t)
  {
    var x := t * Pow32();
    assert n as real <= x < n as real + 1.0;
    assert x.Floor == n;
  }

  /** A decoded timestamp is exactly the representable instant rounded down to a tick. */
  lemma DecodedExactly(t: real, near: real)
    requires Abs(t - near) <= 0x7fff_ffff as real && Representable(t)
    ensures NtpTime(Timestamp(t), near) == FloorTick(t)
  {
    var k := TimestampKeeps(t);
    var seconds, ticks := WireOfTimestamp(t);
    var raw := Timestamp(t);
    NtpTimeNearest(raw, near, k);
    hide Timestamp, Wire, NtpTime, Representable, Truncate, FloorTick;
    var n := (seconds % ERA - NTP_EPOCH + k * ERA) * ERA + ticks;
    WholeTicks(seconds % ERA - NTP_EPOCH + k * ERA, ticks);
    assert Shifted(Wire(raw), k) == n as real / Pow32() by {
      SplitSeconds(seconds % ERA + k * ERA, k, seconds % ERA);
    }
    FloorTickIs(t, n);
  }

  lemma WholeTicks(seconds: int, ticks: nat)
    ensures seconds as real + ticks as real / Pow32() == (seconds * ERA + ticks) as real / Pow32()
  {
    assert (seconds * ERA + ticks) as real == seconds as real * Pow32() + ticks as real;
  }

  /** An honest server's answer in time is accepted whenever the clocks differ by less than five
      seconds, up to the asymmetry of the path and a tick. */
  lemma HonestAnswerAccepted(packet: Bytes, sent: real, received: real, skew: real, out: real, held: real, back: real)
    requires Exchange(packet, sent, received, skew, out, held, back)
    requires packet[0] % 8 == 4 && packet[0] / 8 % 8 in {3, 4} && packet[0] / 64 != 3 && 1 <= packet[1] <= 15
    requires packet[24..32] == Timestamp(sent)
    requires packet[32..40] != seq(8, _ => 0) && packet[40..48] != seq(8, _ => 0)
    requires out + held + back <= TIMEOUT + 0.5 && Abs(skew) + Abs(out - back) / 2.0 + TICK <= 5.0
    ensures NtpAnswer(packet, NtpQuery(sent), sent, received).Success?
    ensures var (stratum, offset) := NtpAnswer(packet, NtpQuery(sent), sent, received).value;
            stratum == packet[1] && Abs(offset - skew) < Abs(out - back) / 2.0 + TICK
  {
    hide NtpTime, Timestamp, Representable, FloorTick;
    OffsetAccuracy(packet, sent, received, skew, out, held, back);
    DecodedExactly(sent + out + skew, sent);
    DecodedExactly(sent + out + held + skew, sent);
    FloorTickMonotone(sent + out + skew, sent + out + held + skew);
  }
}
