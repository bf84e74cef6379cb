/** The time to live of publications: how it is computed for every hop, and when it can grow. */
module Ttl {
  import opened Options

  const TWO_TO_64: int := 0x1_0000_0000_0000_0000

  /** Times in milliseconds, far from the end of the range of 64 bits. */
  type Time = t: nat | t < 0x7000_0000_0000_0000

  /** The 16 lowest bits of a number, as a signed number. */
  function ToInt16(n: nat): (r: int)
    ensures -0x8000 <= r < 0x8000
  {
    var low := n % 0x1_0000;
    if low < 0x8000 then low else low - 0x1_0000
  }

  /** The remaining time to live in seconds, computed with numbers of 64 bits. */
  function ReqTtl(expires: Time, now: Time): int {
    ToInt16((expires + 999 - now) % TWO_TO_64 / 1000)
  }

  /** How many seconds a publication is sent too late, when it is sent after the end of its last second. */
  function Late(expires: Time, now: Time): nat
    requires now > expires + 999
  {
    (now - expires - 616) / 1000
  }

  /** In time, the computation is right: the time that is left, rounded up. */
  lemma InTime(expires: Time, now: Time)
    requires expires <= now + 32767000 && now <= expires + 999
    ensures 0 <= ReqTtl(expires, now)
    ensures 1000 * ReqTtl(expires, now) - 999 <= expires - now <= 1000 * ReqTtl(expires, now)
  {
  }

  /** Too late, the difference wraps around. */
  lemma TooLate(expires: Time, now: Time)
    requires now > expires + 999
    ensures ReqTtl(expires, now) == ToInt16((42991 - Late(expires, now)) % 0x1_0000)
  {
    var k: int, d: int := Late(expires, now), now - expires - 999;
    var q: int := (TWO_TO_64 - d) / 1000;
    assert (expires + 999 - now) % TWO_TO_64 == TWO_TO_64 - d;
    assert q == 18446744073709551 - k;
    assert q == 281474976710 * 0x1_0000 + 42991 - k;
  }

  /** A publication is sent so late that the wrapped difference comes to more than its time to live. This is first so
      almost three hours after its expiration, lasts for up to nine hours, and comes back every 18 hours. */
  predicate Wraps(ttl: nat, expires: Time, now: Time) {
    now > expires + 999 && 10224 <= Late(expires, now) % 0x1_0000 < 42991 - ttl
  }

  lemma Window(late: nat, ttl: nat)
    requires ttl < 0x8000
    ensures ToInt16((42991 - late) % 0x1_0000) > ttl <==> 10224 <= late % 0x1_0000 < 42991 - ttl
  {
    var r := late % 0x1_0000;
    assert (42991 - late) % 0x1_0000 == if r <= 42991 then 42991 - r else 42991 - r + 0x1_0000;
  }

  /** The computed time to live exceeds the one that was received exactly when the publication is that late. */
  lemma InflatesExactlyWhen(ttl: nat, arrival: Time, now: Time)
    requires 0 < ttl < 0x8000 && arrival <= now && arrival + 1000 * ttl < 0x7000_0000_0000_0000
    ensures var expires := arrival + 1000 * ttl;
      ReqTtl(expires, now) > ttl <==> Wraps(ttl, expires, now)
  {
    var expires: Time := arrival + 1000 * ttl;
    if now <= expires + 999 {
      InTime(expires, now);
    } else {
      TooLate(expires, now);
      hide ReqTtl, ToInt16, Late;
      Window(Late(expires, now), ttl);
    }
  }

  const SAFE_LATENESS: nat := 10224616

  /** For almost three hours after its expiration, a publication is not sent at all. */
  lemma IgnoredWhenLate(expires: Time, now: Time)
    requires expires + 999 < now < expires + SAFE_LATENESS
    ensures ReqTtl(expires, now) < 0
  {
    TooLate(expires, now);
  }

  /** After that, it is sent with the longest time to live that there is. */
  lemma InflatedWhenVeryLate(expires: Time)
    requires expires + SAFE_LATENESS < 0x7000_0000_0000_0000
    ensures ReqTtl(expires, expires + SAFE_LATENESS) == 0x7fff
  {
    TooLate(expires, expires + SAFE_LATENESS);
  }

  // ---- chains of forwarders ----

  /** The receiver compares the time to live of a message with the one that the publisher has set. */
  predicate Accepts(base: int, ttl: int) {
    !((base < 0 && ttl >= 0) || ttl > base)
  }

  /** When a node received a publication and when it sends it on; a retained publication may have been expired meanwhile. */
  datatype Hop = Hop(arrival: Time, sent: Time, expired: bool)

  /** The time to live that a node sends, unless it silently ignores the publication. */
  function Forwarded(ttl: int, h: Hop): Option<int> {
    if ttl == 0 then Some(0)
    else if ttl < 0 || h.expired then Some(-1)
    else if h.arrival + 1000 * ttl >= 0x7000_0000_0000_0000 then None
    else
      var left := ReqTtl(h.arrival + 1000 * ttl, h.sent);
      if left <= 0 then None else Some(left)
  }

  /** The time to live in the message that the `n`th node sends; the publisher is the first one. */
  function Sent(base: int, hops: seq<Hop>, n: nat): Option<int>
    requires n <= |hops|
  {
    if n == 0 then Some(base) else
      match Sent(base, hops, n - 1)
      case None => None
      case Some(ttl) => Forwarded(ttl, hops[n - 1])
  }

  /** Clocks do not run backwards, and no node sends a publication at a time when its time to live wraps around. */
  ghost predicate Timely(base: int, hops: seq<Hop>) {
    forall i | 0 <= i < |hops| :: Sent(base, hops, i).Some? ==> TimelyHop(Sent(base, hops, i).value, hops[i])
  }

  predicate TimelyHop(ttl: int, h: Hop) {
    h.arrival <= h.sent && !WrapsAt(ttl, h)
  }

  predicate WrapsAt(ttl: int, h: Hop) {
    0 < ttl && !h.expired && h.arrival + 1000 * ttl < 0x7000_0000_0000_0000
    && Wraps(ttl, h.arrival + 1000 * ttl, h.sent)
  }

  /** A forwarder sends more than it received exactly when the time to live wraps around. */
  lemma ForwardedGrowsExactlyWhen(ttl: int, h: Hop)
    requires ttl < 0x8000 && h.arrival <= h.sent && Forwarded(ttl, h).Some?
    ensures Forwarded(ttl, h).value > (if ttl < 0 then -1 else ttl) <==> WrapsAt(ttl, h)
    ensures Forwarded(ttl, h).value < 0x8000
  {
    if ttl > 0 && !h.expired && h.arrival + 1000 * ttl < 0x7000_0000_0000_0000 {
      InflatesExactlyWhen(ttl, h.arrival, h.sent);
    }
  }

  /** What a forwarder sends: the mark of a publication that is not retained or has expired, the time that is left, rounded up
      to seconds, as long as there is some, and nothing for almost three hours from then on. */
  lemma ForwardedMeans(ttl: int, h: Hop)
    requires ttl < 0x8000 && h.arrival <= h.sent && h.arrival + 1000 * ttl < 0x7000_0000_0000_0000
    ensures ttl == 0 ==> Forwarded(ttl, h) == Some(0)
    ensures ttl < 0 || (ttl > 0 && h.expired) ==> Forwarded(ttl, h) == Some(-1)
    ensures 0 < ttl && !h.expired && h.sent < h.arrival + 1000 * ttl ==>
      Forwarded(ttl, h).Some? && 0 <= 1000 * Forwarded(ttl, h).value - (h.arrival + 1000 * ttl - h.sent) <= 999
    ensures 0 < ttl && !h.expired && h.arrival + 1000 * ttl <= h.sent < h.arrival + 1000 * ttl + 10224616 ==>
      Forwarded(ttl, h) == None
  {
    if 0 < ttl && !h.expired {
      if h.sent <= h.arrival + 1000 * ttl + 999 {
        InTime(h.arrival + 1000 * ttl, h.sent);
      } else if h.sent < h.arrival + 1000 * ttl + SAFE_LATENESS {
        IgnoredWhenLate(h.arrival + 1000 * ttl, h.sent);
      }
    }
  }

  /** All nodes have sent before the publication has expired there. */
  ghost predicate AllInTime(base: int, hops: seq<Hop>, n: nat)
    requires n <= |hops|
  {
    forall i | 0 <= i < n && Sent(base, hops, i).Some? ::
      var (ttl, h) := (Sent(base, hops, i).value, hops[i]);
      !h.expired && h.arrival <= h.sent < h.arrival + 1000 * ttl < 0x7000_0000_0000_0000
  }

  /** For how long the first `n` nodes have kept a publication. */
  ghost function Kept(hops: seq<Hop>, n: nat): int
    requires n <= |hops|
  {
    if n == 0 then 0 else Kept(hops, n - 1) + (hops[n - 1].sent - hops[n - 1].arrival)
  }

  /** Along a chain of forwarders in time, the publication gets through, and what is left of its time to live is what the nodes
      have not used up; every hop adds less than a second. */
  lemma {:induction false} ChainGetsThrough(base: int, hops: seq<Hop>, n: nat)
    requires 0 < base < 0x8000 && n <= |hops| && AllInTime(base, hops, n)
    ensures Sent(base, hops, n).Some? && 0 < Sent(base, hops, n).value <= base
    ensures 0 <= 1000 * Sent(base, hops, n).value - (1000 * base - Kept(hops, n)) <= 999 * n
  {
    hide Forwarded;
    if n > 0 {
      assert AllInTime(base, hops, n - 1);
      ChainGetsThrough(base, hops, n - 1);
      ForwardedMeans(Sent(base, hops, n - 1).value, hops[n - 1]);
    }
  }

  /** Along every chain of forwarders, the time to live never exceeds that of the publisher, and every receiver accepts it. */
  lemma {:induction false} ChainNeverInflates(base: int, hops: seq<Hop>, n: nat)
    requires 0 <= base < 0x8000 && Timely(base, hops) && n <= |hops| && Sent(base, hops, n).Some?
    ensures Sent(base, hops, n).value <= base && Accepts(base, Sent(base, hops, n).value)
  {
    hide ReqTtl, Forwarded, WrapsAt;
    if n > 0 {
      ChainNeverInflates(base, hops, n - 1);
      ForwardedGrowsExactlyWhen(Sent(base, hops, n - 1).value, hops[n - 1]);
    }
  }

  /** A publication that a node sends on almost three hours after its expiration is rejected by the next node. */
  lemma VeryLateIsRejected(base: int, h: Hop)
    requires 0 < base < 0x7fff && !h.expired && h.arrival + 1000 * base + SAFE_LATENESS == h.sent
    ensures Forwarded(base, h) == Some(0x7fff) && !Accepts(base, 0x7fff)
  {
    InflatedWhenVeryLate(h.arrival + 1000 * base);
  }
}
