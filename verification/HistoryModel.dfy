/** What the publication history stands for: a map from publications to what has been seen of them. */
module HistoryModel {
  import opened Options
  import opened HistoryTree

  const HISTORY_THRESHOLD: nat := 10

  type Contents = map<Uuid, Rec>

  function Max(a: nat, b: nat): nat {
    if a > b then a else b
  }

  function Min(a: nat, b: nat): nat {
    if a < b then a else b
  }

  /** The addresses a publication came from, after it came from `addr`. */
  function Noted(addrs: seq<AddrEntry>, addr: nat, sn: nat, hopCount: nat): seq<AddrEntry> {
    if addrs == [] then [AddrEntry(addr, sn, hopCount)]
    else if addrs[0].addr == addr then
      [AddrEntry(addr, Max(addrs[0].sn, sn), Min(addrs[0].hopCount, hopCount))] + addrs[1..]
    else [addrs[0]] + Noted(addrs[1..], addr, sn, hopCount)
  }

  /** Passing over entries for other addresses. */
  lemma {:induction false} NotedFrom(addrs: seq<AddrEntry>, i: nat, addr: nat, sn: nat, hopCount: nat)
    requires i <= |addrs| && forall j | 0 <= j < i :: addrs[j].addr != addr
    ensures Noted(addrs, addr, sn, hopCount) == addrs[..i] + Noted(addrs[i..], addr, sn, hopCount)
  {
    if i > 0 {
      NotedFrom(addrs[1..], i - 1, addr, sn, hopCount);
      assert addrs[1..][i - 1..] == addrs[i..] && addrs[..i] == [addrs[0]] + addrs[1..][..i - 1];
    }
  }

  /** One call that changes the history. An update from the local node has no address. */
  datatype Op =
    | Update(id: Uuid, sn: nat, ackRequested: bool, ttl: nat, hopCount: nat, addr: Option<nat>, now: nat)
    | Delete(id: Uuid)
    | Freshen(now: nat)

  function Amended(was: Rec, sn: nat, ackRequested: bool, expiration: nat, hopCount: nat, addr: Option<nat>): Rec {
    var addrs := if addr.Some? then Noted(was.addrs, addr.value, sn, hopCount) else was.addrs;
    Rec(Max(was.sn, sn), ackRequested, addrs, expiration)
  }

  function Updated(c: Contents, id: Uuid, sn: nat, ackRequested: bool, expiration: nat, hopCount: nat, addr: Option<nat>): Contents {
    c[id := Amended(if id in c then c[id] else EMPTY, sn, ackRequested, expiration, hopCount, addr)]
  }

  function Unexpired(c: Contents, now: nat): Contents {
    map id | id in c && now < c[id].expiration :: if id in c && now < c[id].expiration then c[id] else EMPTY
  }

  lemma UnexpiredRemoved(c: Contents, id: Uuid, now: nat)
    requires id in c && c[id].expiration <= now
    ensures Unexpired(c - {id}, now) == Unexpired(c, now)
  {
  }

  lemma NothingExpired(c: Contents, now: nat)
    requires forall id | id in c :: now < c[id].expiration
    ensures Unexpired(c, now) == c
  {
  }

  function Expiration(now: nat, ttl: nat): nat {
    now + 1000 * ttl + PUB_HISTORY_LIFETIME
  }

  /** How long a record outlives the publication, in milliseconds. */
  const PUB_HISTORY_LIFETIME: nat := 10000

  function Apply(c: Contents, op: Op): Contents {
    match op
    case Update(id, sn, ack, ttl, hop, addr, now) => Updated(c, id, sn, ack, Expiration(now, ttl), hop, addr)
    case Delete(id) => c - {id}
    case Freshen(now) => if |c| > HISTORY_THRESHOLD then Unexpired(c, now) else c
  }

  /** The history after the first `n` calls. */
  function After(ops: seq<Op>, n: nat): Contents
    requires n <= |ops|
  {
    if n == 0 then map[] else Apply(After(ops, n - 1), ops[n - 1])
  }

  predicate IsStale(c: Contents, id: Uuid, sn: nat) {
    id in c && sn <= c[id].sn
  }

  predicate CameFrom(c: Contents, id: Uuid, sn: nat, addr: nat) {
    id in c && exists e | e in c[id].addrs :: sn <= e.sn && e.addr == addr
  }

  /** Publication `id` has had a record ever since call `k`. */
  ghost predicate KnownSince(ops: seq<Op>, n: nat, k: nat, id: Uuid)
    requires k < n <= |ops|
  {
    forall j | k < j <= n :: id in After(ops, j)
  }

  /** The call updates `id` with at least sequence number `sn`. */
  ghost predicate Saw(op: Op, id: Uuid, sn: nat) {
    op.Update? && op.id == id && sn <= op.sn
  }

  /** Since its record was created, `id` has been seen with a sequence number of at least `sn`. */
  ghost predicate Seen(ops: seq<Op>, n: nat, id: Uuid, sn: nat)
    requires n <= |ops|
  {
    exists k: nat | k < n :: Saw(ops[k], id, sn) && KnownSince(ops, n, k, id)
  }

  /** The call updates `id`, coming from `addr`, with at least sequence number `sn`. */
  ghost predicate SawFrom(op: Op, id: Uuid, sn: nat, addr: nat) {
    Saw(op, id, sn) && op.addr == Some(addr)
  }

  /** Since its record was created, `id` has been seen from `addr` with a sequence number of at least `sn`. */
  ghost predicate SeenFrom(ops: seq<Op>, n: nat, id: Uuid, sn: nat, addr: nat)
    requires n <= |ops|
  {
    exists k: nat | k < n :: SawFrom(ops[k], id, sn, addr) && KnownSince(ops, n, k, id)
  }

  lemma KnownLonger(ops: seq<Op>, n: nat, k: nat, id: Uuid)
    requires k + 1 < n <= |ops|
    ensures KnownSince(ops, n, k, id) <==> KnownSince(ops, n - 1, k, id) && id in After(ops, n)
  {
  }

  lemma SeenStep(ops: seq<Op>, n: nat, id: Uuid, sn: nat)
    requires 0 < n <= |ops|
    ensures Seen(ops, n, id, sn) <==> id in After(ops, n) && (Saw(ops[n - 1], id, sn) || Seen(ops, n - 1, id, sn))
  {
    forall k: nat | k + 1 < n
      ensures KnownSince(ops, n, k, id) <==> KnownSince(ops, n - 1, k, id) && id in After(ops, n)
    {
      KnownLonger(ops, n, k, id);
    }
    assert KnownSince(ops, n, n - 1, id) <==> id in After(ops, n);
  }

  lemma AfterStep(ops: seq<Op>, n: nat)
    requires 0 < n <= |ops|
    ensures After(ops, n) == Apply(After(ops, n - 1), ops[n - 1])
  {
  }

  lemma StaleStep(c: Contents, op: Op, id: Uuid, sn: nat)
    ensures IsStale(Apply(c, op), id, sn) <==> id in Apply(c, op) && (Saw(op, id, sn) || IsStale(c, id, sn))
  {
  }

  /** A publication is stale exactly when its sequence number has been reached since its record was created. */
  lemma {:induction false} StaleMeansSeen(ops: seq<Op>, n: nat, id: Uuid, sn: nat)
    requires n <= |ops|
    ensures IsStale(After(ops, n), id, sn) <==> Seen(ops, n, id, sn)
  {
    hide *;
    if n == 0 {
      NothingSeen(ops, id, sn);
    } else {
      AfterStep(ops, n);
      StaleMeansSeen(ops, n - 1, id, sn);
      SeenStep(ops, n, id, sn);
      StaleStep(After(ops, n - 1), ops[n - 1], id, sn);
    }
  }

  // ---- how long records are kept ----

  /** Between the calls `k` and `n`, publication `id` is neither updated nor deleted. */
  ghost predicate LeftAlone(ops: seq<Op>, k: nat, n: nat, id: Uuid)
    requires k < n <= |ops|
  {
    forall j | k < j < n :: !(ops[j].Update? && ops[j].id == id) && !(ops[j].Delete? && ops[j].id == id)
  }

  /** Between the calls `k` and `n`, the history is never freshened at `end` or later while it has more than ten records. */
  ghost predicate NotCleaned(ops: seq<Op>, k: nat, n: nat, end: nat)
    requires k < n <= |ops|
  {
    forall j | k < j < n && ops[j].Freshen? && |After(ops, j)| > 10 :: ops[j].now < end
  }

  /** A call that has to do with other records keeps this one, unless it removes it because it has expired. */
  lemma KeptStep(c: Contents, op: Op, id: Uuid)
    requires !(op.Update? && op.id == id) && !(op.Delete? && op.id == id)
    ensures id in Apply(c, op) <==> id in c && (op.Freshen? && |c| > 10 ==> op.now < c[id].expiration)
    ensures id in Apply(c, op) ==> Apply(c, op)[id] == c[id]
  {
    hide Amended;
  }

  lemma KeptFirst(c: Contents, op: Op)
    requires op.Update?
    ensures var r := Apply(c, op);
      && op.id in r && r[op.id].expiration == op.now + 1000 * op.ttl + 10000 && r[op.id].ackRequested == op.ackRequested
      && op.sn <= r[op.id].sn
  {
    hide Noted;
  }

  /** A record is kept for its time to live in seconds and ten more, and exactly until the history is cleaned after that. Until
      then it holds what the last update said. */
  lemma {:induction false} KeptExactlyUntil(ops: seq<Op>, k: nat, n: nat, id: Uuid)
    requires k < n <= |ops| && ops[k].Update? && ops[k].id == id && LeftAlone(ops, k, n, id)
    ensures var end := ops[k].now + 1000 * ops[k].ttl + 10000;
      && (id in After(ops, n) <==> NotCleaned(ops, k, n, end))
      && (id in After(ops, n) ==>
            var r := After(ops, n)[id];
            r.expiration == end && r.ackRequested == ops[k].ackRequested && ops[k].sn <= r.sn)
    ensures forall sn: nat | sn <= ops[k].sn :: IsStale(After(ops, n), id, sn) <==> id in After(ops, n)
  {
    hide Apply, After;
    AfterStep(ops, n);
    if n > k + 1 {
      KeptExactlyUntil(ops, k, n - 1, id);
      KeptStep(After(ops, n - 1), ops[n - 1], id);
    } else {
      KeptFirst(After(ops, k), ops[k]);
    }
  }

  lemma NothingSeen(ops: seq<Op>, id: Uuid, sn: nat)
    ensures !IsStale(After(ops, 0), id, sn) && !Seen(ops, 0, id, sn)
  {
  }

  lemma {:induction false} NotedEntries(addrs: seq<AddrEntry>, a: nat, sn: nat, hopCount: nat, s: nat, addr: nat)
    ensures (exists e | e in Noted(addrs, a, sn, hopCount) :: s <= e.sn && e.addr == addr)
         <==> (exists e | e in addrs :: s <= e.sn && e.addr == addr) || (a == addr && s <= sn)
  {
    var r := Noted(addrs, a, sn, hopCount);
    if addrs == [] {
      assert r[0] in r;
    } else if addrs[0].addr == a {
      assert r == [r[0]] + addrs[1..];
      assert addrs == [addrs[0]] + addrs[1..];
      assert r[0] in r;
    } else {
      NotedEntries(addrs[1..], a, sn, hopCount, s, addr);
      assert addrs == [addrs[0]] + addrs[1..];
    }
  }

  lemma SeenFromStep(ops: seq<Op>, n: nat, id: Uuid, sn: nat, addr: nat)
    requires 0 < n <= |ops|
    ensures SeenFrom(ops, n, id, sn, addr)
         <==> id in After(ops, n) && (SawFrom(ops[n - 1], id, sn, addr) || SeenFrom(ops, n - 1, id, sn, addr))
  {
    forall k: nat | k + 1 < n
      ensures KnownSince(ops, n, k, id) <==> KnownSince(ops, n - 1, k, id) && id in After(ops, n)
    {
      KnownLonger(ops, n, k, id);
    }
    assert KnownSince(ops, n, n - 1, id) <==> id in After(ops, n);
  }

  lemma CameFromStep(c: Contents, op: Op, id: Uuid, sn: nat, addr: nat)
    ensures CameFrom(Apply(c, op), id, sn, addr)
         <==> id in Apply(c, op) && (SawFrom(op, id, sn, addr) || CameFrom(c, id, sn, addr))
  {
    if op.Update? && op.id == id && op.addr.Some? {
      var was := if id in c then c[id].addrs else [];
      NotedEntries(was, op.addr.value, op.sn, op.hopCount, sn, addr);
    }
  }

  lemma NothingCame(ops: seq<Op>, id: Uuid, sn: nat, addr: nat)
    ensures !CameFrom(After(ops, 0), id, sn, addr) && !SeenFrom(ops, 0, id, sn, addr)
  {
  }

  /** A publication counts as received from an address exactly when its sequence number has been reached from there. */
  lemma {:induction false} CameFromMeansSeen(ops: seq<Op>, n: nat, id: Uuid, sn: nat, addr: nat)
    requires n <= |ops|
    ensures CameFrom(After(ops, n), id, sn, addr) <==> SeenFrom(ops, n, id, sn, addr)
  {
    hide *;
    if n == 0 {
      NothingCame(ops, id, sn, addr);
    } else {
      AfterStep(ops, n);
      CameFromMeansSeen(ops, n - 1, id, sn, addr);
      SeenFromStep(ops, n, id, sn, addr);
      CameFromStep(After(ops, n - 1), ops[n - 1], id, sn, addr);
    }
  }

  /** The call updates `id`, coming from `addr` over at most `hops` hops. */
  ghost predicate SawWithin(op: Op, id: Uuid, addr: nat, hops: nat) {
    op.Update? && op.id == id && op.addr == Some(addr) && op.hopCount <= hops
  }

  /** Since its record was created, `id` has come from `addr` over at most `hops` hops. */
  ghost predicate SeenWithin(ops: seq<Op>, n: nat, id: Uuid, addr: nat, hops: nat)
    requires n <= |ops|
  {
    exists k: nat | k < n :: SawWithin(ops[k], id, addr, hops) && KnownSince(ops, n, k, id)
  }

  ghost predicate NotedWithin(addrs: seq<AddrEntry>, addr: nat, hops: nat) {
    exists e | e in addrs :: e.addr == addr && e.hopCount <= hops
  }

  lemma {:induction false} NotedHops(addrs: seq<AddrEntry>, a: nat, sn: nat, hopCount: nat, addr: nat, hops: nat)
    ensures NotedWithin(Noted(addrs, a, sn, hopCount), addr, hops)
         <==> NotedWithin(addrs, addr, hops) || (a == addr && hopCount <= hops)
  {
    var r := Noted(addrs, a, sn, hopCount);
    if addrs == [] {
      assert r[0] in r;
    } else if addrs[0].addr == a {
      assert r == [r[0]] + addrs[1..];
      assert addrs == [addrs[0]] + addrs[1..];
      assert r[0] in r;
    } else {
      NotedHops(addrs[1..], a, sn, hopCount, addr, hops);
      assert addrs == [addrs[0]] + addrs[1..];
    }
  }

  lemma WithinStep(c: Contents, op: Op, id: Uuid, addr: nat, hops: nat)
    requires id in Apply(c, op)
    ensures NotedWithin(Apply(c, op)[id].addrs, addr, hops)
         <==> SawWithin(op, id, addr, hops) || (id in c && NotedWithin(c[id].addrs, addr, hops))
  {
    if op.Update? && op.id == id && op.addr.Some? {
      NotedHops(if id in c then c[id].addrs else [], op.addr.value, op.sn, op.hopCount, addr, hops);
    }
  }

  lemma SeenWithinStep(ops: seq<Op>, n: nat, id: Uuid, addr: nat, hops: nat)
    requires 0 < n <= |ops|
    ensures SeenWithin(ops, n, id, addr, hops)
         <==> id in After(ops, n) && (SawWithin(ops[n - 1], id, addr, hops) || SeenWithin(ops, n - 1, id, addr, hops))
  {
    forall k: nat | k + 1 < n
      ensures KnownSince(ops, n, k, id) <==> KnownSince(ops, n - 1, k, id) && id in After(ops, n)
    {
      KnownLonger(ops, n, k, id);
    }
    assert KnownSince(ops, n, n - 1, id) <==> id in After(ops, n);
  }

  lemma NothingWithin(ops: seq<Op>, n: nat, id: Uuid, addr: nat, hops: nat)
    requires n <= |ops| && id !in After(ops, n)
    ensures !SeenWithin(ops, n, id, addr, hops)
  {
  }

  /** A record notes the least number of hops over which a publication has come from an address. */
  lemma {:induction false} HopsMeanSeen(ops: seq<Op>, n: nat, id: Uuid, addr: nat, hops: nat)
    requires n <= |ops| && id in After(ops, n)
    ensures NotedWithin(After(ops, n)[id].addrs, addr, hops) <==> SeenWithin(ops, n, id, addr, hops)
  {
    hide SawWithin, SeenWithin, NotedWithin, Apply;
    AfterStep(ops, n);
    SeenWithinStep(ops, n, id, addr, hops);
    WithinStep(After(ops, n - 1), ops[n - 1], id, addr, hops);
    if id in After(ops, n - 1) {
      HopsMeanSeen(ops, n - 1, id, addr, hops);
    } else {
      NothingWithin(ops, n - 1, id, addr, hops);
    }
  }

  /** One entry per address. */
  ghost predicate OneEach(addrs: seq<AddrEntry>) {
    forall i, j | 0 <= i < j < |addrs| :: addrs[i].addr != addrs[j].addr
  }

  lemma {:induction false} NotedOneEach(addrs: seq<AddrEntry>, a: nat, sn: nat, hopCount: nat)
    requires OneEach(addrs)
    ensures OneEach(Noted(addrs, a, sn, hopCount))
    ensures forall e | e in Noted(addrs, a, sn, hopCount) :: e.addr == a || e in addrs
  {
    if addrs != [] && addrs[0].addr != a {
      NotedOneEach(addrs[1..], a, sn, hopCount);
      assert forall e | e in addrs[1..] :: e.addr != addrs[0].addr;
    }
  }

  ghost predicate AddressesBounded(r: Rec) {
    OneEach(r.addrs) && forall e | e in r.addrs :: e.sn <= r.sn
  }

  lemma AmendedBounded(was: Rec, sn: nat, ackRequested: bool, expiration: nat, hopCount: nat, addr: Option<nat>)
    requires AddressesBounded(was)
    ensures AddressesBounded(Amended(was, sn, ackRequested, expiration, hopCount, addr))
  {
    if addr.Some? {
      NotedOneEach(was.addrs, addr.value, sn, hopCount);
      NotedBounded(was.addrs, addr.value, sn, hopCount, Max(was.sn, sn));
    }
  }

  lemma AddressesStep(c: Contents, op: Op, id: Uuid)
    requires id in Apply(c, op) && (id in c ==> AddressesBounded(c[id]))
    ensures AddressesBounded(Apply(c, op)[id])
  {
    assert AddressesBounded(EMPTY);
    hide AddressesBounded;
    if op.Update? && op.id == id {
      hide Amended;
      var was := if id in c then c[id] else EMPTY;
      AmendedBounded(was, op.sn, op.ackRequested, Expiration(op.now, op.ttl), op.hopCount, op.addr);
    }
  }

  /** In every history, a record has one entry per address, none with a later sequence number than its own. */
  lemma {:induction false} AddressesAreBounded(ops: seq<Op>, n: nat, id: Uuid)
    requires n <= |ops| && id in After(ops, n)
    ensures AddressesBounded(After(ops, n)[id])
  {
    hide AddressesBounded;
    hide Apply;
    if id in After(ops, n - 1) {
      AddressesAreBounded(ops, n - 1, id);
    }
    AddressesStep(After(ops, n - 1), ops[n - 1], id);
  }

  lemma {:induction false} NotedBounded(addrs: seq<AddrEntry>, a: nat, sn: nat, hopCount: nat, top: nat)
    requires sn <= top && forall e | e in addrs :: e.sn <= top
    ensures forall e | e in Noted(addrs, a, sn, hopCount) :: e.sn <= top
  {
    if addrs != [] && addrs[0].addr != a {
      NotedBounded(addrs[1..], a, sn, hopCount, top);
    }
  }
}
