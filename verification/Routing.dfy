/** Routing over many hops: no node on the way drops a publication that a subscriber's filter asks for. */
module Routing {
  import opened Options
  import opened Words
  import opened BitVectors
  import opened CountVectors
  import opened Interests
  import opened Topics
  import opened TopicFilter
  import opened TopicRouting
  import MeshNode

  /** The test a publication must pass to be sent to a remote. */
  ghost predicate Accepts(pub: Vec, p: Pair)
    requires |pub| == |p.interests| && |p.needs| == FH_CHUNKS
  {
    var hash := FuzzyHash(AndVec(pub, p.interests));
    !IsZero(hash) && Words.Includes(hash, p.needs)
  }

  /** The matching code, with the node's scratch vectors. */
  method PassesMatch(pub: BitVector, interests: BitVector, needs: BitVector, scratchInterests: BitVector,
                     scratchNeeds: BitVector) returns (ok: bool)
    requires pub.Valid() && interests.Valid() && needs.Valid() && scratchInterests.Valid() && scratchNeeds.Valid()
    requires scratchInterests.bits.Length == pub.bits.Length == interests.bits.Length
    requires scratchNeeds.bits.Length == needs.bits.Length == FH_CHUNKS
    requires scratchInterests !in {pub, interests, needs} && scratchNeeds !in {pub, interests, needs, scratchInterests}
    requires scratchInterests.bits !in {pub.bits, interests.bits, needs.bits}
    requires scratchNeeds.bits !in {pub.bits, interests.bits, needs.bits, scratchInterests.bits}
    modifies scratchInterests, scratchInterests.bits, scratchNeeds, scratchNeeds.bits
    ensures scratchInterests.Valid() && scratchNeeds.Valid()
    ensures ok == Accepts(pub.Value(), Pair(interests.Value(), needs.Value()))
  {
    scratchInterests.Intersection(pub, interests);
    scratchNeeds.SetFuzzyHash(scratchInterests);
    ok := scratchNeeds.IncludesAll(needs);
  }

  // ---- one hop ----

  lemma IncludesTransitive(a: Vec, b: Vec, c: Vec)
    requires |a| == |b| == |c| && Words.Includes(a, b) && Words.Includes(b, c)
    ensures Words.Includes(a, c)
  {
    forall i | 0 <= i < |a|
      ensures WordIncludes(a[i], c[i])
    {
      assert WordIncludes(a[i], b[i]) && WordIncludes(b[i], c[i]);
    }
  }

  /** The union includes every source, and every source includes the intersection. */
  lemma SourceBounds(c: Sources, k: nat, n: nat)
    requires k < |c| && c[k].Some? && |c[k].value| == n
    ensures Words.Includes(UnionOver(c, n), c[k].value)
    ensures Words.Includes(c[k].value, IntersectionOver(c, n))
  {
    forall i, j | 0 <= i < n && 0 <= j < 64
      ensures c[k].value[i][j] ==> UnionOver(c, n)[i][j]
      ensures IntersectionOver(c, n)[i][j] ==> c[k].value[i][j]
    {
      assert c[k].value[i][j] <==> HasBit(c[k].value, i, j);
    }
  }

  /** A pair asks for no more than filter `s` with hash `hash` does. */
  ghost predicate Covers(p: Pair, s: Vec, hash: Vec) {
    && |p.interests| == |s| && |p.needs| == |hash| == FH_CHUNKS
    && Words.Includes(p.interests, s)
    && Words.Includes(hash, p.needs)
  }

  /** A pair that covers a non-empty filter accepts every publication that has all its bits. */
  lemma CoversAccepts(pub: Vec, p: Pair, s: Vec)
    requires Covers(p, s, FuzzyHash(s)) && |pub| == |s| && Words.Includes(pub, s) && !IsZero(s)
    ensures Accepts(pub, p)
  {
    var both := AndVec(pub, p.interests);
    forall i | 0 <= i < |s|
      ensures WordIncludes(both[i], s[i])
    {
      assert WordIncludes(pub[i], s[i]) && WordIncludes(p.interests[i], s[i]);
    }
    FuzzyHashMonotone(both, s);
    IncludesTransitive(FuzzyHash(both), FuzzyHash(s), p.needs);
    NonZero(both, s);
    FuzzyHashZero(both);
  }

  lemma NonZero(a: Vec, b: Vec)
    requires |a| == |b| && Words.Includes(a, b) && !IsZero(b)
    ensures !IsZero(a)
  {
    var i :| 0 <= i < |b| && b[i] != Zero();
    assert WordIncludes(a[i], b[i]);
    NonZeroWord(b[i]);
  }

  lemma NonZeroWord(w: Word)
    ensures w == Zero() <==> forall j | 0 <= j < 64 :: !w[j]
  {
  }

  // ---- a chain of nodes ----

  datatype Station = Station(addr: nat, subs: seq<Pair>, peers: seq<Peer>)

  ghost predicate PeerAt(a: Station, i: nat, addr: nat) {
    i < |a.peers| && a.peers[i].addr == addr
  }

  /** What is stored for a pair that was sent: empty interests are not stored. */
  ghost function Stored(p: Pair): Option<Pair> {
    if IsZero(p.interests) then None else Some(p)
  }

  /** What is stored has all interests of a pair, and needs no more. */
  ghost predicate Heard(stored: Option<Pair>, p: Pair) {
    || IsZero(p.interests)
    || (&& stored.Some? && |stored.value.interests| == |p.interests| && |stored.value.needs| == |p.needs|
        && Words.Includes(stored.value.interests, p.interests) && Words.Includes(p.needs, stored.value.needs))
  }

  /** A pair that has been received as it was sent has been heard. */
  lemma SentIsHeard(p: Pair)
    ensures Heard(Stored(p), p)
  {
  }

  /** `a` knows `b` as peer `i`, `b` knows `a` as peer `j`, and `a` has heard of what `b` computes for it. */
  ghost predicate InSync(a: Station, i: nat, b: Station, j: nat, n: nat) {
    && PeerAt(a, i, b.addr) && PeerAt(b, j, a.addr)
    && Heard(a.peers[i].inbound, OutPair(b.subs, b.peers, j, n))
  }

  /** A chain of nodes that never turns straight back, in which each node has heard of the next one. `up[h]` is
      the position of station `h + 1` among the peers of station `h`, and `down[h]` the other way round. */
  ghost predicate Chain(s: seq<Station>, up: seq<nat>, down: seq<nat>, n: nat) {
    && |s| >= 1 && |up| == |down| == |s| - 1
    && (forall h | 0 <= h < |s| - 1 :: InSync(s[h], up[h], s[h + 1], down[h], n))
    && (forall h | 0 <= h < |s| - 2 :: s[h].addr != s[h + 2].addr)
  }

  ghost function Source(st: Station, k: nat): Option<Pair>
    requires k < |st.subs| + |st.peers|
  {
    if k < |st.subs| then Some(st.subs[k]) else st.peers[k - |st.subs|].inbound
  }

  /** Whatever one source of a node covers is covered by what the node sends to any other peer. */
  lemma OutPairCovers(st: Station, d: nat, k: nat, f: Vec, hash: Vec, n: nat)
    requires d < |st.peers| && k < |st.subs| + |st.peers| && k != |st.subs| + d && |f| == n
    requires Source(st, k).Some? && Covers(Source(st, k).value, f, hash)
    ensures Covers(OutPair(st.subs, st.peers, d, n), f, hash)
  {
    var p := Source(st, k).value;
    var ci := InterestSources(st.subs, st.peers)[|st.subs| + d := None];
    var cn := NeedSources(st.subs, st.peers)[|st.subs| + d := None];
    assert ci[k] == Some(p.interests) && cn[k] == Some(p.needs);
    SourceBounds(ci, k, n);
    SourceBounds(cn, k, FH_CHUNKS);
    IncludesTransitive(UnionOver(ci, n), p.interests, f);
    IncludesTransitive(hash, p.needs, IntersectionOver(cn, FH_CHUNKS));
  }

  /** Whatever a pair covers is covered by what has been heard of it. */
  lemma HeardCovers(stored: Option<Pair>, p: Pair, f: Vec, hash: Vec)
    requires Heard(stored, p) && !IsZero(f) && Covers(p, f, hash)
    ensures stored.Some? && Covers(stored.value, f, hash)
  {
    NonZero(p.interests, f);
    IncludesTransitive(stored.value.interests, p.interests, f);
    IncludesTransitive(hash, p.needs, stored.value.needs);
  }

  /** A station passes on what the next station has told it. */
  lemma HopCovers(st: Station, i: nat, next: Station, j: nat, d: nat, f: Vec, hash: Vec, n: nat)
    requires j < |next.peers| && d < |st.peers| && d != i
    requires InSync(st, i, next, j, n) && |f| == n && !IsZero(f)
    requires Covers(OutPair(next.subs, next.peers, j, n), f, hash)
    ensures Covers(OutPair(st.subs, st.peers, d, n), f, hash)
  {
    HeardCovers(st.peers[i].inbound, OutPair(next.subs, next.peers, j, n), f, hash);
    OutPairCovers(st, d, |st.subs| + i, f, hash, n);
  }

  /** What station `h + 1` sends to station `h` covers a filter. */
  ghost predicate ToldAt(s: seq<Station>, down: seq<nat>, n: nat, f: Vec, hash: Vec, h: nat) {
    && h + 1 < |s| && h < |down| && down[h] < |s[h + 1].peers|
    && Covers(OutPair(s[h + 1].subs, s[h + 1].peers, down[h], n), f, hash)
  }

  /** The last station of a chain has a subscription with a filter and its hash. */
  ghost predicate Subscribed(s: seq<Station>, n: nat, f: Vec, hash: Vec, k: nat) {
    && |s| >= 1 && |f| == n && !IsZero(f) && |hash| == FH_CHUNKS
    && k < |s[|s| - 1].subs| && s[|s| - 1].subs[k] == Pair(f, hash)
  }

  /** What every station of a chain sends towards its start covers the filter of a subscriber at its end. */
  lemma {:induction false} ChainCovers(s: seq<Station>, up: seq<nat>, down: seq<nat>, n: nat, f: Vec, hash: Vec,
                                       k: nat, h: nat)
    requires h + 1 < |s|
    requires Chain(s, up, down, n) && Subscribed(s, n, f, hash, k)
    ensures ToldAt(s, down, n, f, hash, h)
    decreases |s| - h
  {
    hide OutPair, Heard, IsZero;
    assert InSync(s[h], up[h], s[h + 1], down[h], n);
    if h + 2 == |s| {
      assert Covers(Pair(f, hash), f, hash);
      OutPairCovers(s[h + 1], down[h], k, f, hash, n);
    } else {
      ChainCovers(s, up, down, n, f, hash, k, h + 1);
      assert InSync(s[h + 1], up[h + 1], s[h + 2], down[h + 1], n);
      assert s[h].addr != s[h + 2].addr;
      HopCovers(s[h + 1], up[h + 1], s[h + 2], down[h + 1], down[h], f, hash, n);
    }
  }

  /** At every hop of a chain, a publication with all the bits of a subscriber's non-empty filter is sent on. */
  lemma EveryHopAccepts(s: seq<Station>, up: seq<nat>, down: seq<nat>, n: nat, f: Vec, k: nat, h: nat, pub: Vec)
    requires Chain(s, up, down, n) && Subscribed(s, n, f, FuzzyHash(f), k)
    requires h < |s| - 1 && |pub| == n && Words.Includes(pub, f)
    ensures InSync(s[h], up[h], s[h + 1], down[h], n)
    ensures s[h].peers[up[h]].inbound.Some?
    ensures |s[h].peers[up[h]].inbound.value.interests| == n && |s[h].peers[up[h]].inbound.value.needs| == FH_CHUNKS
    ensures Accepts(pub, s[h].peers[up[h]].inbound.value)
  {
    ChainCovers(s, up, down, n, f, FuzzyHash(f), k, h);
    assert InSync(s[h], up[h], s[h + 1], down[h], n);
    var p := OutPair(s[h + 1].subs, s[h + 1].peers, down[h], n);
    HeardCovers(s[h].peers[up[h]].inbound, p, f, FuzzyHash(f));
    CoversAccepts(pub, s[h].peers[up[h]].inbound.value, f);
  }

  /** From topic strings to the last hop: when the topics of a publication match those of a subscription whose
      filter is not empty, every node between the publisher and the subscriber sends the publication on. */
  lemma MatchingPublicationIsRouted(
      pubs: seq<CString>, subs: seq<CString>, seps: set<char>, pubKind: TopicType, noWild: bool, hash: Hasher,
      s: seq<Station>, up: seq<nat>, down: seq<nat>, n: nat, pub: Vec, f: Vec, k: nat, h: nat)
    requires !Lossy(seps) && pubKind != SubTopic && (pubKind == PubNoWild ==> noWild)
    requires AllAccepted(pubs, seps, pubKind) && AllAccepted(subs, seps, SubTopic)
    requires ListMatches(pubs, subs, seps, noWild)
    requires Filled(ZeroVec(n), hash, AllItems(pubs, seps, pubKind), pub)
    requires Filled(ZeroVec(n), hash, AllItems(subs, seps, SubTopic), f)
    requires Chain(s, up, down, n) && Subscribed(s, n, f, FuzzyHash(f), k)
    requires h < |s| - 1
    ensures InSync(s[h], up[h], s[h + 1], down[h], n)
    ensures s[h].peers[up[h]].inbound.Some?
    ensures |s[h].peers[up[h]].inbound.value.interests| == n && |s[h].peers[up[h]].inbound.value.needs| == FH_CHUNKS
    ensures Accepts(pub, s[h].peers[up[h]].inbound.value)
  {
    FilterHasNoFalseNegatives(pubs, subs, seps, pubKind, noWild, hash, n, pub, f);
    EveryHopAccepts(s, up, down, n, f, k, h, pub);
  }

  // ---- needs that change while interests do not ----

  ghost predicate Same(a: Vec, b: Vec)
    requires |a| == |b|
  {
    Words.Includes(a, b) && Words.Includes(b, a)
  }

  lemma SameVec(a: Vec, b: Vec)
    requires |a| == |b| && Same(a, b)
    ensures a == b
  {
    forall i, j | 0 <= i < |a| && 0 <= j < 64
      ensures a[i][j] == b[i][j]
    {
      assert WordIncludes(a[i], b[i]) && WordIncludes(b[i], a[i]);
    }
    SameBits(a, b);
  }

  ghost predicate SomeSource(c: Sources) {
    exists k | 0 <= k < |c| :: c[k].Some?
  }

  ghost predicate SomeHas(c: Sources, i: nat, j: nat) {
    exists k | 0 <= k < |c| :: c[k].Some? && HasBit(c[k].value, i, j)
  }

  ghost predicate AllHave(c: Sources, i: nat, j: nat) {
    forall k | 0 <= k < |c| && c[k].Some? :: HasBit(c[k].value, i, j)
  }

  /** Sources `d` are sources `c` and `v`. */
  ghost predicate OneMore(c: Sources, d: Sources, v: Vec) {
    && SomeSource(d)
    && (forall i, j :: SomeHas(d, i, j) <==> SomeHas(c, i, j) || HasBit(v, i, j))
    && (forall i, j :: AllHave(d, i, j) <==> AllHave(c, i, j) && HasBit(v, i, j))
  }

  lemma Inserted(c: Sources, k: nat, v: Vec)
    requires k <= |c|
    ensures OneMore(c, Tally.Insert(c, k, Some(v)), v)
  {
    var d := Tally.Insert(c, k, Some(v));
    assert d[k] == Some(v);
    forall x | 0 <= x < |c|
      ensures d[if x < k then x else x + 1] == c[x]
    {
    }
  }

  lemma FilledIn(c: Sources, k: nat, v: Vec)
    requires k < |c| && c[k].None?
    ensures OneMore(c, c[k := Some(v)], v)
  {
    var d := c[k := Some(v)];
    assert d[k] == Some(v) && forall x | 0 <= x < |c| && x != k :: d[x] == c[x];
  }

  /** One more source adds its bits to the union. */
  lemma UnionOfOneMore(c: Sources, d: Sources, v: Vec)
    requires OneMore(c, d, v)
    ensures UnionOver(d, |v|) == OrVec(UnionOver(c, |v|), v)
  {
    var n := |v|;
    forall i, j | 0 <= i < n && 0 <= j < 64
      ensures UnionOver(d, n)[i][j] == (UnionOver(c, n)[i][j] || v[i][j])
    {
      assert UnionOver(c, n)[i][j] == SomeHas(c, i, j) && UnionOver(d, n)[i][j] == SomeHas(d, i, j);
    }
    SameBits(UnionOver(d, n), OrVec(UnionOver(c, n), v));
  }

  /** One more source leaves only its own bits in the intersection. */
  lemma IntersectionOfOneMore(c: Sources, d: Sources, v: Vec)
    requires OneMore(c, d, v)
    ensures IntersectionOver(d, |v|) == if SomeSource(c) then AndVec(IntersectionOver(c, |v|), v) else v
  {
    var n := |v|;
    var goal := if SomeSource(c) then AndVec(IntersectionOver(c, n), v) else v;
    forall i, j | 0 <= i < n && 0 <= j < 64
      ensures IntersectionOver(d, n)[i][j] == goal[i][j]
    {
      assert IntersectionOver(c, n)[i][j] == (SomeSource(c) && AllHave(c, i, j));
      assert IntersectionOver(d, n)[i][j] == (SomeSource(d) && AllHave(d, i, j));
    }
    SameBits(IntersectionOver(d, n), goal);
  }

  lemma NoSource(c: Sources, n: nat)
    requires !SomeSource(c)
    ensures IsZero(UnionOver(c, n)) && IsZero(IntersectionOver(c, n))
  {
    forall i | 0 <= i < n
      ensures UnionOver(c, n)[i] == Zero() && IntersectionOver(c, n)[i] == Zero()
    {
      assert forall j | 0 <= j < 64 :: !UnionOver(c, n)[i][j];
      assert forall j | 0 <= j < 64 :: !IntersectionOver(c, n)[i][j];
    }
  }

  /** The subscriptions with one more of them. */
  ghost function WithSub(subs: seq<Pair>, k: nat, p: Pair): seq<Pair>
    requires k <= |subs|
  {
    subs[..k] + [p] + subs[k..]
  }

  /** Nobody but remote `d` has told the node of any interests. */
  ghost predicate Alone(subs: seq<Pair>, peers: seq<Peer>, d: nat)
    requires d < |peers|
  {
    subs == [] && forall e | 0 <= e < |peers| && e != d :: peers[e].inbound.None?
  }

  /** The pair of all others, and the pair with one more among them: its interests are added, and only its own needs are
      left. */
  ghost predicate Joins(alone: bool, rest: Pair, p: Pair, all: Pair)
    requires |rest.interests| == |p.interests| && |rest.needs| == |p.needs|
  {
    && all.interests == OrVec(rest.interests, p.interests)
    && all.needs == (if alone then p.needs else AndVec(rest.needs, p.needs))
    && (alone ==> IsZero(rest.interests) && IsZero(rest.needs))
  }

  lemma PairOfOneMore(ci: Sources, cn: Sources, di: Sources, dn: Sources, p: Pair, n: nat)
    requires OneMore(ci, di, p.interests) && OneMore(cn, dn, p.needs) && Sized(p, n)
    requires SomeSource(ci) <==> SomeSource(cn)
    ensures Joins(!SomeSource(ci), Pair(UnionOver(ci, n), IntersectionOver(cn, FH_CHUNKS)), p,
                  Pair(UnionOver(di, n), IntersectionOver(dn, FH_CHUNKS)))
  {
    UnionOfOneMore(ci, di, p.interests);
    IntersectionOfOneMore(cn, dn, p.needs);
    if !SomeSource(ci) {
      NoSource(ci, n);
      NoSource(cn, FH_CHUNKS);
    }
  }

  /** What one more subscription does to the pair that a remote is due. */
  lemma PairWithSub(subs: seq<Pair>, k: nat, p: Pair, peers: seq<Peer>, d: nat, n: nat)
    requires k <= |subs| && d < |peers| && Sized(p, n)
    ensures Joins(Alone(subs, peers, d), OutPair(subs, peers, d, n), p, OutPair(WithSub(subs, k, p), peers, d, n))
  {
    var (ci, cn) := (InterestSources(subs, peers)[|subs| + d := None], NeedSources(subs, peers)[|subs| + d := None]);
    SourcesWithSub(subs, k, p, peers, d);
    Inserted(ci, k, p.interests);
    Inserted(cn, k, p.needs);
    AloneMeans(subs, peers, d);
    PairOfOneMore(ci, cn, Tally.Insert(ci, k, Some(p.interests)), Tally.Insert(cn, k, Some(p.needs)), p, n);
  }

  /** What is stored for a remote. */
  ghost function WithHeard(peers: seq<Peer>, e: nat, stored: Option<Pair>): seq<Peer>
    requires e < |peers|
  {
    peers[e := peers[e].(inbound := stored)]
  }

  /** What a pair stored for one remote does to the pair that another one is due. */
  lemma PairWithHeard(subs: seq<Pair>, peers: seq<Peer>, e: nat, p: Pair, d: nat, n: nat)
    requires d < |peers| && e < |peers| && e != d && Sized(p, n)
    ensures var rest := WithHeard(peers, e, None);
      Joins(Alone(subs, rest, d), OutPair(subs, rest, d, n), p, OutPair(subs, WithHeard(peers, e, Some(p)), d, n))
  {
    var rest := WithHeard(peers, e, None);
    var (x, y) := (|subs| + d, |subs| + e);
    var (ci, cn) := (InterestSources(subs, rest)[x := None], NeedSources(subs, rest)[x := None]);
    ChangedPeer(subs, rest, e, peers[e].(inbound := Some(p)));
    assert WithHeard(peers, e, Some(p)) == rest[e := peers[e].(inbound := Some(p))];
    FilledIn(ci, y, p.interests);
    FilledIn(cn, y, p.needs);
    AloneMeans(subs, rest, d);
    assert InterestSources(subs, rest)[y := Some(p.interests)][x := None] == ci[y := Some(p.interests)];
    assert NeedSources(subs, rest)[y := Some(p.needs)][x := None] == cn[y := Some(p.needs)];
    PairOfOneMore(ci, cn, ci[y := Some(p.interests)], cn[y := Some(p.needs)], p, n);
  }

  lemma SourcesWithSub(subs: seq<Pair>, k: nat, p: Pair, peers: seq<Peer>, d: nat)
    requires k <= |subs| && d < |peers|
    ensures var subs' := WithSub(subs, k, p);
      && InterestSources(subs', peers)[|subs'| + d := None]
         == Tally.Insert(InterestSources(subs, peers)[|subs| + d := None], k, Some(p.interests))
      && NeedSources(subs', peers)[|subs'| + d := None]
         == Tally.Insert(NeedSources(subs, peers)[|subs| + d := None], k, Some(p.needs))
  {
    AddedSub(subs, peers, k, p);
  }

  lemma AloneMeans(subs: seq<Pair>, peers: seq<Peer>, d: nat)
    requires d < |peers|
    ensures Alone(subs, peers, d) <==> !SomeSource(InterestSources(subs, peers)[|subs| + d := None])
    ensures Alone(subs, peers, d) <==> !SomeSource(NeedSources(subs, peers)[|subs| + d := None])
  {
    var (ci, cn) := (InterestSources(subs, peers)[|subs| + d := None], NeedSources(subs, peers)[|subs| + d := None]);
    if subs != [] {
      assert ci[0].Some? && cn[0].Some?;
    } else if e :| 0 <= e < |peers| && e != d && peers[e].inbound.Some? {
      assert ci[e].Some? && cn[e].Some?;
    }
  }

  lemma OrIsSame(a: Vec, b: Vec)
    requires |a| == |b|
    ensures OrVec(a, b) == a <==> Words.Includes(a, b)
    ensures Words.Includes(OrVec(a, b), b)
  {
    if OrVec(a, b) == a {
      forall i | 0 <= i < |a|
        ensures WordIncludes(a[i], b[i])
      {
        assert OrVec(a, b)[i] == Or(a[i], b[i]);
      }
    } else if Words.Includes(a, b) {
      assert forall i | 0 <= i < |a| :: WordIncludes(OrVec(a, b)[i], a[i]) && WordIncludes(a[i], OrVec(a, b)[i]);
      SameVec(OrVec(a, b), a);
    }
  }

  lemma AndIsSame(a: Vec, b: Vec)
    requires |a| == |b|
    ensures AndVec(a, b) == a <==> Words.Includes(b, a)
    ensures Words.Includes(a, AndVec(a, b)) && Words.Includes(b, AndVec(a, b))
  {
    if AndVec(a, b) == a {
      forall i | 0 <= i < |a|
        ensures WordIncludes(b[i], a[i])
      {
        assert AndVec(a, b)[i] == And(a[i], b[i]);
      }
    } else if Words.Includes(b, a) {
      assert forall i | 0 <= i < |a| :: WordIncludes(AndVec(a, b)[i], a[i]) && WordIncludes(a[i], AndVec(a, b)[i]);
      SameVec(AndVec(a, b), a);
    }
  }

  lemma ZeroIncludes(a: Vec, b: Vec)
    requires |a| == |b|
    ensures IsZero(b) ==> Words.Includes(a, b)
    ensures IsZero(a) && Words.Includes(a, b) ==> IsZero(b)
  {
    if IsZero(a) && Words.Includes(a, b) && !IsZero(b) {
      NonZero(a, b);
    }
  }

  /** A pair whose interests stay the same while its needs change, so that no update is sent. */
  ghost predicate Drifts(was: Pair, now: Pair) {
    was.interests == now.interests && was.needs != now.needs
  }

  /** A subscription that asks for nothing new, but needs less than all others do. */
  ghost predicate AsksForLess(rest: Pair, p: Pair)
    requires |rest.interests| == |p.interests| && |rest.needs| == |p.needs|
  {
    Words.Includes(rest.interests, p.interests) && !Words.Includes(p.needs, rest.needs)
  }

  lemma DriftsExactlyWhen(alone: bool, rest: Pair, p: Pair, all: Pair)
    requires |rest.interests| == |p.interests| && |rest.needs| == |p.needs|
    requires Joins(alone, rest, p, all) && (IsZero(p.interests) ==> IsZero(p.needs))
    ensures Drifts(rest, all) <==> AsksForLess(rest, p)
    ensures Drifts(all, rest) <==> AsksForLess(rest, p)
    ensures AsksForLess(rest, p) ==> all.needs == AndVec(rest.needs, p.needs)
  {
    OrIsSame(rest.interests, p.interests);
    AndIsSame(rest.needs, p.needs);
    if alone {
      ZeroIncludes(p.needs, rest.needs);
      ZeroIncludes(rest.interests, p.interests);
      if Words.Includes(rest.interests, p.interests) {
        ZeroIncludes(rest.needs, p.needs);
        SameVec(rest.needs, p.needs);
      }
    }
  }

  /** What one more pair does to what has been heard: after it, that is too little; when it is gone again, it is not. */
  lemma JoinedDrift(alone: bool, rest: Pair, p: Pair, all: Pair)
    requires |rest.interests| == |p.interests| && |rest.needs| == |p.needs|
    requires Joins(alone, rest, p, all) && (IsZero(p.interests) ==> IsZero(p.needs))
    ensures Drifts(rest, all) <==> AsksForLess(rest, p)
    ensures Drifts(all, rest) <==> AsksForLess(rest, p)
    ensures AsksForLess(rest, p) && !IsZero(rest.interests) ==> !Heard(Some(rest), all) && Heard(Some(all), rest)
  {
    DriftsExactlyWhen(alone, rest, p, all);
    if AsksForLess(rest, p) && !IsZero(rest.interests) {
      Drifted(rest, p, all);
    }
  }

  /** Subscribing (from `rest` to `all`) and unsubscribing (from `all` to `rest`) make the needs of a remote drift from its
      interests exactly when the subscription asks for less than all others do. After subscribing, what the remote has
      heard before is then too little; after unsubscribing it is not. */
  lemma NeedsDriftExactlyWhen(subs: seq<Pair>, k: nat, p: Pair, peers: seq<Peer>, d: nat, n: nat)
    requires k <= |subs| && d < |peers| && Sized(p, n) && p.needs == FuzzyHash(p.interests)
    ensures var (rest, all) := (OutPair(subs, peers, d, n), OutPair(WithSub(subs, k, p), peers, d, n));
      && (Drifts(rest, all) <==> AsksForLess(rest, p))
      && (Drifts(all, rest) <==> AsksForLess(rest, p))
      && (AsksForLess(rest, p) && !IsZero(rest.interests) ==> !Heard(Some(rest), all) && Heard(Some(all), rest))
  {
    PairWithSub(subs, k, p, peers, d, n);
    FuzzyHashZero(p.interests);
    hide OutPair, FuzzyHash;
    JoinedDrift(Alone(subs, peers, d), OutPair(subs, peers, d, n), p, OutPair(WithSub(subs, k, p), peers, d, n));
  }

  /** The same for a pair that another remote `e` sends (from `rest` to `all`) or withdraws (from `all` to `rest`), whatever
      its needs are. */
  lemma HeardDriftExactlyWhen(subs: seq<Pair>, peers: seq<Peer>, e: nat, p: Pair, d: nat, n: nat)
    requires d < |peers| && e < |peers| && e != d && Sized(p, n) && !IsZero(p.interests)
    ensures
      var rest := OutPair(subs, WithHeard(peers, e, None), d, n);
      var all := OutPair(subs, WithHeard(peers, e, Some(p)), d, n);
      && (Drifts(rest, all) <==> AsksForLess(rest, p))
      && (Drifts(all, rest) <==> AsksForLess(rest, p))
      && (AsksForLess(rest, p) && !IsZero(rest.interests) ==> !Heard(Some(rest), all) && Heard(Some(all), rest))
  {
    var rest := WithHeard(peers, e, None);
    PairWithHeard(subs, peers, e, p, d, n);
    hide OutPair;
    JoinedDrift(Alone(subs, rest, d), OutPair(subs, rest, d, n), p, OutPair(subs, WithHeard(peers, e, Some(p)), d, n));
  }

  /** One pair takes the place of another: the interests differ only in bits that others ask for as well, and the needs
      in a bit that all others need. */
  ghost predicate ShiftsNeeds(alone: bool, rest: Pair, q: Pair, p: Pair)
    requires |rest.interests| == |p.interests| == |q.interests| && |rest.needs| == |p.needs| == |q.needs|
  {
    && Words.Includes(rest.interests, XorVec(q.interests, p.interests))
    && (if alone then q.needs != p.needs else !IsZero(AndVec(rest.needs, XorVec(q.needs, p.needs))))
  }

  lemma SameUnion(a: Vec, q: Vec, p: Vec)
    requires |a| == |q| == |p|
    ensures OrVec(a, q) == OrVec(a, p) <==> Words.Includes(a, XorVec(q, p))
  {
    if Words.Includes(a, XorVec(q, p)) {
      forall i, j | 0 <= i < |a| && 0 <= j < 64
        ensures OrVec(a, q)[i][j] == OrVec(a, p)[i][j]
      {
        assert WordIncludes(a[i], XorVec(q, p)[i]);
      }
      SameBits(OrVec(a, q), OrVec(a, p));
    } else {
      var i :| 0 <= i < |a| && !WordIncludes(a[i], XorVec(q, p)[i]);
      var j :| 0 <= j < 64 && XorVec(q, p)[i][j] && !a[i][j];
      assert OrVec(a, q)[i][j] != OrVec(a, p)[i][j];
    }
  }

  lemma SameCommon(a: Vec, q: Vec, p: Vec)
    requires |a| == |q| == |p|
    ensures AndVec(a, q) == AndVec(a, p) <==> IsZero(AndVec(a, XorVec(q, p)))
  {
    var x := AndVec(a, XorVec(q, p));
    if IsZero(x) {
      forall i, j | 0 <= i < |a| && 0 <= j < 64
        ensures AndVec(a, q)[i][j] == AndVec(a, p)[i][j]
      {
        assert x[i] == Zero();
      }
      SameBits(AndVec(a, q), AndVec(a, p));
    } else {
      var i :| 0 <= i < |a| && x[i] != Zero();
      NonZeroWord(x[i]);
      var j :| 0 <= j < 64 && x[i][j];
      assert AndVec(a, q)[i][j] != AndVec(a, p)[i][j];
    }
  }

  /** When another remote `e` sends `p` after `q`, needs drift exactly under this condition. */
  lemma ReplacedDriftExactlyWhen(subs: seq<Pair>, peers: seq<Peer>, e: nat, q: Pair, p: Pair, d: nat, n: nat)
    requires d < |peers| && e < |peers| && e != d && Sized(p, n) && Sized(q, n)
    ensures var rest := WithHeard(peers, e, None);
      Drifts(OutPair(subs, WithHeard(peers, e, Some(q)), d, n), OutPair(subs, WithHeard(peers, e, Some(p)), d, n))
      <==> ShiftsNeeds(Alone(subs, rest, d), OutPair(subs, rest, d, n), q, p)
  {
    var rest := OutPair(subs, WithHeard(peers, e, None), d, n);
    PairWithHeard(subs, peers, e, p, d, n);
    PairWithHeard(subs, peers, e, q, d, n);
    hide OutPair;
    SameUnion(rest.interests, q.interests, p.interests);
    SameCommon(rest.needs, q.needs, p.needs);
  }

  /** When a node stores `now` for one remote where it has stored `was`, and `rest` is what it has from all others, needs
      drift exactly under this condition. */
  ghost predicate Shifts(alone: bool, rest: Pair, was: Option<Pair>, now: Option<Pair>)
    requires forall p | was == Some(p) || now == Some(p) :: |rest.interests| == |p.interests| && |rest.needs| == |p.needs|
  {
    match (was, now)
    case (None, None) => false
    case (None, Some(p)) => AsksForLess(rest, p)
    case (Some(q), None) => AsksForLess(rest, q)
    case (Some(q), Some(p)) => ShiftsNeeds(alone, rest, q, p)
  }

  /** A pair that can be stored: it has interests. */
  ghost predicate Storable(o: Option<Pair>, n: nat) {
    o.Some? ==> Sized(o.value, n) && !IsZero(o.value.interests)
  }

  /** Whatever a node stores for remote `e`, for the first time, in the place of something else, or not any more, the
      needs of remote `d` drift from its interests exactly under this condition. */
  lemma StoringDriftsExactlyWhen(
      subs: seq<Pair>, peers: seq<Peer>, e: nat, was: Option<Pair>, now: Option<Pair>, d: nat, n: nat)
    requires d < |peers| && e < |peers| && e != d && Storable(was, n) && Storable(now, n)
    ensures var rest := WithHeard(peers, e, None);
      Drifts(OutPair(subs, WithHeard(peers, e, was), d, n), OutPair(subs, WithHeard(peers, e, now), d, n))
      <==> Shifts(Alone(subs, rest, d), OutPair(subs, rest, d, n), was, now)
  {
    hide OutPair, AsksForLess, ShiftsNeeds, Alone;
    if was.Some? && now.Some? {
      ReplacedDriftExactlyWhen(subs, peers, e, was.value, now.value, d, n);
    } else if was.Some? || now.Some? {
      HeardDriftExactlyWhen(subs, peers, e, if was.Some? then was.value else now.value, d, n);
    }
  }

  /** The same bits occur in some source, and in all of them. */
  ghost predicate Alike(c: Sources, d: Sources) {
    && (SomeSource(d) <==> SomeSource(c))
    && (forall i, j :: SomeHas(d, i, j) <==> SomeHas(c, i, j))
    && (forall i, j :: AllHave(d, i, j) <==> AllHave(c, i, j))
  }

  lemma AlikeInserted(c: Sources, k: nat)
    requires k <= |c|
    ensures Alike(c, Tally.Insert(c, k, None))
  {
    var d := Tally.Insert(c, k, None);
    forall x | 0 <= x < |c|
      ensures d[if x < k then x else x + 1] == c[x]
    {
    }
    assert d[k] == None && forall x | 0 <= x <= |c| && x != k :: d[x] == c[if x < k then x else x - 1];
  }

  lemma NothingInserted(c: Sources, k: nat, n: nat)
    requires k <= |c|
    ensures UnionOver(Tally.Insert(c, k, None), n) == UnionOver(c, n)
    ensures IntersectionOver(Tally.Insert(c, k, None), n) == IntersectionOver(c, n)
  {
    var d := Tally.Insert(c, k, None);
    AlikeInserted(c, k);
    forall i, j | 0 <= i < n && 0 <= j < 64
      ensures UnionOver(d, n)[i][j] == UnionOver(c, n)[i][j] && IntersectionOver(d, n)[i][j] == IntersectionOver(c, n)[i][j]
    {
      assert UnionOver(d, n)[i][j] == SomeHas(d, i, j) && UnionOver(c, n)[i][j] == SomeHas(c, i, j);
      assert IntersectionOver(d, n)[i][j] == (SomeSource(d) && AllHave(d, i, j));
      assert IntersectionOver(c, n)[i][j] == (SomeSource(c) && AllHave(c, i, j));
    }
    SameBits(UnionOver(d, n), UnionOver(c, n));
    SameBits(IntersectionOver(d, n), IntersectionOver(c, n));
  }

  /** To delete a remote is to withdraw what it has told, as far as the others are concerned. */
  lemma DeletedIsWithdrawn(subs: seq<Pair>, peers: seq<Peer>, e: nat, d: nat, n: nat)
    requires d < |peers| && e < |peers| && e != d
    ensures OutPair(subs, Dropped(peers, e), if e < d then d - 1 else d, n) == OutPair(subs, WithHeard(peers, e, None), d, n)
  {
    var (all, rest) := (WithHeard(peers, e, None), Dropped(peers, e));
    assert rest == all[..e] + all[e + 1..];
    RemovedPeer(subs, all, e);
    var (x, y) := (|subs| + (if e < d then d - 1 else d), |subs| + e);
    var (ci, cn) := (InterestSources(subs, rest), NeedSources(subs, rest));
    assert Tally.Insert(ci, y, None)[|subs| + d := None] == Tally.Insert(ci[x := None], y, None);
    assert Tally.Insert(cn, y, None)[|subs| + d := None] == Tally.Insert(cn[x := None], y, None);
    NothingInserted(ci[x := None], y, n);
    NothingInserted(cn[x := None], y, FH_CHUNKS);
  }

  lemma Drifted(rest: Pair, p: Pair, all: Pair)
    requires |rest.interests| == |p.interests| && |rest.needs| == |p.needs|
    requires AsksForLess(rest, p) && rest.interests == all.interests && all.needs == AndVec(rest.needs, p.needs)
    requires !IsZero(rest.interests)
    ensures !Heard(Some(rest), all) && Heard(Some(all), rest)
  {
    AndIsSame(rest.needs, p.needs);
    assert Words.Includes(all.interests, all.interests);
    if Words.Includes(all.needs, rest.needs) {
      IncludesTransitive(p.needs, all.needs, rest.needs);
    }
  }

  /** What was sent before a subscription that asks for less rejects its own publications, although what is due from
      then on always accepts them. */
  lemma StaleNeedsReject(subs: seq<Pair>, k: nat, p: Pair, peers: seq<Peer>, d: nat, n: nat)
    requires k <= |subs| && d < |peers| && Sized(p, n) && p.needs == FuzzyHash(p.interests) && !IsZero(p.interests)
    ensures var (sent, due) := (OutPair(subs, peers, d, n), OutPair(WithSub(subs, k, p), peers, d, n));
      && Accepts(p.interests, due)
      && (Words.Includes(sent.interests, p.interests) ==> (Accepts(p.interests, sent) <==> !AsksForLess(sent, p)))
  {
    var (sent, due) := (OutPair(subs, peers, d, n), OutPair(WithSub(subs, k, p), peers, d, n));
    PairWithSub(subs, k, p, peers, d, n);
    FuzzyHashZero(p.interests);
    hide OutPair, FuzzyHash;
    AndIsSame(sent.needs, p.needs);
    OrIsSame(sent.interests, p.interests);
    assert Words.Includes(p.needs, p.needs) && Words.Includes(p.interests, p.interests);
    CoversAccepts(p.interests, due, p.interests);
    AndIsSame(p.interests, sent.interests);
  }

  /** What a remote is due at a node. */
  ghost function Due(node: Node, d: nat): Pair
    requires |node.counted| == |node.subs| && |node.held| == |node.peers| && d < |node.peers|
    reads node
  {
    OutPair(node.CountedSubs(), node.CountedPeers(), d, node.n)
  }

  /** Updates what a remote was sent, and tells whether this is sent: exactly if the interests have changed. */
  method UpdateAgain(node: Node, d: nat, ghost was: Pair) returns (changes: bool)
    requires node.WellSized() && node.Conserved() && d < |node.peers| && node.held[d]
    requires node.peers[d].state != MeshNode.Unlinking && node.peers[d].out.pair == Some(was)
    modifies node, node.Repr()
    ensures node.WellSized() && node.Conserved() && |node.peers| == |old(node.peers)|
    ensures Due(node, d) == old(Due(node, d)) && node.peers[d].out.pair == Some(Due(node, d))
    ensures changes <==> was.interests != Due(node, d).interests
  {
    hide OutPair, Kept, Held, NewOutbound, Node.Conserved;
    SentAgain(node.CountedSubs(), node.CountedPeers(), d, node.n, was);
    ghost var (subs, peers) := (node.CountedSubs(), node.CountedPeers());
    var ret;
    ret, changes := node.UpdateOutbound(d);
    DueAgain(subs, peers, d, node.n, node.peers[d].out);
  }

  /** A node subscribes and then updates what a remote is due. No update is sent although the pair has changed, exactly
      when the subscription asks for less than all others do. */
  method SubscribeAndUpdate(node: Node, p: Pair, d: nat) returns (changes: bool)
    requires node.WellSized() && node.Conserved() && |node.interests.Contents()| < CV_MAX
    requires Sized(p, node.n) && p.needs == FuzzyHash(p.interests)
    requires d < |node.peers| && node.held[d] && node.peers[d].state != MeshNode.Unlinking
    requires node.peers[d].out.pair == Some(Due(node, d))
    modifies node, node.Repr()
    ensures node.WellSized() && node.Conserved() && |node.peers| == |old(node.peers)|
    ensures Due(node, d) == old(OutPair(WithSub(node.CountedSubs(), 0, p), node.CountedPeers(), d, node.n))
    ensures node.peers[d].out.pair == Some(Due(node, d))
    ensures !changes && Due(node, d) != old(Due(node, d)) <==> AsksForLess(old(Due(node, d)), p)
  {
    hide OutPair, Kept, Held, FuzzyHash, AsksForLess, Heard, Node.Conserved;
    ghost var (was, subs, peers) := (Due(node, d), node.CountedSubs(), node.CountedPeers());
    NeedsDriftExactlyWhen(subs, 0, p, peers, d, node.n);
    assert WithSub(subs, 0, p) == [p] + subs;
    KeptFront(p, true, node.subs, node.counted);
    var ret := node.Subscribe(p);
    changes := UpdateAgain(node, d, was);
  }

  /** What a node has from everyone but remote `e`, as far as remote `d` is concerned. */
  ghost function DueFromOthers(node: Node, e: nat, d: nat): Pair
    requires |node.counted| == |node.subs| && |node.held| == |node.peers| && d < |node.peers| && e < |node.peers|
    reads node
  {
    OutPair(node.CountedSubs(), WithHeard(node.CountedPeers(), e, None), d, node.n)
  }

  lemma HeldAgain(peers: seq<Peer>, held: seq<bool>, e: nat, was: Option<Pair>, now: Option<Pair>)
    requires |peers| == |held| && e < |peers| && held[e] && peers[e].inbound == was
    ensures var ps := Held(peers, held);
      && ps == WithHeard(ps, e, was) && Held(peers[e := peers[e].(inbound := now)], held) == WithHeard(ps, e, now)
  {
  }

  /** A node hears from remote `e` and then updates what remote `d` is due. If there is room for what it has heard, no update
      is sent although the pair has changed, exactly under the condition for what it has stored before and stores now. */
  method HearAndUpdate(node: Node, e: nat, received: Pair, isDelta: bool, d: nat) returns (changes: bool)
    requires node.WellSized() && node.Conserved() && Sized(received, node.n)
    requires e < |node.peers| && d < |node.peers| && e != d && node.held[e] && node.held[d]
    requires Storable(node.peers[e].inbound, node.n) && (node.interests.entries < CV_MAX || node.peers[e].inbound.Some?)
    requires node.peers[d].state != MeshNode.Unlinking && node.peers[d].out.pair == Some(Due(node, d))
    modifies node, node.Repr()
    ensures node.WellSized() && node.Conserved() && |node.peers| == |old(node.peers)|
    ensures node.peers[d].out.pair == Some(Due(node, d))
    ensures
      var (was, now) := (old(node.peers)[e].inbound, NewInbound(old(node.peers)[e].inbound, received, isDelta));
      var rest := old(DueFromOthers(node, e, d));
      !changes && Due(node, d) != old(Due(node, d)) <==>
        Shifts(old(Alone(node.CountedSubs(), WithHeard(node.CountedPeers(), e, None), d)), rest, was, now)
  {
    hide OutPair, Kept, Held, AsksForLess, ShiftsNeeds, Alone, Heard, NewInbound, Node.Conserved;
    ghost var (due, subs, peers) := (Due(node, d), node.CountedSubs(), node.CountedPeers());
    ghost var (was, now) := (node.peers[e].inbound, NewInbound(node.peers[e].inbound, received, isDelta));
    NewIsStorable(was, received, isDelta, node.n);
    HeldAgain(node.peers, node.held, e, was, now);
    StoringDriftsExactlyWhen(subs, peers, e, was, now, d, node.n);
    node.UpdateInbound(e, received, isDelta);
    assert node.held == old(node.held) && node.CountedPeers() == WithHeard(peers, e, now);
    changes := UpdateAgain(node, d, due);
  }

  lemma NewIsStorable(stored: Option<Pair>, received: Pair, isDelta: bool, n: nat)
    requires Storable(stored, n) && Sized(received, n)
    ensures Storable(NewInbound(stored, received, isDelta), n)
  {
  }

  // ---- subscriptions with an empty filter ----

  /** Whether a node sends a publication to a remote for which it has stored a pair, or nothing. */
  ghost predicate Sends(pub: Vec, stored: Option<Pair>)
    requires stored.Some? ==> |pub| == |stored.value.interests| && |stored.value.needs| == FH_CHUNKS
  {
    stored.Some? && Accepts(pub, stored.value)
  }

  lemma ZeroNeeds(st: Station, d: nat, k: nat, n: nat)
    requires d < |st.peers| && k < |st.subs| && |st.subs[k].needs| == FH_CHUNKS && IsZero(st.subs[k].needs)
    ensures IsZero(OutPair(st.subs, st.peers, d, n).needs)
  {
    var cn := NeedSources(st.subs, st.peers)[|st.subs| + d := None];
    var v := IntersectionOver(cn, FH_CHUNKS);
    assert cn[k] == Some(st.subs[k].needs);
    SourceBounds(cn, k, FH_CHUNKS);
    if !IsZero(v) {
      NonZero(st.subs[k].needs, v);
    }
  }

  /** A subscription with an empty filter takes away all needs: a node that has heard of it is then sent a publication
      exactly if the publication shares a bit with the other interests there. */
  lemma EmptyFilterServedExactlyWhen(st: Station, d: nat, k: nat, f: Vec, n: nat, pub: Vec)
    requires d < |st.peers| && k < |st.subs| && st.subs[k] == Pair(f, FuzzyHash(f)) && IsZero(f) && |pub| == n
    ensures var p := OutPair(st.subs, st.peers, d, n);
      Sends(pub, Stored(p)) <==> !IsZero(AndVec(pub, p.interests))
  {
    var p := OutPair(st.subs, st.peers, d, n);
    FuzzyHashZero(f);
    ZeroNeeds(st, d, k, n);
    hide OutPair, FuzzyHash;
    FuzzyHashZero(AndVec(pub, p.interests));
    ZeroIncludes(FuzzyHash(AndVec(pub, p.interests)), p.needs);
    if IsZero(p.interests) {
      AndZero(pub, p.interests);
    }
  }

  /** If all that a node has to tell is a subscription with an empty filter, nothing is stored for it and nothing is sent. */
  lemma EmptyFilterAlone(st: Station, d: nat, f: Vec, pub: Vec)
    requires d < |st.peers| && st.subs == [Pair(f, FuzzyHash(f))] && IsZero(f) && |pub| == |f|
    requires forall e | 0 <= e < |st.peers| && e != d :: st.peers[e].inbound.None?
    ensures var p := OutPair(st.subs, st.peers, d, |f|);
      Stored(p) == None && !Sends(pub, Stored(p))
  {
    var ci := InterestSources(st.subs, st.peers)[1 + d := None];
    forall i | 0 <= i < |f|
      ensures UnionOver(ci, |f|)[i] == Zero()
    {
      assert forall k | 0 <= k < |ci| && ci[k].Some? :: k == 0 && ci[k] == Some(f);
      assert forall j | 0 <= j < 64 :: !UnionOver(ci, |f|)[i][j];
    }
  }

  /** So no publication reaches a node whose one subscription is `#`, although every publication matches it. */
  lemma LoneHashIsNotServed(p: CString, seps: set<char>, hash: Hasher, st: Station, d: nat, f: Vec, pub: Vec)
    requires Accepted(p, seps, PubTopic) && Accepted([FINAL_WILDC], seps, SubTopic)
    requires Filled(ZeroVec(|f|), hash, Items([FINAL_WILDC], seps, SubTopic), f) && |pub| == |f|
    requires d < |st.peers| && st.subs == [Pair(f, FuzzyHash(f))]
    requires forall e | 0 <= e < |st.peers| && e != d :: st.peers[e].inbound.None?
    ensures Matches(p, [FINAL_WILDC], seps, false)
    ensures var pair := OutPair(st.subs, st.peers, d, |f|);
      Stored(pair) == None && !Sends(pub, Stored(pair))
  {
    var s := [FINAL_WILDC];
    SpanEndUnique(s, 0, WILDCARDS, 0);
    SpanEndUnique(s, 0, seps, 1);
    assert Items(s, seps, SubTopic) == {};
    forall i | 0 <= i < |f|
      ensures f[i] == Zero()
    {
      forall j | 0 <= j < 64
        ensures !f[i][j]
      {
        assert !TestAt(f, 64 * i + j);
      }
    }
    EmptyFilterAlone(st, d, f, pub);
  }

  /** A hash tells counts apart up to its saturation. */
  lemma HashesDiffer(wide: Vec, narrow: Vec)
    requires PopCount(narrow) < PopCount(wide) && PopCount(narrow) <= 62
    ensures !Words.Includes(FuzzyHash(narrow), FuzzyHash(wide))
  {
    var c := PopCount(narrow);
    assert FuzzyHash(wide)[3][c] && !FuzzyHash(narrow)[3][c];
  }

  lemma {:induction false} CountLowBits(n: nat, k: nat)
    requires n <= 64 && k <= 64
    ensures Words.CountTo(LowBits(n), k) == if k <= n then k else n
  {
    if k > 0 {
      CountLowBits(n, k - 1);
    }
  }

  /** Filters of one chunk: the first two bits, and only the first one. */
  lemma WideAndNarrow()
    ensures Words.Includes([LowBits(2)], [LowBits(1)]) && !IsZero([LowBits(1)])
    ensures !Words.Includes(FuzzyHash([LowBits(1)]), FuzzyHash([LowBits(2)]))
  {
    CountLowBits(1, 64);
    CountLowBits(2, 64);
    assert PopTo([LowBits(1)], 1) == 1 && PopTo([LowBits(2)], 1) == 2;
    HashesDiffer([LowBits(2)], [LowBits(1)]);
    PopCountZero([LowBits(1)]);
  }

  /** A run in which needs drift: the second subscription of a node changes what its neighbour is due, no update is sent,
      and what the neighbour has been sent rejects a publication that what it is due accepts. */
  method DriftingRun() returns (node: Node, sent: Pair, first: bool, second: bool)
    ensures fresh(node) && first && !second
    ensures node.WellSized() && |node.peers| == 1 && node.peers[0].out.pair.Some?
    ensures Sized(sent, 1) && Sized(node.peers[0].out.pair.value, 1)
    ensures !Accepts([LowBits(1)], sent) && Accepts([LowBits(1)], node.peers[0].out.pair.value)
  {
    hide OutPair, Kept, Held, TalliedNode, FuzzyHash, NewOutbound, Accepts;
    var wide := Pair([LowBits(2)], FuzzyHash([LowBits(2)]));
    var narrow := Pair([LowBits(1)], FuzzyHash([LowBits(1)]));
    WideAndNarrow();
    node := new Node(1);
    node.NothingCounted();
    node.AddPeer(0);
    ghost var peers := node.CountedPeers();
    var ret := node.Subscribe(wide);
    KeptFront(wide, true, [], []);
    AllKept([], []);
    assert WithSub([], 0, wide) == [wide] == node.subs && node.counted == [true];
    SentFirst(node.CountedSubs(), peers, 0, 1);
    DueAgain(node.CountedSubs(), peers, 0, 1, node.peers[0].out);
    ret, first := node.UpdateOutbound(0);
    DueAgain(node.CountedSubs(), peers, 0, 1, node.peers[0].out);
    sent := node.peers[0].out.pair.value;
    AsksForLessThanWide(peers, wide, narrow);
    StaleNeedsReject(node.CountedSubs(), 0, narrow, node.CountedPeers(), 0, 1);
    second := SubscribeAndUpdate(node, narrow, 0);
  }

  lemma AsksForLessThanWide(peers: seq<Peer>, wide: Pair, narrow: Pair)
    requires |peers| == 1 && Sized(wide, 1) && Sized(narrow, 1) && wide.needs == FuzzyHash(wide.interests)
    requires Words.Includes(wide.interests, narrow.interests) && !Words.Includes(narrow.needs, wide.needs)
    ensures AsksForLess(OutPair(WithSub([], 0, wide), peers, 0, 1), narrow)
  {
    PairWithSub([], 0, wide, peers, 0, 1);
    var (none, sent) := (OutPair([], peers, 0, 1), OutPair(WithSub([], 0, wide), peers, 0, 1));
    OrIsSame(none.interests, wide.interests);
    IncludesTransitive(sent.interests, wide.interests, narrow.interests);
  }
}
