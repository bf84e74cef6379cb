/** The interests and needs of a node: what it has received, what it counts, and what it sends on. */
module Interests {
  import opened Options
  import opened Words
  import opened BitVectors
  import opened CountVectors
  import opened MeshNode
  import opened Tally

  /** A Bloom filter (or a union of them) and the matching fuzzy hash (or intersection of them). */
  datatype Pair = Pair(interests: Vec, needs: Vec)

  datatype Outbound = Outbound(pair: Option<Pair>, delta: Option<Vec>, deltaInd: bool, revision: nat)

  datatype Peer = Peer(addr: nat, state: RemoteState, inbound: Option<Pair>, out: Outbound)

  type Sources = seq<Option<Vec>>

  /** The interests a node has received and not lost: those of its own subscriptions, then those of its remotes. */
  ghost function InterestSources(subs: seq<Pair>, peers: seq<Peer>): (c: Sources)
    ensures |c| == |subs| + |peers|
  {
    seq(|subs|, i requires 0 <= i < |subs| => Some(subs[i].interests))
    + seq(|peers|, i requires 0 <= i < |peers| => First(peers[i].inbound))
  }

  ghost function NeedSources(subs: seq<Pair>, peers: seq<Peer>): (c: Sources)
    ensures |c| == |subs| + |peers|
  {
    seq(|subs|, i requires 0 <= i < |subs| => Some(subs[i].needs))
    + seq(|peers|, i requires 0 <= i < |peers| => Second(peers[i].inbound))
  }

  ghost function First(o: Option<Pair>): Option<Vec> {
    if o.Some? then Some(o.value.interests) else None
  }

  ghost function Second(o: Option<Pair>): Option<Vec> {
    if o.Some? then Some(o.value.needs) else None
  }

  /** The bits that some source has. */
  ghost function UnionOver(c: Sources, n: nat): (r: Vec)
    ensures |r| == n
    ensures forall i, j | 0 <= i < n && 0 <= j < 64 ::
      r[i][j] <==> exists k | 0 <= k < |c| :: c[k].Some? && HasBit(c[k].value, i, j)
  {
    seq(n, i requires 0 <= i < n => seq(64, j requires 0 <= j < 64 =>
      exists k | 0 <= k < |c| :: c[k].Some? && HasBit(c[k].value, i, j)))
  }

  /** The bits that every source has; none when there is no source. */
  ghost function IntersectionOver(c: Sources, n: nat): (r: Vec)
    ensures |r| == n
    ensures forall i, j | 0 <= i < n && 0 <= j < 64 ::
      r[i][j] <==> ((exists k | 0 <= k < |c| :: c[k].Some?)
                    && (forall k | 0 <= k < |c| && c[k].Some? :: HasBit(c[k].value, i, j)))
  {
    seq(n, i requires 0 <= i < n => seq(64, j requires 0 <= j < 64 =>
      && (exists k | 0 <= k < |c| :: c[k].Some?)
      && (forall k | 0 <= k < |c| && c[k].Some? :: HasBit(c[k].value, i, j))))
  }

  /** What the count vectors compute from their contents is what the sources say. */
  lemma TalliedUnion(ms: Members, c: Sources, n: nat)
    requires Tallies(ms, c)
    ensures UnionOf(ms, n) == UnionOver(c, n)
  {
    forall i, j | 0 <= i < n && 0 <= j < 64
      ensures UnionOf(ms, n)[i][j] == UnionOver(c, n)[i][j]
    {
      if v :| v in ms && HasBit(v, i, j) {
        TalliesMember(ms, c, v);
      }
      if k :| 0 <= k < |c| && c[k].Some? && HasBit(c[k].value, i, j) {
        TalliesMember(ms, c, c[k].value);
      }
    }
    SameBits(UnionOf(ms, n), UnionOver(c, n));
  }

  lemma TalliedIntersection(ms: Members, c: Sources, n: nat)
    requires Tallies(ms, c)
    ensures IntersectionOf(ms, n) == IntersectionOver(c, n)
  {
    forall k | 0 <= k < |c| && c[k].Some?
      ensures c[k].value in ms
    {
      TalliesMember(ms, c, c[k].value);
    }
    forall v | v in ms
      ensures exists k | 0 <= k < |c| :: c[k] == Some(v)
    {
      TalliesMember(ms, c, v);
    }
    forall i, j | 0 <= i < n && 0 <= j < 64
      ensures IntersectionOf(ms, n)[i][j] == IntersectionOver(c, n)[i][j]
    {
    }
    SameBits(IntersectionOf(ms, n), IntersectionOver(c, n));
  }

  /** What a node tells remote `d`: the union and the intersection of all its other sources. */
  ghost function OutPair(subs: seq<Pair>, peers: seq<Peer>, d: nat, n: nat): Pair
    requires d < |peers|
  {
    Pair(UnionOver(InterestSources(subs, peers)[|subs| + d := None], n),
         IntersectionOver(NeedSources(subs, peers)[|subs| + d := None], FH_CHUNKS))
  }

  ghost predicate Sized(p: Pair, n: nat) {
    |p.interests| == n && |p.needs| == FH_CHUNKS
  }

  ghost predicate SizedPeers(peers: seq<Peer>, n: nat) {
    && (forall i | 0 <= i < |peers| && peers[i].inbound.Some? :: Sized(peers[i].inbound.value, n))
    && (forall i | 0 <= i < |peers| && peers[i].out.pair.Some? :: Sized(peers[i].out.pair.value, n))
  }

  /** The two count vectors hold exactly what the subscriptions and the stored inbound vectors contribute. */
  ghost predicate TalliedNode(interests: Members, needs: Members, subs: seq<Pair>, peers: seq<Peer>) {
    && Tallies(interests, InterestSources(subs, peers))
    && Tallies(needs, NeedSources(subs, peers))
  }

  // ---- which sources are counted ----

  /** The subscriptions that are counted. */
  ghost function Kept(subs: seq<Pair>, counted: seq<bool>): seq<Pair>
    requires |subs| == |counted|
  {
    if subs == [] then [] else (if counted[0] then [subs[0]] else []) + Kept(subs[1..], counted[1..])
  }

  lemma {:induction false} KeptAppend(a: seq<Pair>, x: seq<bool>, b: seq<Pair>, y: seq<bool>)
    requires |a| == |x| && |b| == |y|
    ensures Kept(a + b, x + y) == Kept(a, x) + Kept(b, y)
  {
    if a == [] {
      assert a + b == b && x + y == y;
    } else {
      KeptAppend(a[1..], x[1..], b, y);
      var first := if x[0] then [a[0]] else [];
      assert Kept(a + b, x + y) == first + Kept(a[1..] + b, x[1..] + y) by {
        assert (a + b)[1..] == a[1..] + b && (x + y)[1..] == x[1..] + y;
      }
      assert first + (Kept(a[1..], x[1..]) + Kept(b, y)) == (first + Kept(a[1..], x[1..])) + Kept(b, y);
    }
  }

  lemma KeptFront(sub: Pair, c: bool, subs: seq<Pair>, counted: seq<bool>)
    requires |subs| == |counted|
    ensures Kept([sub] + subs, [c] + counted) == if c then [sub] + Kept(subs, counted) else Kept(subs, counted)
  {
    KeptAppend([sub], [c], subs, counted);
  }

  lemma {:induction false} AllKept(subs: seq<Pair>, counted: seq<bool>)
    requires |subs| == |counted| && forall k | 0 <= k < |counted| :: counted[k]
    ensures Kept(subs, counted) == subs
  {
    if subs != [] {
      AllKept(subs[1..], counted[1..]);
    }
  }

  ghost function Dropped<T>(s: seq<T>, k: nat): seq<T>
    requires k < |s|
  {
    s[..k] + s[k + 1..]
  }

  /** What removing one subscription does to those that are counted; `j` is its place among them. */
  lemma KeptWithout(subs: seq<Pair>, counted: seq<bool>, k: nat) returns (j: nat)
    requires |subs| == |counted| && k < |subs|
    ensures counted[k] ==>
      && j < |Kept(subs, counted)| && Kept(subs, counted)[j] == subs[k]
      && Kept(Dropped(subs, k), Dropped(counted, k)) == Dropped(Kept(subs, counted), j)
    ensures !counted[k] ==> Kept(Dropped(subs, k), Dropped(counted, k)) == Kept(subs, counted)
  {
    var (a, x, b, y) := (subs[..k], counted[..k], subs[k + 1..], counted[k + 1..]);
    var (f, z) := ([subs[k]], [counted[k]]);
    assert subs == a + (f + b) && counted == x + (z + y);
    KeptAppend(a, x, f + b, z + y);
    KeptAppend(f, z, b, y);
    KeptAppend(a, x, b, y);
    j := |Kept(a, x)|;
  }

  /** The remotes, with what is stored for them as far as it is counted. */
  ghost function Held(peers: seq<Peer>, counted: seq<bool>): (r: seq<Peer>)
    requires |peers| == |counted|
    ensures |r| == |peers|
    ensures forall d | 0 <= d < |r| :: r[d] == if counted[d] then peers[d] else peers[d].(inbound := None)
  {
    seq(|peers|, d requires 0 <= d < |peers| => if counted[d] then peers[d] else peers[d].(inbound := None))
  }

  lemma HeldUpdated(peers: seq<Peer>, counted: seq<bool>, d: nat, peer: Peer, c: bool)
    requires |peers| == |counted| && d < |peers|
    ensures Held(peers[d := peer], counted[d := c])
      == Held(peers, counted)[d := if c then peer else peer.(inbound := None)]
  {
  }

  lemma HeldWithout(peers: seq<Peer>, counted: seq<bool>, d: nat)
    requires |peers| == |counted| && d < |peers|
    ensures Held(Dropped(peers, d), Dropped(counted, d)) == Dropped(Held(peers, counted), d)
  {
  }

  lemma HeldFilled(peers: seq<Peer>, counted: seq<bool>, d: nat, p: Pair, room: bool)
    requires |peers| == |counted| && d < |peers| && peers[d].inbound.None?
    ensures var ps := Held(peers, counted);
      var peer := peers[d].(inbound := Some(p));
      && Held(peers[d := peer], counted[d := room]) == (if room then ps[d := ps[d].(inbound := Some(p))] else ps)
      && Held(peers[d := peer], counted[d := room])[d := peer.(inbound := None)] == ps
      && ps[d].inbound.None?
  {
  }

  ghost predicate BothAdds(was: (Counting, Counting), p: Pair, now: (Counting, Counting)) {
    Adds(was.0, p.interests, now.0) && Adds(was.1, p.needs, now.1)
  }

  ghost predicate BothRemoves(was: (Counting, Counting), p: Pair, now: (Counting, Counting)) {
    Removes(was.0, p.interests, now.0) && Removes(was.1, p.needs, now.1)
  }

  ghost predicate BothExchange(was: (Counting, Counting), q: Pair, p: Pair, now: (Counting, Counting)) {
    Exchanges(was.0, q.interests, p.interests, now.0) && Exchanges(was.1, q.needs, p.needs, now.1)
  }

  lemma BothExchanging(was: (Counting, Counting), q: Pair, mid: (Counting, Counting), p: Pair, now: (Counting, Counting))
    requires BothRemoves(was, q, mid) && BothAdds(mid, p, now)
    requires |q.interests| == |p.interests| && |q.needs| == |p.needs|
    ensures BothExchange(was, q, p, now)
  {
    Exchanging(was.0, q.interests, mid.0, p.interests, now.0);
    Exchanging(was.1, q.needs, mid.1, p.needs, now.1);
  }

  /** The part of a node that counts interests. */
  class Node {
    const n: nat
    const interests: CountVector
    const needs: CountVector
    var subs: seq<Pair>
    var peers: seq<Peer>

    /** Which subscriptions, and which vectors stored for remotes, were counted. */
    ghost var counted: seq<bool>
    ghost var held: seq<bool>

    ghost predicate Separate() {
      && this !in interests.Repr() && this !in needs.Repr() && interests.Repr() !! needs.Repr()
      && interests.numChunks == n && needs.numChunks == FH_CHUNKS
      && interests.bvUnion != null && needs.bvUnion == null
    }

    ghost function Repr(): set<object> {
      interests.Repr() + needs.Repr()
    }

    ghost predicate Countable()
      reads Repr()
    {
      interests.Valid() && needs.Valid()
    }

    /** What holds whatever has been deleted. */
    ghost predicate Formed()
      reads Repr()
    {
      interests.Formed() && needs.Formed() && interests.entries == needs.entries
    }

    ghost function Now(): (Counting, Counting)
      requires Formed()
      reads Repr()
    {
      (interests.Now(), needs.Now())
    }

    ghost function Counts(): (Members, Members)
      reads interests, needs
    {
      (interests.Contents(), needs.Contents())
    }

    ghost predicate WellSized()
      reads this
    {
      && Separate() && |counted| == |subs| && |held| == |peers|
      && SizedPeers(peers, n) && (forall k | 0 <= k < |subs| :: Sized(subs[k], n))
    }

    ghost function CountedSubs(): seq<Pair>
      requires |counted| == |subs|
      reads this
    {
      Kept(subs, counted)
    }

    ghost function CountedPeers(): seq<Peer>
      requires |held| == |peers|
      reads this
    {
      Held(peers, held)
    }

    /** The count vectors hold exactly the sources that were counted. */
    ghost predicate Conserved()
      requires |counted| == |subs| && |held| == |peers|
      reads this, Repr()
    {
      && Countable()
      && TalliedNode(interests.Contents(), needs.Contents(), CountedSubs(), CountedPeers())
    }

    constructor (n: nat)
      ensures WellSized() && Conserved() && subs == [] && peers == [] && this.n == n && fresh(Repr())
    {
      this.n := n;
      interests := new CountVector(n, true);
      needs := new CountVector(FH_CHUNKS, false);
      subs, peers, counted, held := [], [], [], [];
    }

    lemma NothingCounted()
      requires WellSized() && Conserved() && subs == [] && peers == []
      ensures interests.Contents() == multiset{}
    {
    }

    /** A bit vector with given chunks. */
    method ToBits(v: Vec) returns (bv: BitVector)
      ensures fresh(bv) && fresh(bv.bits) && bv.Valid() && bv.Value() == v
    {
      bv := new BitVector(|v|);
      var ok := bv.Set(v);
    }

    method AddTo(cv: CountVector, v: Vec) returns (ret: Status)
      requires cv.Formed() && |v| == cv.numChunks
      modifies cv.Repr()
      ensures cv.Formed() && ret == if old(cv.entries) == CV_MAX then ErrResources else Ok
      ensures if ret == Ok then Adds(old(cv.Now()), v, cv.Now()) else unchanged(cv.Repr())
      ensures old(cv.Valid()) ==>
        cv.Valid() && cv.Contents() == if ret == Ok then old(cv.Contents()) + multiset{v} else old(cv.Contents())
    {
      var bv := ToBits(v);
      ret := cv.Add(bv);
    }

    /** Deletes a vector from a count vector; deleting one that is not in it spoils it. */
    method DelFrom(cv: CountVector, v: Vec) returns (ret: Status)
      requires cv.Formed() && |v| == cv.numChunks
      modifies cv.Repr()
      ensures cv.Formed() && ret == if old(cv.entries) == 0 then ErrArgs else Ok
      ensures if ret == Ok then Removes(old(cv.Now()), v, cv.Now()) else unchanged(cv.Repr())
    {
      var bv := ToBits(v);
      ret := cv.Del(bv);
    }

    lemma CountableIsFormed()
      requires Separate() && Countable() && interests.entries == needs.entries
      ensures Formed()
    {
      interests.ValidIsFormed();
      needs.ValidIsFormed();
    }

    /** Deletes a pair from both count vectors. */
    method DelPair(p: Pair) returns (ret: Status)
      requires Separate() && Formed() && Sized(p, n)
      modifies Repr()
      ensures Formed() && ret == if old(interests.entries) == 0 then ErrArgs else Ok
      ensures if ret == Ok then BothRemoves(old(Now()), p, Now()) else unchanged(Repr())
    {
      hide Less, UnionLess;
      ret := DelFrom(interests, p.interests);
      var ret2 := DelFrom(needs, p.needs);
      if ret == Ok {
        ret := ret2;
      }
    }

    /** Deletes a pair from count vectors that are right: whether they are still. */
    method Uncount(p: Pair) returns (ret: Status)
      requires Separate() && Countable() && Sized(p, n) && interests.entries == needs.entries
      modifies Repr()
      ensures Formed() && ret == if old(interests.entries) == 0 then ErrArgs else Ok
      ensures old(interests.entries) == 0 ==> Countable() && Counts() == old(Counts())
      ensures interests.entries == if old(interests.entries) > 0 then old(interests.entries) - 1 else 0
      ensures old(interests.entries) > 0 ==> old(Formed()) && BothRemoves(old(Now()), p, Now())
      ensures p.interests in old(interests.Contents()) && p.needs in old(needs.Contents()) ==>
        Countable() && Counts() == old((interests.Contents() - multiset{p.interests}, needs.Contents() - multiset{p.needs}))
      ensures old(interests.entries) > 0 ==>
        !interests.Valid() || |interests.Contents()| == |old(interests.Contents())| - 1
    {
      hide More, Less, UnionLess;
      CountableIsFormed();
      ret := DelPair(p);
      if interests.Valid() {
        interests.FewMembers();
      }
    }

    /** Adds a pair to both count vectors, which are full at the same time. */
    method AddPair(p: Pair)
      requires Separate() && Formed() && Sized(p, n)
      modifies Repr()
      ensures Formed()
      ensures if old(interests.entries) < CV_MAX then BothAdds(old(Now()), p, Now()) else unchanged(Repr())
      ensures old(Countable()) ==> Countable() && Counts() == old(
        if interests.entries == CV_MAX then Counts()
        else (interests.Contents() + multiset{p.interests}, needs.Contents() + multiset{p.needs}))
    {
      hide More;
      var ret := AddTo(interests, p.interests);
      ret := AddTo(needs, p.needs);
    }

    /** Counts a pair in addition to sources `ks` and `ps`, which makes them `ks'` and `ps'` if there is room. */
    method Count(p: Pair, ghost ks: seq<Pair>, ghost ps: seq<Peer>, ghost ks': seq<Pair>, ghost ps': seq<Peer>)
      returns (ret: Status)
      requires Separate() && Countable() && Sized(p, n) && interests.entries == needs.entries
      requires TalliedNode(interests.Contents(), needs.Contents(), ks, ps)
      requires interests.entries < CV_MAX ==>
        TalliedNode(interests.Contents() + multiset{p.interests}, needs.Contents() + multiset{p.needs}, ks', ps')
      requires interests.entries == CV_MAX ==> ks' == ks && ps' == ps
      modifies Repr()
      ensures Countable() && ret == if old(interests.entries) == CV_MAX then ErrResources else Ok
      ensures TalliedNode(interests.Contents(), needs.Contents(), ks', ps')
      ensures interests.entries == old(interests.entries) + if ret == Ok then 1 else 0
    {
      hide TalliedNode, Adds;
      interests.ValidIsFormed();
      needs.ValidIsFormed();
      ret := AddTo(interests, p.interests);
      if ret == Ok {
        ret := AddTo(needs, p.needs);
      }
    }

    /** A full count vector is the one case in which a subscription is linked but not counted. */
    method Subscribe(sub: Pair) returns (ret: Status)
      requires WellSized() && Conserved() && Sized(sub, n)
      modifies this, Repr()
      ensures WellSized() && Conserved() && peers == old(peers) && held == old(held)
      ensures subs == [sub] + old(subs) && counted == [ret == Ok] + old(counted)
      ensures ret == if |old(interests.Contents())| == CV_MAX then ErrResources else Ok
      ensures |interests.Contents()| == |old(interests.Contents())| + if ret == Ok then 1 else 0
    {
      hide TalliedNode, Kept, Held, CountVector.Valid;
      Balanced();
      ghost var (ks, ps, room) := (CountedSubs(), CountedPeers(), interests.entries < CV_MAX);
      NodeAdd(interests.Contents(), needs.Contents(), ks, ps, sub);
      KeptFront(sub, room, subs, counted);
      ret := Count(sub, ks, ps, Kept([sub] + subs, [room] + counted), ps);
      subs, counted := [sub] + subs, [room] + counted;
      Balanced();
    }

    lemma Balanced()
      requires WellSized() && Conserved()
      ensures Formed() && interests.entries == needs.entries
      ensures |interests.Contents()| == interests.entries && interests.entries <= CV_MAX
    {
      interests.FewMembers();
      needs.FewMembers();
      SameCounts(interests.Contents(), needs.Contents(), CountedSubs(), CountedPeers());
      CountableIsFormed();
    }

    /** Afterwards the counts match the sources if and only if the subscription was counted, or nothing is. */
    method Unsubscribe(k: nat) returns (ret: Status)
      requires WellSized() && Conserved() && k < |subs|
      modifies this, Repr()
      ensures WellSized() && peers == old(peers) && held == old(held)
      ensures subs == old(Dropped(subs, k)) && counted == old(Dropped(counted, k))
      ensures ret == if old(|interests.Contents()|) == 0 then ErrArgs else Ok
      ensures Conserved() <==> old(counted[k] || |interests.Contents()| == 0)
    {
      hide TalliedNode, Kept, Held, BothRemoves, CountVector.Valid, CountVector.Formed;
      Balanced();
      ghost var j := KeptWithout(subs, counted, k);
      ghost var (i, m, ks, ps) := (interests.Contents(), needs.Contents(), CountedSubs(), CountedPeers());
      if counted[k] {
        NodeRemove(i, m, ks, ps, j);
      }
      var p := subs[k];
      ghost var h := counted[k];
      subs, counted := subs[..k] + subs[k + 1..], Dropped(counted, k);
      ret := Discount(p, ks, ps, CountedSubs(), ps, h);
    }

    /** Likewise for what is stored for a remote. */
    method ClearInbound(d: nat) returns (ret: Status)
      requires WellSized() && Conserved() && d < |peers|
      modifies this, Repr()
      ensures WellSized() && subs == old(subs) && counted == old(counted)
      ensures peers == old(peers)[d := old(peers)[d].(inbound := None)] && held == old(held)[d := true]
      ensures Conserved() <==> old(held[d] || peers[d].inbound.None? || |interests.Contents()| == 0)
      ensures Formed() && old(Formed())
      ensures interests.entries == old(
        if interests.entries > 0 && peers[d].inbound.Some? then interests.entries - 1 else interests.entries)
      ensures old(peers)[d].inbound.Some? && old(interests.entries) > 0 ==>
        BothRemoves(old(Now()), old(peers)[d].inbound.value, Now())
    {
      hide TalliedNode, Kept, Held, BothRemoves;
      Balanced();
      ghost var (ks, ps, h) := (CountedSubs(), CountedPeers(), held[d]);
      var inbound := peers[d].inbound;
      ret := Ok;
      HeldUpdated(peers, held, d, peers[d].(inbound := None), true);
      peers, held := peers[d := peers[d].(inbound := None)], held[d := true];
      match inbound
      case None => assert ps[d := ps[d]] == ps;
      case Some(p) =>
        if h {
          NodeClear(interests.Contents(), needs.Contents(), ks, ps, d);
        } else {
          assert ps[d := ps[d]] == ps;
        }
        ret := Discount(p, ks, ps, ks, CountedPeers(), h);
    }

    /** Takes a pair out of the counts. They match the remaining sources `ks'` and `ps'` if it was counted, and otherwise only
        if nothing was. */
    method Discount(p: Pair, ghost ks: seq<Pair>, ghost ps: seq<Peer>, ghost ks': seq<Pair>, ghost ps': seq<Peer>,
                    ghost h: bool)
      returns (ret: Status)
      requires Separate() && Countable() && Sized(p, n) && TalliedNode(interests.Contents(), needs.Contents(), ks, ps)
      requires if !h then ks' == ks && ps' == ps else
        && p.interests in interests.Contents() && p.needs in needs.Contents()
        && TalliedNode(interests.Contents() - multiset{p.interests}, needs.Contents() - multiset{p.needs}, ks', ps')
      modifies Repr()
      ensures ret == if old(|interests.Contents()|) == 0 then ErrArgs else Ok
      ensures (Countable() && TalliedNode(interests.Contents(), needs.Contents(), ks', ps'))
        <==> h || old(|interests.Contents()|) == 0
      ensures Formed() && old(Formed())
      ensures interests.entries == if old(interests.entries) > 0 then old(interests.entries) - 1 else 0
      ensures old(interests.entries) > 0 ==> BothRemoves(old(Now()), p, Now())
    {
      hide TalliedNode, BothRemoves;
      ghost var (i, m) := (interests.Contents(), needs.Contents());
      SameCounts(i, m, ks, ps);
      interests.FewMembers();
      needs.FewMembers();
      CountableIsFormed();
      ret := Uncount(p);
      if !h && |i| > 0 && interests.Valid() {
        Spoiled(i, m, interests.Contents(), needs.Contents(), ks, ps);
      }
    }

    method DeletePeer(d: nat)
      requires WellSized() && Conserved() && d < |peers|
      modifies this, Repr()
      ensures WellSized() && subs == old(subs) && counted == old(counted)
      ensures peers == old(Dropped(peers, d)) && held == old(Dropped(held, d))
      ensures Conserved() <==> old(held[d] || peers[d].inbound.None? || |interests.Contents()| == 0)
    {
      hide BothRemoves, CountVector.Valid, CountVector.Formed, CountVector.Now, TalliedNode, Kept, Held;
      var ret := ClearInbound(d);
      HeldWithout(peers, held, d);
      ForgetExactly(interests.Contents(), needs.Contents(), CountedSubs(), CountedPeers(), d);
      peers, held := peers[..d] + peers[d + 1..], Dropped(held, d);
    }

    /** Adds a remote that nothing is known of yet. */
    method AddPeer(addr: nat)
      requires WellSized() && Conserved()
      modifies this
      ensures WellSized() && Conserved() && subs == old(subs) && counted == old(counted)
      ensures peers == [Peer(addr, New, None, Outbound(None, None, false, 0))] + old(peers) && held == [true] + old(held)
    {
      hide TalliedNode, Kept, Held;
      var peer := Peer(addr, New, None, Outbound(None, None, false, 0));
      ghost var (ps, hs) := ([peer] + peers, [true] + held);
      assert Dropped(ps, 0) == peers && Dropped(hs, 0) == held;
      HeldWithout(ps, hs, 0);
      ForgetExactly(interests.Contents(), needs.Contents(), CountedSubs(), Held(ps, hs), 0);
      peers, held := [peer] + peers, hs;
    }

    /** Stores what a SUB carries: the interests it spells out or the ones its delta leads to. Nothing is stored
        for empty interests, and only a full count vector can leave a stored vector uncounted. If the one stored before
        was not counted, although others were, the counts match the others afterwards exactly if the same pair is stored
        again and all its interests are asked for by others. */
    method UpdateInbound(d: nat, received: Pair, isDelta: bool)
      requires WellSized() && Conserved() && d < |peers| && Sized(received, n)
      modifies this, Repr()
      ensures WellSized() && subs == old(subs) && counted == old(counted)
      ensures peers == old(peers)[d := old(peers)[d].(inbound := NewInbound(old(peers)[d].inbound, received, isDelta))]
      ensures held == old(held)[d := held[d]]
      ensures old(Vouched(d) || interests.entries == 0) ==>
        && Conserved()
        && (held[d] <==> peers[d].inbound.None? || old(interests.entries < CV_MAX || peers[d].inbound.Some?))
      ensures !old(Vouched(d) || interests.entries == 0) ==>
        && (held[d] <==> peers[d].inbound.None?)
        && (Conserved() <==>
              peers[d].inbound == old(peers)[d].inbound && old(interests.Positive(peers[d].inbound.value.interests)))
      ensures
        var (was, now) := (old(peers)[d].inbound, peers[d].inbound);
        if isDelta && was.Some? then
          && (now.None? <==> received.interests == was.value.interests)
          && (now.Some? ==> now.value.needs == received.needs)
          && (now.Some? ==> |now.value.interests| == n)
          && (now.Some? ==> forall i, j | 0 <= i < n && 0 <= j < 64 ::
                now.value.interests[i][j] == (received.interests[i][j] != was.value.interests[i][j]))
        else now == if IsZero(received.interests) then None else Some(received)
    {
      InboundMeans(peers[d].inbound, received, isDelta);
      var received1 := Received(peers[d].inbound, received, isDelta);
      Replace(d, received1, received.needs);
    }

    method Replace(d: nat, bv: BitVector, ms: Vec)
      requires WellSized() && Conserved() && d < |peers|
      requires bv.Valid() && bv !in Repr() && bv.bits !in Repr() && Sized(Pair(bv.Value(), ms), n)
      modifies this, Repr(), bv
      ensures WellSized() && subs == old(subs) && counted == old(counted)
      ensures peers == old(peers)[d := old(peers)[d].(inbound :=
        if IsZero(old(bv.Value())) then None else Some(Pair(old(bv.Value()), ms)))]
      ensures held == old(held)[d := held[d]]
      ensures old(Vouched(d) || interests.entries == 0) ==>
        && Conserved()
        && (held[d] <==> peers[d].inbound.None? || old(interests.entries < CV_MAX || peers[d].inbound.Some?))
      ensures !old(Vouched(d) || interests.entries == 0) ==>
        && (held[d] <==> peers[d].inbound.None?)
        && (Conserved() <==>
              peers[d].inbound == old(peers)[d].inbound && old(interests.Positive(peers[d].inbound.value.interests)))
    {
      hide TalliedNode, Kept, Held, BothRemoves, BothAdds, BothExchange;
      hide CountVector.Valid, CountVector.Formed, CountVector.Now;
      Balanced();
      ghost var fine := Vouched(d) || interests.entries == 0;
      ghost var (was, stored) := (Now(), peers[d].inbound);
      var ret := ClearInbound(d);
      var clear := bv.IsClear();
      ghost var mid := Now();
      if !clear {
        var p := Pair(bv.bits[..], ms);
        Store(d, p);
        if !fine {
          BothExchanging(was, stored.value, mid, p, Now());
          CountedAgain((stored.value, p));
        }
      }
    }

    /** The interests that a message stands for. */
    method Received(stored: Option<Pair>, received: Pair, isDelta: bool) returns (bv: BitVector)
      requires Sized(received, n) && (stored.Some? ==> Sized(stored.value, n))
      ensures fresh(bv) && fresh(bv.bits) && bv.Valid()
      ensures bv.Value() == (
        if isDelta && stored.Some? then XorVec(received.interests, stored.value.interests) else received.interests)
    {
      bv := ToBits(received.interests);
      match stored {
        case None =>
        case Some(p) =>
          if isDelta {
            var before := ToBits(p.interests);
            var _ := bv.Xor(bv, before, false);
          }
      }
    }

    /** Counts a pair in addition to sources `ks` and `ps`, which makes them `ks` and `ps'` if there is room; or in addition
        to counts that are not right. */
    method CountStored(p: Pair, ghost right: bool, ghost ks: seq<Pair>, ghost ps: seq<Peer>, ghost ps': seq<Peer>)
      requires Separate() && Formed() && Sized(p, n)
      requires right ==> Countable() && TalliedNode(interests.Contents(), needs.Contents(), ks, ps)
      requires right && interests.entries < CV_MAX ==>
        TalliedNode(interests.Contents() + multiset{p.interests}, needs.Contents() + multiset{p.needs}, ks, ps')
      requires right && interests.entries == CV_MAX ==> ps' == ps
      modifies Repr()
      ensures Formed() && (old(interests.entries) < CV_MAX ==> BothAdds(old(Now()), p, Now()))
      ensures right ==> Countable() && TalliedNode(interests.Contents(), needs.Contents(), ks, ps')
    {
      hide TalliedNode, BothAdds, CountVector.Valid;
      AddPair(p);
    }

    method Store(d: nat, p: Pair)
      requires WellSized() && d < |peers| && held[d] && peers[d].inbound == None && Sized(p, n) && Formed()
      modifies this, Repr()
      ensures WellSized() && subs == old(subs) && counted == old(counted) && Formed()
      ensures peers == old(peers)[d := old(peers)[d].(inbound := Some(p))] && held == old(held)[d := held[d]]
      ensures old(Conserved()) ==> Conserved() && (held[d] <==> old(interests.entries) < CV_MAX)
      ensures !old(Conserved()) ==> !held[d] && CountedPeers() == old(CountedPeers())
      ensures old(interests.entries) < CV_MAX ==> BothAdds(old(Now()), p, Now())
    {
      hide TalliedNode, Kept, Held, BothAdds, CountVector.Valid, CountVector.Formed, CountVector.Now;
      ghost var right := Conserved();
      ghost var room := right && interests.entries < CV_MAX;
      ghost var (ks, ps) := (CountedSubs(), CountedPeers());
      var peer := peers[d].(inbound := Some(p));
      if right {
        NodeFill(interests.Contents(), needs.Contents(), ks, ps, d, p);
      }
      HeldFilled(peers, held, d, p, room);
      CountStored(p, right, ks, ps, Held(peers[d := peer], held[d := room]));
      peers, held := peers[d := peer], held[d := room];
    }

    /** What was counted before is counted again exactly if it is the same pair, and was counted for others too. */
    twostate lemma CountedAgain(swap: (Pair, Pair))
      requires old(WellSized()) && WellSized() && old(Conserved()) && old(Formed()) && Sized(swap.0, n) && Sized(swap.1, n)
      requires Formed() && BothExchange(old(Now()), swap.0, swap.1, Now())
      requires CountedSubs() == old(CountedSubs()) && CountedPeers() == old(CountedPeers())
      ensures Conserved() <==> swap.0 == swap.1 && old(interests.Positive(swap.0.interests))
    {
      hide TalliedNode, Kept, Held, Exchanges, CountVector.Formed;
      var (q, p) := swap;
      if p.interests != q.interests {
        interests.PutOther((q.interests, p.interests));
      } else if p.needs != q.needs {
        needs.PutOther((q.needs, p.needs));
      } else {
        interests.PutBack(q.interests);
        needs.PutBack(q.needs);
      }
      if Conserved() {
        SameMembers(old(interests.Contents()), old(needs.Contents()), interests.Contents(), needs.Contents(),
                    CountedSubs(), CountedPeers());
      }
    }

    /** The differing bits of two vectors, and whether there are none. */
    method Difference(a: Vec, b: Vec) returns (x: Vec, same: bool)
      requires |a| == |b|
      ensures x == XorVec(a, b) && same == (a == b)
    {
      var left := ToBits(a);
      var right := ToBits(b);
      var delta := new BitVector(|a|);
      same := delta.Xor(left, right, false);
      x := delta.bits[..];
    }

    /** The union of all interests but one, which is taken out of the count vector and put back. If it was not counted, the
        union lacks the bits that are counted just once, and the maintained union gains those that are not counted. */
    method UnionWithout(v: Vec) returns (ret: Status, u: Vec)
      requires Separate() && interests.Valid() && |v| == n
      modifies interests.Repr()
      ensures ret == if old(interests.entries) == 0 then ErrArgs else Ok
      ensures ret != Ok ==> unchanged(interests.Repr())
      ensures ret == Ok && v in old(interests.Contents()) ==>
        && u == UnionOf(old(interests.Contents()) - multiset{v}, n)
        && interests.Valid() && interests.Contents() == old(interests.Contents())
      ensures ret == Ok ==> |u| == n && (u == UnionOf(old(interests.Contents()), n) <==> !old(interests.Sole(v)))
      ensures ret == Ok ==>
        (interests.Valid() && interests.Contents() == old(interests.Contents()) <==> old(interests.Positive(v)))
    {
      hide UnionOf, CountVector.Valid, CountVector.Formed, CountVector.Sole, CountVector.Positive, UnionLess, More, Less;
      interests.ValidIsFormed();
      u := v;
      ret, u := TakeUnion(v);
      if ret == Ok {
        ret := AddTo(interests, v);
        interests.PutBack(v);
        if v in old(interests.Contents()) {
          interests.MemberIsPositive(v);
        }
      }
    }

    method TakeUnion(v: Vec) returns (ret: Status, u: Vec)
      requires Separate() && interests.Valid() && |v| == n
      modifies interests.Repr()
      ensures ret == if old(interests.entries) == 0 then ErrArgs else Ok
      ensures interests.Formed() && old(interests.Formed())
      ensures if ret == Ok then Removes(old(interests.Now()), v, interests.Now()) else unchanged(interests.Repr())
      ensures ret == Ok && v in old(interests.Contents()) ==> u == UnionOf(old(interests.Contents()) - multiset{v}, n)
      ensures ret == Ok ==> |u| == n && (u == UnionOf(old(interests.Contents()), n) <==> !old(interests.Sole(v)))
    {
      hide UnionOf, More, Less, CountVector.Sole;
      interests.ValidIsFormed();
      u := v;
      ret := DelFrom(interests, v);
      if ret == Ok {
        var union := interests.ToUnion();
        u := union.bits[..];
        interests.LowersUnion(v);
      }
    }

    /** Likewise the intersection of all needs but one, which is the right one if no other bit is counted as often. */
    method IntersectionWithout(v: Vec) returns (ret: Status, u: Vec)
      requires Separate() && needs.Valid() && |v| == FH_CHUNKS
      modifies needs.Repr()
      ensures ret == if old(needs.entries) == 0 then ErrArgs else Ok
      ensures ret != Ok ==> unchanged(needs.Repr())
      ensures ret == Ok && v in old(needs.Contents()) ==> u == IntersectionOf(old(needs.Contents()) - multiset{v}, FH_CHUNKS)
      ensures ret == Ok ==>
        |u| == FH_CHUNKS && (u == IntersectionOf(old(needs.Contents()), FH_CHUNKS) <==> !old(needs.Misjudges(v)))
      ensures needs.Valid() && needs.Contents() == old(needs.Contents())
    {
      hide IntersectionOf, CountVector.Valid, CountVector.Formed, CountVector.Misjudges, CountVector.Positive, More, Less;
      needs.ValidIsFormed();
      u := v;
      ret, u := TakeIntersection(v);
      if ret == Ok {
        ret := AddTo(needs, v);
        needs.PutBack(v);
      }
    }

    method TakeIntersection(v: Vec) returns (ret: Status, u: Vec)
      requires Separate() && needs.Valid() && |v| == FH_CHUNKS
      modifies needs.Repr()
      ensures ret == if old(needs.entries) == 0 then ErrArgs else Ok
      ensures needs.Formed() && old(needs.Formed())
      ensures if ret == Ok then Removes(old(needs.Now()), v, needs.Now()) else unchanged(needs.Repr())
      ensures ret == Ok && v in old(needs.Contents()) ==> u == IntersectionOf(old(needs.Contents()) - multiset{v}, FH_CHUNKS)
      ensures ret == Ok ==>
        |u| == FH_CHUNKS && (u == IntersectionOf(old(needs.Contents()), FH_CHUNKS) <==> !old(needs.Misjudges(v)))
    {
      hide IntersectionOf, CountVector.Misjudges, Less, More, UnionLess, CountVector.Counters, CountVector.Common;
      needs.ValidIsFormed();
      u := v;
      ret := DelFrom(needs, v);
      if ret == Ok {
        var common := needs.ToIntersection();
        u := common.bits[..];
        needs.LowersIntersection(v);
      }
    }

    /** What is stored for a remote, if anything, was counted. */
    ghost predicate Vouched(d: nat)
      requires d < |peers| && |held| == |peers|
      reads this
    {
      held[d] || peers[d].inbound.None?
    }

    method PairWithout(q: Pair) returns (ret: Status, p: Pair)
      requires Separate() && Countable() && Sized(q, n) && interests.entries == needs.entries
      modifies Repr()
      ensures ret == if old(interests.entries) == 0 then ErrArgs else Ok
      ensures ret != Ok ==> Countable() && Counts() == old(Counts())
      ensures ret == Ok && q.interests in old(interests.Contents()) && q.needs in old(needs.Contents()) ==>
        && p.interests == UnionOf(old(interests.Contents()) - multiset{q.interests}, n)
        && p.needs == IntersectionOf(old(needs.Contents()) - multiset{q.needs}, FH_CHUNKS)
        && Countable() && Counts() == old(Counts())
      ensures ret == Ok ==> Sized(p, n)
      ensures ret == Ok ==> (p.interests == UnionOf(old(interests.Contents()), n) <==> !old(interests.Sole(q.interests)))
      ensures ret == Ok ==> (p.needs == IntersectionOf(old(needs.Contents()), FH_CHUNKS) <==> !old(needs.Misjudges(q.needs)))
      ensures ret == Ok ==> (Countable() && Counts() == old(Counts()) <==> old(interests.Positive(q.interests)))
    {
      hide UnionOf, IntersectionOf, CountVector.Valid, CountVector.Sole, CountVector.Misjudges, CountVector.Positive;
      var interests1, needs1;
      ret, interests1 := UnionWithout(q.interests);
      p := q;
      if ret == Ok {
        ret, needs1 := IntersectionWithout(q.needs);
        p := Pair(interests1, needs1);
      }
    }

    method PairOfAll() returns (p: Pair)
      requires Separate() && Countable()
      ensures p == Pair(UnionOf(interests.Contents(), n), IntersectionOf(needs.Contents(), FH_CHUNKS))
    {
      hide UnionOf, IntersectionOf;
      interests.ValidIsFormed();
      needs.ValidIsFormed();
      var union := interests.ToUnion();
      var common := needs.ToIntersection();
      p := Pair(union.bits[..], common.bits[..]);
    }

    /** The pair for remote `d`, without its own contribution. The count vectors end as they began, if that was counted;
        otherwise it is said when they do, and when the pair is the right one. */
    method ComputePair(d: nat) returns (ret: Status, p: Pair)
      requires WellSized() && Conserved() && d < |peers|
      modifies Repr()
      ensures ret == if peers[d].inbound.Some? && old(interests.entries) == 0 then ErrArgs else Ok
      ensures Vouched(d) ==> ret == Ok && p == OutPair(CountedSubs(), CountedPeers(), d, n)
      ensures Vouched(d) || ret != Ok ==> Countable() && Counts() == old(Counts())
      ensures ret == Ok ==> Sized(p, n)
      ensures ret == Ok && !Vouched(d) ==>
        var (q, due) := (peers[d].inbound.value, OutPair(CountedSubs(), CountedPeers(), d, n));
        && (p.interests == due.interests <==> !old(interests.Sole(q.interests)))
        && (p.needs == due.needs <==> !old(needs.Misjudges(q.needs)))
        && (Countable() && Counts() == old(Counts()) <==> old(interests.Positive(q.interests)))
    {
      hide TalliedNode, Kept, Held, OutPair, UnionOf, IntersectionOf, CountVector.Valid;
      ghost var (i, m, ks, ps) := (interests.Contents(), needs.Contents(), CountedSubs(), CountedPeers());
      SameCounts(i, m, ks, ps);
      interests.FewMembers();
      needs.FewMembers();
      OutPairWithout(i, m, ks, ps, d, n);
      assert i - In<Vec>(None) == i && m - In<Vec>(None) == m;
      match peers[d].inbound
      case Some(q) => ret, p := PairWithout(q);
      case None =>
        p := PairOfAll();
        ret := Ok;
    }

    /** Recomputes what a remote is sent, without its own contribution. If that is stored but was not counted, this fails when
        nothing is counted at all; otherwise it is said exactly when what is sent is right, and when the counts stay so. */
    method UpdateOutbound(d: nat) returns (ret: Status, changes: bool)
      requires WellSized() && Conserved() && d < |peers|
      modifies this, Repr()
      ensures WellSized() && subs == old(subs) && counted == old(counted) && held == old(held)
      ensures peers == old(peers)[d := old(peers)[d].(out := peers[d].out)]
      ensures ret == if !old(Computed(d)) || old(Vouched(d)) || old(interests.entries) > 0 then Ok else ErrArgs
      ensures ret != Ok ==> Conserved() && Counts() == old(Counts()) && peers == old(peers)
      ensures !old(Computed(d)) || old(Vouched(d)) ==>
        && Conserved() && Counts() == old(Counts())
        && CountedPeers() == old(CountedPeers())[d := old(CountedPeers())[d].(out := peers[d].out)]
        && peers[d].out == old(NewOutbound(CountedSubs(), CountedPeers(), d, n))
      ensures ret == Ok && old(Computed(d)) ==>
        peers[d].out.pair.Some? && peers[d].out == Sent(old(peers)[d].out, peers[d].out.pair.value)
      ensures ret == Ok && old(Computed(d)) && !old(Vouched(d)) ==>
        var (q, due) := (old(peers)[d].inbound.value, old(OutPair(CountedSubs(), CountedPeers(), d, n)));
        && (peers[d].out.pair.value.interests == due.interests <==> !old(interests.Sole(q.interests)))
        && (peers[d].out.pair.value.needs == due.needs <==> !old(needs.Misjudges(q.needs)))
        && (Conserved() <==> old(interests.Positive(q.interests)))
      ensures changes <==> peers[d].out.revision == old(peers)[d].out.revision + 1
      ensures old(Computed(d)) && old(Vouched(d)) ==>
        peers[d].out.pair == Some(old(OutPair(CountedSubs(), CountedPeers(), d, n)))
      ensures ret == Ok && old(Computed(d)) ==>
        (changes <==>
          old(peers)[d].out.pair.None? || old(peers)[d].out.pair.value.interests != peers[d].out.pair.value.interests)
    {
      hide TalliedNode, Kept, Held, NewOutbound, OutPair, Sent;
      ghost var (ps, i, m) := (CountedPeers(), interests.Contents(), needs.Contents());
      var out;
      ret, out, changes := NextOutbound(d);
      var peer := peers[d].(out := out);
      SameSources(i, m, CountedSubs(), ps, d, out);
      HeldUpdated(peers, held, d, peer, held[d]);
      assert held[d := held[d]] == held;
      peers := peers[d := peer];
      assert CountedPeers() == ps[d := ps[d].(out := out)];
      if Countable() && Conserved() {
        SameMembers(i, m, interests.Contents(), needs.Contents(), CountedSubs(), CountedPeers());
      }
    }

    /** The outbound pair of a remote is computed unless the remote is unlinking. */
    ghost predicate Computed(d: nat)
      requires d < |peers|
      reads this
    {
      peers[d].state != Unlinking
    }

    method NextOutbound(d: nat) returns (ret: Status, out: Outbound, changes: bool)
      requires WellSized() && Conserved() && d < |peers|
      modifies Repr()
      ensures ret == if !Computed(d) || Vouched(d) || old(interests.entries) > 0 then Ok else ErrArgs
      ensures ret != Ok ==> out == peers[d].out
      ensures !Computed(d) || Vouched(d) ==> out == NewOutbound(CountedSubs(), CountedPeers(), d, n)
      ensures !Computed(d) || Vouched(d) || ret != Ok ==> Countable() && Counts() == old(Counts())
      ensures out.pair.Some? ==> Sized(out.pair.value, n)
      ensures ret == Ok && Computed(d) ==> out.pair.Some? && out == Sent(peers[d].out, out.pair.value)
      ensures ret == Ok && Computed(d) && !Vouched(d) ==>
        var (q, due) := (peers[d].inbound.value, OutPair(CountedSubs(), CountedPeers(), d, n));
        && (out.pair.value.interests == due.interests <==> !old(interests.Sole(q.interests)))
        && (out.pair.value.needs == due.needs <==> !old(needs.Misjudges(q.needs)))
        && (Countable() && Counts() == old(Counts()) <==> old(interests.Positive(q.interests)))
      ensures changes <==> out.revision == peers[d].out.revision + 1
      ensures Computed(d) && Vouched(d) ==> out.pair == Some(OutPair(CountedSubs(), CountedPeers(), d, n))
      ensures ret == Ok && Computed(d) ==>
        (changes <==> peers[d].out.pair.None? || peers[d].out.pair.value.interests != out.pair.value.interests)
    {
      hide TalliedNode, Kept, Held, OutPair;
      out := peers[d].out;
      if peers[d].state == Unlinking {
        ret, out, changes := Ok, out.(pair := None, revision := out.revision + 1), true;
      } else {
        var newPair;
        ret, newPair := ComputePair(d);
        changes := false;
        if ret != Ok {
          return;
        }
        match out.pair {
          case Some(p) =>
            var x, same := Difference(p.interests, newPair.interests);
            changes := !same;
            out := out.(delta := Some(x), deltaInd := true);
          case None =>
            changes := true;
            out := out.(deltaInd := false);
        }
        out := out.(pair := Some(newPair), revision := if changes then out.revision + 1 else out.revision);
      }
    }
  }

  /** What a remote was sent before does not matter for what it is due. */
  lemma DueAgain(subs: seq<Pair>, peers: seq<Peer>, d: nat, n: nat, out: Outbound)
    requires d < |peers|
    ensures OutPair(subs, peers[d := peers[d].(out := out)], d, n) == OutPair(subs, peers, d, n)
  {
    ChangedPeer(subs, peers, d, peers[d].(out := out));
  }

  /** The first pair is always sent. */
  lemma SentFirst(subs: seq<Pair>, peers: seq<Peer>, d: nat, n: nat)
    requires d < |peers| && peers[d].state != Unlinking && peers[d].out.pair == None
    ensures var next := NewOutbound(subs, peers, d, n);
      next.pair == Some(OutPair(subs, peers, d, n)) && next.revision == peers[d].out.revision + 1
  {
  }

  /** Whether an update is sent to a remote that has been sent a pair already. */
  lemma SentAgain(subs: seq<Pair>, peers: seq<Peer>, d: nat, n: nat, was: Pair)
    requires d < |peers| && peers[d].state != Unlinking && peers[d].out.pair == Some(was) && |was.interests| == n
    ensures var (now, next) := (OutPair(subs, peers, d, n), NewOutbound(subs, peers, d, n));
      next.pair == Some(now) && (next.revision == peers[d].out.revision + 1 <==> was.interests != now.interests)
  {
  }

  /** What a remote is sent is not one of the sources. */
  lemma SameSources(interests: Members, needs: Members, subs: seq<Pair>, peers: seq<Peer>, d: nat, out: Outbound)
    requires d < |peers| && TalliedNode(interests, needs, subs, peers)
    ensures TalliedNode(interests, needs, subs, peers[d := peers[d].(out := out)])
  {
    ChangedPeer(subs, peers, d, peers[d].(out := out));
  }

  /** The counts of a node can fill up. */
  method FullNode(n: nat, sub: Pair) returns (node: Node)
    requires Sized(sub, n)
    ensures fresh(node) && fresh(node.Repr()) && node.n == n
    ensures node.WellSized() && node.Conserved() && |node.interests.Contents()| == CV_MAX
  {
    node := new Node(n);
    node.interests.FewMembers();
    node.NothingCounted();
    for i := 0 to CV_MAX
      invariant fresh(node) && fresh(node.Repr())
      invariant node.WellSized() && node.Conserved() && |node.interests.Contents()| == i
    {
      var ret := node.Subscribe(sub);
    }
  }

  /** From then on, subscribing and unsubscribing again, which should change nothing, spoils the counts. */
  method RefusedThenRemoved(node: Node, sub: Pair)
    requires node.WellSized() && node.Conserved() && Sized(sub, node.n) && |node.interests.Contents()| == CV_MAX
    modifies node, node.Repr()
    ensures node.WellSized() && !node.Conserved()
    ensures node.subs == old(node.subs) && node.peers == old(node.peers)
    ensures node.counted == old(node.counted) && node.held == old(node.held)
  {
    var ret := node.Subscribe(sub);
    assert ret == ErrResources && !node.counted[0];
    ret := node.Unsubscribe(0);
  }

  /** Taking what a remote contributed out of the counts leaves the sources of what it is sent. */
  lemma OutPairWithout(interests: Members, needs: Members, subs: seq<Pair>, peers: seq<Peer>, d: nat, n: nat)
    requires d < |peers| && TalliedNode(interests, needs, subs, peers)
    ensures (
      match peers[d].inbound
      case Some(q) => q.interests in interests && q.needs in needs
      case None => true)
    ensures OutPair(subs, peers, d, n)
      == Pair(UnionOf(interests - In(First(peers[d].inbound)), n), IntersectionOf(needs - In(Second(peers[d].inbound)), FH_CHUNKS))
  {
    match peers[d].inbound {
      case Some(q) =>
        NodeClear(interests, needs, subs, peers, d);
        OutPairComputed(interests - multiset{q.interests}, needs - multiset{q.needs}, subs, peers, d, n);
      case None =>
        assert peers[d := peers[d].(inbound := None)] == peers;
        assert interests - In<Vec>(None) == interests && needs - In<Vec>(None) == needs;
        OutPairComputed(interests, needs, subs, peers, d, n);
    }
  }

  /** A remote that contributes nothing can come and go. */
  lemma ForgetExactly(interests: Members, needs: Members, subs: seq<Pair>, peers: seq<Peer>, d: nat)
    requires d < |peers| && peers[d].inbound.None?
    ensures TalliedNode(interests, needs, subs, peers) <==> TalliedNode(interests, needs, subs, Dropped(peers, d))
  {
    RemovedPeer(subs, peers, d);
    var rest := Dropped(peers, d);
    assert interests - In<Vec>(None) == interests && needs - In<Vec>(None) == needs;
    assert interests + In<Vec>(None) == interests && needs + In<Vec>(None) == needs;
    if TalliedNode(interests, needs, subs, peers) {
      TalliesDelete(interests, InterestSources(subs, rest), |subs| + d, None);
      TalliesDelete(needs, NeedSources(subs, rest), |subs| + d, None);
    }
    TalliesInsert(interests, InterestSources(subs, rest), |subs| + d, None);
    TalliesInsert(needs, NeedSources(subs, rest), |subs| + d, None);
  }

  /** With one entry fewer, and the same sources, the counts do not match. */
  lemma Spoiled(i: Members, m: Members, i': Members, m': Members, subs: seq<Pair>, peers: seq<Peer>)
    requires TalliedNode(i, m, subs, peers) && |i'| != |i|
    ensures !TalliedNode(i', m', subs, peers)
  {
  }

  lemma SameCounts(i: Members, m: Members, subs: seq<Pair>, peers: seq<Peer>)
    requires TalliedNode(i, m, subs, peers)
    ensures |i| == |m|
  {
    SameLive(subs, peers);
  }

  /** The sources determine what is counted. */
  lemma SameMembers(i: Members, m: Members, i': Members, m': Members, subs: seq<Pair>, peers: seq<Peer>)
    requires TalliedNode(i, m, subs, peers) && TalliedNode(i', m', subs, peers)
    ensures i == i' && m == m'
  {
    TalliesSame(i, i', InterestSources(subs, peers));
    TalliesSame(m, m', NeedSources(subs, peers));
  }

  lemma AddedSub(subs: seq<Pair>, peers: seq<Peer>, k: nat, p: Pair)
    requires k <= |subs|
    ensures InterestSources(subs[..k] + [p] + subs[k..], peers)
      == Insert(InterestSources(subs, peers), k, Some(p.interests))
    ensures NeedSources(subs[..k] + [p] + subs[k..], peers) == Insert(NeedSources(subs, peers), k, Some(p.needs))
  {
  }

  lemma RemovedPeer(subs: seq<Pair>, peers: seq<Peer>, d: nat)
    requires d < |peers| && peers[d].inbound == None
    ensures var rest := peers[..d] + peers[d + 1..];
      && InterestSources(subs, peers) == Insert(InterestSources(subs, rest), |subs| + d, None)
      && NeedSources(subs, peers) == Insert(NeedSources(subs, rest), |subs| + d, None)
  {
  }

  lemma ChangedPeer(subs: seq<Pair>, peers: seq<Peer>, d: nat, peer: Peer)
    requires d < |peers|
    ensures InterestSources(subs, peers[d := peer])
      == InterestSources(subs, peers)[|subs| + d := First(peer.inbound)]
    ensures NeedSources(subs, peers[d := peer]) == NeedSources(subs, peers)[|subs| + d := Second(peer.inbound)]
    ensures peer.inbound == peers[d].inbound ==>
      && InterestSources(subs, peers[d := peer]) == InterestSources(subs, peers)
      && NeedSources(subs, peers[d := peer]) == NeedSources(subs, peers)
  {
  }

  lemma NodeAdd(interests: Members, needs: Members, subs: seq<Pair>, peers: seq<Peer>, p: Pair)
    requires TalliedNode(interests, needs, subs, peers)
    ensures |interests| == |needs|
    ensures TalliedNode(interests + multiset{p.interests}, needs + multiset{p.needs}, [p] + subs, peers)
    ensures !TalliedNode(interests, needs, [p] + subs, peers)
  {
    SameLive(subs, peers);
    AddedSub(subs, peers, 0, p);
    assert subs[..0] + [p] + subs[0..] == [p] + subs;
    TalliesAdd(interests, InterestSources(subs, peers), 0, p.interests);
    TalliesAdd(needs, NeedSources(subs, peers), 0, p.needs);
  }

  lemma NodeRemove(interests: Members, needs: Members, subs: seq<Pair>, peers: seq<Peer>, k: nat)
    requires TalliedNode(interests, needs, subs, peers) && k < |subs|
    ensures subs[k].interests in interests && subs[k].needs in needs
    ensures TalliedNode(interests - multiset{subs[k].interests}, needs - multiset{subs[k].needs},
                        subs[..k] + subs[k + 1..], peers)
  {
    var rest := subs[..k] + subs[k + 1..];
    assert rest[..k] + [subs[k]] + rest[k..] == subs;
    AddedSub(rest, peers, k, subs[k]);
    TalliesRemove(interests, InterestSources(rest, peers), k, subs[k].interests);
    TalliesRemove(needs, NeedSources(rest, peers), k, subs[k].needs);
  }

  lemma NodeClear(interests: Members, needs: Members, subs: seq<Pair>, peers: seq<Peer>, d: nat)
    requires TalliedNode(interests, needs, subs, peers) && d < |peers| && peers[d].inbound.Some?
    ensures var p := peers[d].inbound.value;
      && |interests| == |needs| > 0 && p.interests in interests && p.needs in needs
      && interests - multiset{p.interests} + multiset{p.interests} == interests
      && needs - multiset{p.needs} + multiset{p.needs} == needs
      && |interests - multiset{p.interests}| == |needs - multiset{p.needs}| < |interests|
      && TalliedNode(interests - multiset{p.interests}, needs - multiset{p.needs}, subs,
                     peers[d := peers[d].(inbound := None)])
  {
    var p := peers[d].inbound.value;
    SameLive(subs, peers);
    ChangedPeer(subs, peers, d, peers[d].(inbound := None));
    TalliesClear(interests, InterestSources(subs, peers), |subs| + d, p.interests);
    TalliesClear(needs, NeedSources(subs, peers), |subs| + d, p.needs);
  }

  lemma NodeFill(interests: Members, needs: Members, subs: seq<Pair>, peers: seq<Peer>, d: nat, p: Pair)
    requires TalliedNode(interests, needs, subs, peers) && d < |peers| && peers[d].inbound.None?
    ensures var peers' := peers[d := peers[d].(inbound := Some(p))];
      && |interests| == |needs| == Live(InterestSources(subs, peers))
      && TalliedNode(interests + multiset{p.interests}, needs + multiset{p.needs}, subs, peers')
      && !TalliedNode(interests, needs, subs, peers')
  {
    SameLive(subs, peers);
    ChangedPeer(subs, peers, d, peers[d].(inbound := Some(p)));
    TalliesFill(interests, InterestSources(subs, peers), |subs| + d, p.interests);
    TalliesFill(needs, NeedSources(subs, peers), |subs| + d, p.needs);
  }

  /** Without the remote's contribution, the count vectors compute the union and intersection of the others. */
  lemma OutPairComputed(interests: Members, needs: Members, subs: seq<Pair>, peers: seq<Peer>, d: nat, n: nat)
    requires d < |peers| && TalliedNode(interests, needs, subs, peers[d := peers[d].(inbound := None)])
    ensures Pair(UnionOf(interests, n), IntersectionOf(needs, FH_CHUNKS)) == OutPair(subs, peers, d, n)
  {
    ChangedPeer(subs, peers, d, peers[d].(inbound := None));
    TalliedUnion(interests, InterestSources(subs, peers)[|subs| + d := None], n);
    TalliedIntersection(needs, NeedSources(subs, peers)[|subs| + d := None], FH_CHUNKS);
  }

  /** Every source has both interests and needs, so the two count vectors fill up together. */
  lemma SameLive(subs: seq<Pair>, peers: seq<Peer>)
    ensures Live(InterestSources(subs, peers)) == Live(NeedSources(subs, peers))
  {
    SameLiveTo(InterestSources(subs, peers), NeedSources(subs, peers), |subs| + |peers|);
  }

  lemma {:induction false} SameLiveTo(c: Sources, d: Sources, n: nat)
    requires n <= |c| == |d| && forall k | 0 <= k < |c| :: c[k].Some? == d[k].Some?
    ensures Tally.CountTo(c, n, Present<Vec>()) == Tally.CountTo(d, n, Present<Vec>())
  {
    if n > 0 {
      SameLiveTo(c, d, n - 1);
    }
  }

  /** What is stored for a remote after it has sent interests. */
  ghost function NewInbound(stored: Option<Pair>, received: Pair, isDelta: bool): Option<Pair>
    requires stored.Some? ==> |stored.value.interests| == |received.interests|
  {
    var interests := if isDelta && stored.Some? then XorVec(received.interests, stored.value.interests)
                     else received.interests;
    if IsZero(interests) then None else Some(Pair(interests, received.needs))
  }

  lemma XorIsZero(a: Vec, b: Vec)
    requires |a| == |b|
    ensures IsZero(XorVec(a, b)) <==> a == b
  {
    forall i | 0 <= i < |a|
      ensures Xor(a[i], b[i]) == Zero() <==> a[i] == b[i]
    {
      XorWordZero(a[i], b[i]);
    }
  }

  lemma InboundMeans(stored: Option<Pair>, received: Pair, isDelta: bool)
    requires stored.Some? ==> |stored.value.interests| == |received.interests|
    ensures var now := NewInbound(stored, received, isDelta);
      if isDelta && stored.Some? then
        && (now.None? <==> received.interests == stored.value.interests)
        && (now.Some? ==> now.value == Pair(XorVec(received.interests, stored.value.interests), received.needs))
      else now == if IsZero(received.interests) then None else Some(received)
  {
    if isDelta && stored.Some? {
      XorIsZero(received.interests, stored.value.interests);
    }
  }

  /** What the other end has stored of a pair that was sent to it, if all is well: empty interests are not stored. */
  ghost predicate HasStored(stored: Option<Pair>, sent: Option<Pair>) {
    if sent.None? || IsZero(sent.value.interests) then stored == None
    else stored.Some? && stored.value.interests == sent.value.interests
  }

  /** What is sent after an update leads to the new pair at the other end, whether it is sent whole or as a delta. */
  lemma UpdateArrives(out: Outbound, next: Pair, stored: Option<Pair>)
    requires HasStored(stored, out.pair) && (out.pair.Some? ==> |out.pair.value.interests| == |next.interests|)
    ensures var sent := Sent(out, next);
      && sent.pair == Some(next) && (sent.deltaInd ==> sent.delta.Some? && |sent.delta.value| == |next.interests|)
      && NewInbound(stored, Pair(if sent.deltaInd then sent.delta.value else next.interests, next.needs), sent.deltaInd)
         == if IsZero(next.interests) then None else Some(next)
  {
    if out.pair.Some? {
      var (p, q) := (out.pair.value.interests, next.interests);
      if stored.Some? {
        forall i, j | 0 <= i < |q| && 0 <= j < 64
          ensures XorVec(XorVec(p, q), p)[i][j] == q[i][j]
        {
        }
        SameBits(XorVec(XorVec(p, q), p), q);
      } else {
        forall i, j | 0 <= i < |q| && 0 <= j < 64
          ensures XorVec(p, q)[i][j] == q[i][j]
        {
          assert p[i] == Zero();
        }
        SameBits(XorVec(p, q), q);
      }
    }
  }

  /** What has been sent to a remote after it is sent a pair. */
  ghost function Sent(out: Outbound, next: Pair): Outbound
    requires out.pair.Some? ==> |out.pair.value.interests| == |next.interests|
  {
    match out.pair
    case None => Outbound(Some(next), out.delta, false, out.revision + 1)
    case Some(p) =>
      Outbound(Some(next), Some(XorVec(p.interests, next.interests)), true,
               if p.interests == next.interests then out.revision else out.revision + 1)
  }

  /** What a remote is due to be sent after an update. */
  ghost function NewOutbound(subs: seq<Pair>, peers: seq<Peer>, d: nat, n: nat): Outbound
    requires d < |peers|
    requires peers[d].out.pair.Some? ==> |peers[d].out.pair.value.interests| == n
  {
    var out := peers[d].out;
    if peers[d].state == Unlinking then out.(pair := None, revision := out.revision + 1)
    else Sent(out, OutPair(subs, peers, d, n))
  }
}
