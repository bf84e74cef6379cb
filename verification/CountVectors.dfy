/** Count vectors: an index of a multiset of bit vectors that keeps its union and can compute its intersection. */
module CountVectors {
  import opened Words
  import opened BitVectors

  /** The largest counter value of the default build. */
  const CV_MAX: nat := 65535

  datatype Status = Ok | ErrResources | ErrArgs

  type Members = multiset<Vec>

  ghost predicate AllOfSize(ms: seq<Vec>, n: nat) {
    forall k | 0 <= k < |ms| :: |ms[k]| == n
  }

  /** Bit `j` of chunk `i`. */
  predicate HasBit(v: Vec, i: nat, j: nat) {
    i < |v| && j < 64 && v[i][j]
  }

  /** How many of the first `n` members have a bit. */
  ghost function HoldersTo(ms: seq<Vec>, n: nat, i: nat, j: nat): (h: nat)
    requires n <= |ms|
    ensures h <= n
  {
    if n == 0 then 0 else HoldersTo(ms, n - 1, i, j) + (if HasBit(ms[n - 1], i, j) then 1 else 0)
  }

  ghost function Holders(ms: seq<Vec>, i: nat, j: nat): nat {
    HoldersTo(ms, |ms|, i, j)
  }

  ghost function Without(ms: seq<Vec>, k: nat): (r: seq<Vec>)
    requires k < |ms|
    ensures multiset(r) == multiset(ms) - multiset{ms[k]}
  {
    assert ms == ms[..k] + [ms[k]] + ms[k + 1..];
    ms[..k] + ms[k + 1..]
  }

  lemma {:induction false} HoldersAdd(ms: seq<Vec>, v: Vec, n: nat, i: nat, j: nat)
    requires n <= |ms|
    ensures HoldersTo(ms + [v], n, i, j) == HoldersTo(ms, n, i, j)
  {
    if n > 0 {
      HoldersAdd(ms, v, n - 1, i, j);
    }
  }

  lemma {:induction false} HoldersDel(ms: seq<Vec>, k: nat, n: nat, i: nat, j: nat)
    requires k < |ms| && n < |ms|
    ensures HoldersTo(Without(ms, k), n, i, j)
      == if n <= k then HoldersTo(ms, n, i, j)
         else HoldersTo(ms, n + 1, i, j) - (if HasBit(ms[k], i, j) then 1 else 0)
  {
    if n > 0 {
      HoldersDel(ms, k, n - 1, i, j);
    }
  }

  lemma {:induction false} HoldersMean(ms: seq<Vec>, n: nat, i: nat, j: nat)
    requires n <= |ms|
    ensures HoldersTo(ms, n, i, j) > 0 <==> exists k | 0 <= k < n :: HasBit(ms[k], i, j)
    ensures HoldersTo(ms, n, i, j) == n <==> forall k | 0 <= k < n :: HasBit(ms[k], i, j)
  {
    if n > 0 {
      HoldersMean(ms, n - 1, i, j);
    }
  }

  /** The bits that some member has. */
  function UnionOf(ms: Members, n: nat): (r: Vec)
    ensures |r| == n
    ensures forall i, j | 0 <= i < n && 0 <= j < 64 :: r[i][j] <==> exists v | v in ms :: HasBit(v, i, j)
  {
    seq(n, i requires 0 <= i < n => seq(64, j requires 0 <= j < 64 => exists v | v in ms :: HasBit(v, i, j)))
  }

  /** The bits that every member has; none when there are no members. */
  function IntersectionOf(ms: Members, n: nat): (r: Vec)
    ensures |r| == n
    ensures forall i, j | 0 <= i < n && 0 <= j < 64 ::
      r[i][j] <==> ms != multiset{} && forall v | v in ms :: HasBit(v, i, j)
  {
    seq(n, i requires 0 <= i < n =>
      seq(64, j requires 0 <= j < 64 => ms != multiset{} && forall v | v in ms :: HasBit(v, i, j)))
  }

  /** A counter decides membership in the union and in the intersection. */
  lemma CountersMean(ms: seq<Vec>, n: nat, i: nat, j: nat)
    requires i < n && j < 64
    ensures UnionOf(multiset(ms), n)[i][j] <==> Holders(ms, i, j) > 0
    ensures IntersectionOf(multiset(ms), n)[i][j] <==> |ms| > 0 && Holders(ms, i, j) == |ms|
  {
    HoldersMean(ms, |ms|, i, j);
    assert forall k | 0 <= k < |ms| :: ms[k] in multiset(ms);
    assert |ms| > 0 <==> multiset(ms) != multiset{} by {
      if |ms| > 0 {
        assert ms[0] in multiset(ms);
      }
    }
  }

  lemma SameBits(a: Vec, b: Vec)
    requires |a| == |b|
    requires forall i, j | 0 <= i < |a| && 0 <= j < 64 :: a[i][j] == b[i][j]
    ensures a == b
  {
    forall i | 0 <= i < |a|
      ensures a[i] == b[i]
    {
      assert forall j | 0 <= j < 64 :: a[i][j] == b[i][j];
    }
  }

  /** Each counter is the number of members with its bit. */
  ghost predicate Counted(counts: array2<nat>, ms: seq<Vec>, n: nat)
    reads counts
  {
    && counts.Length0 == n && counts.Length1 == 64
    && (forall i, j | 0 <= i < n && 0 <= j < 64 :: counts[i, j] == Holders(ms, i, j))
  }

  lemma CountedDel(ms: seq<Vec>, k: nat)
    requires k < |ms|
    ensures forall i, j :: Holders(ms, i, j) == Holders(Without(ms, k), i, j) + (if HasBit(ms[k], i, j) then 1 else 0)
  {
    forall i, j
      ensures Holders(ms, i, j) == Holders(Without(ms, k), i, j) + (if HasBit(ms[k], i, j) then 1 else 0)
    {
      HoldersDel(ms, k, |ms| - 1, i, j);
    }
  }

  /** A chunk after `c` turns of `chunk >>= 1`. */
  ghost function Shifted(bits: Word, c: nat): Word {
    if c == 0 then bits else Shr(Shifted(bits, c - 1), 1)
  }

  lemma {:induction false} ShiftedBit(bits: Word, c: nat, k: nat)
    requires k < 64
    ensures Shifted(bits, c)[k] == (k + c < 64 && bits[k + c])
  {
    if c > 0 && k + 1 < 64 {
      ShiftedBit(bits, c - 1, k + 1);
    }
  }

  /** The bit loops look at each bit in turn and stop early only when the rest of the chunk is zero. */
  lemma ShiftedBits(bits: Word, c: nat)
    requires c <= 64
    ensures Shifted(bits, c)[0] == (c < 64 && bits[c])
    ensures c == 64 ==> Shifted(bits, c) == Zero()
    ensures Shifted(bits, c) == Zero() ==> forall k | c <= k < 64 :: !bits[k]
  {
    forall k | 0 <= k < 64
      ensures Shifted(bits, c)[k] == (k + c < 64 && bits[k + c])
    {
      ShiftedBit(bits, c, k);
    }
    forall k | c <= k < 64 && Shifted(bits, c) == Zero()
      ensures !bits[k]
    {
      assert Shifted(bits, c)[k - c] == Zero()[k - c];
    }
  }

  /** One less, in the width of a counter. */
  function OneLess(count: nat): nat {
    if count == 0 then CV_MAX else count - 1
  }

  /** One more, in the width of a counter. */
  function OneUp(count: nat): nat {
    if count == CV_MAX then 0 else count + 1
  }

  type Table = seq<seq<nat>>

  ghost predicate OfSize(c: Table, n: nat) {
    |c| == n && forall i | 0 <= i < n :: |c[i]| == 64
  }

  /** The counters after a vector has been counted. */
  ghost function More(c: Table, v: Vec): (r: Table)
    requires OfSize(c, |v|)
    ensures OfSize(r, |v|)
    ensures forall i, j | 0 <= i < |v| && 0 <= j < 64 :: r[i][j] == if v[i][j] then OneUp(c[i][j]) else c[i][j]
  {
    seq(|v|, i requires 0 <= i < |v| => seq(64, j requires 0 <= j < 64 => if v[i][j] then OneUp(c[i][j]) else c[i][j]))
  }

  /** The counters after a vector has been discounted. */
  ghost function Less(c: Table, v: Vec): (r: Table)
    requires OfSize(c, |v|)
    ensures OfSize(r, |v|)
    ensures forall i, j | 0 <= i < |v| && 0 <= j < 64 :: r[i][j] == if v[i][j] then OneLess(c[i][j]) else c[i][j]
  {
    seq(|v|, i requires 0 <= i < |v| => seq(64, j requires 0 <= j < 64 => if v[i][j] then OneLess(c[i][j]) else c[i][j]))
  }

  /** The maintained union after that: bits whose counters have become zero are toggled. */
  ghost function UnionLess(u: Vec, c: Table, v: Vec): (r: Vec)
    requires |u| == |v| && OfSize(c, |v|)
    ensures |r| == |v|
    ensures forall i, j | 0 <= i < |v| && 0 <= j < 64 :: r[i][j] == (u[i][j] != (v[i][j] && c[i][j] == 1))
  {
    seq(|v|, i requires 0 <= i < |v| => seq(64, j requires 0 <= j < 64 => u[i][j] != (v[i][j] && c[i][j] == 1)))
  }

  lemma SameTable(a: Table, b: Table, n: nat)
    requires OfSize(a, n) && OfSize(b, n) && forall i, j | 0 <= i < n && 0 <= j < 64 :: a[i][j] == b[i][j]
    ensures a == b
  {
    forall i | 0 <= i < n
      ensures a[i] == b[i]
    {
      assert forall j | 0 <= j < 64 :: a[i][j] == b[i][j];
    }
  }

  /** All there is to a count vector: its entries, its counters, the maintained union if there is one, the vectors that have
      been added and not deleted, and whether the rest is right for these. */
  datatype Counting = Counting(entries: nat, counters: Table, union: Vec, members: seq<Vec>, right: bool)

  /** What adding does: one more member, if the counts were right; otherwise they are just changed. */
  ghost predicate Adds(was: Counting, v: Vec, now: Counting) {
    && OfSize(was.counters, |v|) && now.entries == was.entries + 1 && now.counters == More(was.counters, v)
    && (|was.union| == |v| ==> now.union == OrVec(was.union, v))
    && (was.right ==> now.right && multiset(now.members) == multiset(was.members) + multiset{v})
    && (!was.right ==> now.members == was.members)
  }

  /** What deleting does: one member fewer; what was not a member is discounted all the same. */
  ghost predicate Removes(was: Counting, v: Vec, now: Counting) {
    && OfSize(was.counters, |v|) && now.entries == was.entries - 1 && now.counters == Less(was.counters, v)
    && (|was.union| == |v| ==> now.union == UnionLess(was.union, was.counters, v))
    && (was.right && v in was.members ==> now.right && multiset(now.members) == multiset(was.members) - multiset{v})
    && (was.right && v !in was.members ==> !now.right && now.members == was.members)
  }

  /** Deleting one vector, and then adding another one. */
  ghost predicate Exchanges(was: Counting, v: Vec, w: Vec, now: Counting) {
    && OfSize(was.counters, |v|) && |w| == |v| && now.entries == was.entries
    && now.counters == More(Less(was.counters, v), w)
    && (|was.union| == |v| ==> now.union == OrVec(UnionLess(was.union, was.counters, v), w))
    && (was.right && v in was.members ==>
          now.right && multiset(now.members) == multiset(was.members) - multiset{v} + multiset{w})
    && (was.right && v !in was.members ==> now.members == was.members)
  }

  lemma Exchanging(was: Counting, v: Vec, mid: Counting, w: Vec, now: Counting)
    requires Removes(was, v, mid) && Adds(mid, w, now) && |v| == |w|
    ensures Exchanges(was, v, w, now)
  {
  }

  class CountVector {
    var entries: nat
    const numChunks: nat
    const bvUnion: BitVector?
    const counts: array2<nat>

    /** The vectors that have been added and not deleted. */
    ghost var members: seq<Vec>

    ghost function Contents(): Members
      reads this
    {
      multiset(members)
    }

    ghost function UnionBits(): set<object> {
      if bvUnion == null then {} else {bvUnion.bits}
    }

    ghost predicate Sized()
      reads this
    {
      && counts.Length0 == numChunks && counts.Length1 == 64
      && (bvUnion != null ==> bvUnion.bits.Length == numChunks)
    }

    /** What holds whatever has been deleted. */
    ghost predicate Formed()
      reads this, counts, bvUnion, if bvUnion == null then {} else {bvUnion.bits}
    {
      && Sized() && entries <= CV_MAX && (bvUnion != null ==> bvUnion.Valid())
      && forall i, j | 0 <= i < numChunks && 0 <= j < 64 :: counts[i, j] <= CV_MAX
    }

    lemma ValidIsFormed()
      requires Valid()
      ensures Formed() && Sized()
    {
      forall i, j | 0 <= i < numChunks && 0 <= j < 64
        ensures counts[i, j] <= CV_MAX
      {
        assert counts[i, j] == Holders(members, i, j);
      }
    }

    /** A bit of the maintained union is set exactly when its counter is positive. */
    ghost predicate UnionExact()
      requires Sized()
      reads this, counts, UnionBits()
    {
      bvUnion != null ==>
        forall i, j | 0 <= i < numChunks && 0 <= j < 64 :: bvUnion.bits[i][j] <==> counts[i, j] > 0
    }

    ghost predicate Valid()
      reads this, counts, bvUnion, if bvUnion == null then {} else {bvUnion.bits}
    {
      && entries == |members| <= CV_MAX
      && AllOfSize(members, numChunks)
      && Sized()
      && Counted(counts, members, numChunks)
      && (bvUnion != null ==> bvUnion.Valid())
      && UnionExact()
    }

    ghost function Counters(): (c: Table)
      requires Sized()
      reads this, counts
      ensures OfSize(c, numChunks) && forall i, j | 0 <= i < numChunks && 0 <= j < 64 :: c[i][j] == counts[i, j]
    {
      seq(numChunks, i requires 0 <= i < numChunks == counts.Length0 && counts.Length1 == 64 reads counts =>
        seq(64, j requires 0 <= j < 64 reads counts => counts[i, j]))
    }

    ghost function UnionNow(): (u: Vec)
      requires Sized()
      reads this, UnionBits()
      ensures |u| == if bvUnion == null then 0 else numChunks
    {
      if bvUnion == null then [] else bvUnion.Value()
    }

    /** The bits that are counted as often as there are entries, in the chunks that are not empty as far as is known. */
    ghost function Common(): (c: Vec)
      requires Sized()
      reads this, counts, UnionBits()
      ensures |c| == numChunks && forall i, j | 0 <= i < numChunks && 0 <= j < 64 ::
        c[i][j] <==> entries > 0 && counts[i, j] == entries && (bvUnion == null || bvUnion.bits[i] != Zero())
    {
      var (c, e, u) := (Counters(), entries, UnionNow());
      seq(numChunks, i requires 0 <= i < |c| && |c[i]| == 64 && (u == [] || |u| == |c|) => seq(64, j requires 0 <= j < 64 =>
        e > 0 && c[i][j] == e && (u == [] || u[i] != Zero())))
    }

    /** Everything the count vector may change. */
    ghost function Repr(): set<object> {
      {this, counts} + if bvUnion == null then {} else {bvUnion, bvUnion.bits}
    }

    constructor (numChunks: nat, withUnion: bool)
      ensures Valid() && fresh(Repr())
      ensures Contents() == multiset{} && this.numChunks == numChunks && (bvUnion != null <==> withUnion)
    {
      entries := 0;
      this.numChunks := numChunks;
      counts := new nat[numChunks, 64]((_, _) => 0);
      if withUnion {
        bvUnion := new BitVector(numChunks);
      } else {
        bvUnion := null;
      }
      members := [];
    }

    /** Counts one chunk of an added vector. */
    method AddChunk(i: nat, bits: Word)
      requires counts.Length0 == numChunks && counts.Length1 == 64 && i < numChunks
      modifies counts
      ensures forall k, j | 0 <= k < numChunks && 0 <= j < 64 ::
        counts[k, j] == if k == i && bits[j] then OneUp(old(counts[k, j])) else old(counts[k, j])
    {
      var chunk := bits;
      var c := 0;
      while chunk != Zero()
        invariant c <= 64
        invariant chunk == Shifted(bits, c)
        invariant forall k, j | 0 <= k < numChunks && 0 <= j < 64 ::
          counts[k, j] == if k == i && j < c && bits[j] then OneUp(old(counts[k, j])) else old(counts[k, j])
        decreases 64 - c
      {
        ShiftedBits(bits, c);
        if chunk[0] {
          counts[i, c] := OneUp(counts[i, c]);
        }
        chunk := Shr(chunk, 1);
        c := c + 1;
      }
      ShiftedBits(bits, c);
    }

    /** Discounts one chunk of a deleted vector; the result has the bits whose counters reached zero. A counter that is
        zero already wraps around. */
    method DelChunk(i: nat, bits: Word) returns (cleared: Word)
      requires counts.Length0 == numChunks && counts.Length1 == 64 && i < numChunks
      modifies counts
      ensures forall k, j | 0 <= k < numChunks && 0 <= j < 64 ::
        counts[k, j] == if k == i && bits[j] then OneLess(old(counts[k, j])) else old(counts[k, j])
      ensures forall j | 0 <= j < 64 :: cleared[j] == (bits[j] && counts[i, j] == 0)
    {
      var chunk := bits;
      var c := 0;
      cleared := Zero();
      while chunk != Zero()
        invariant c <= 64
        invariant chunk == Shifted(bits, c)
        invariant forall k, j | 0 <= k < numChunks && 0 <= j < 64 ::
          counts[k, j] == if k == i && j < c && bits[j] then OneLess(old(counts[k, j])) else old(counts[k, j])
        invariant forall j | 0 <= j < 64 :: cleared[j] == (j < c && bits[j] && counts[i, j] == 0)
        decreases 64 - c
      {
        ShiftedBits(bits, c);
        if chunk[0] {
          counts[i, c] := OneLess(counts[i, c]);
          if counts[i, c] == 0 {
            cleared := SetBit(cleared, c);
          }
        }
        chunk := Shr(chunk, 1);
        c := c + 1;
      }
      ShiftedBits(bits, c);
    }

    /** Counts every chunk of an added vector. */
    method AddChunks(bv: BitVector)
      requires Sized() && bv.bits.Length == numChunks && bv.bits !in UnionBits()
      modifies counts, UnionBits()
      ensures forall k, j | 0 <= k < numChunks && 0 <= j < 64 ::
        counts[k, j] == if bv.bits[k][j] then OneUp(old(counts[k, j])) else old(counts[k, j])
      ensures bvUnion != null ==> forall k, j | 0 <= k < numChunks && 0 <= j < 64 ::
        bvUnion.bits[k][j] == (old(bvUnion.bits[k][j]) || bv.bits[k][j])
    {
      for i := 0 to numChunks
        invariant bv.bits[..] == old(bv.bits[..])
        invariant forall k, j | 0 <= k < numChunks && 0 <= j < 64 ::
          counts[k, j] == if k < i && bv.bits[k][j] then OneUp(old(counts[k, j])) else old(counts[k, j])
        invariant bvUnion != null ==> forall k, j | 0 <= k < numChunks && 0 <= j < 64 ::
          bvUnion.bits[k][j] == (old(bvUnion.bits[k][j]) || (k < i && bv.bits[k][j]))
      {
        var chunk := bv.bits[i];
        if chunk != Zero() {
          if bvUnion != null {
            bvUnion.bits[i] := Or(bvUnion.bits[i], chunk);
          }
          AddChunk(i, chunk);
        }
      }
    }

    /** The counters, and the maintained union, after a vector has been counted. */
    twostate predicate Raised(v: Vec)
      requires old(Sized()) && |v| == numChunks
      reads this, counts, UnionBits()
    {
      && (forall k, j | 0 <= k < numChunks && 0 <= j < 64 ::
            counts[k, j] == if v[k][j] then OneUp(old(counts[k, j])) else old(counts[k, j]))
      && (bvUnion != null ==> forall k, j | 0 <= k < numChunks && 0 <= j < 64 ::
            bvUnion.bits[k][j] == (old(bvUnion.bits[k][j]) || v[k][j]))
    }

    /** And after one has been discounted. */
    twostate predicate Lowered(v: Vec)
      requires old(Sized()) && |v| == numChunks
      reads this, counts, UnionBits()
    {
      && (forall k, j | 0 <= k < numChunks && 0 <= j < 64 ::
            counts[k, j] == if v[k][j] then OneLess(old(counts[k, j])) else old(counts[k, j]))
      && (bvUnion != null ==> forall k, j | 0 <= k < numChunks && 0 <= j < 64 ::
            bvUnion.bits[k][j] == (old(bvUnion.bits[k][j]) != (v[k][j] && counts[k, j] == 0)))
    }

    twostate lemma RaisedTable(v: Vec)
      requires old(Sized()) && |v| == numChunks && Raised(v)
      ensures Counters() == More(old(Counters()), v)
      ensures bvUnion != null ==> UnionNow() == OrVec(old(UnionNow()), v)
    {
      SameTable(Counters(), More(old(Counters()), v), numChunks);
      if bvUnion != null {
        SameBits(UnionNow(), OrVec(old(UnionNow()), v));
      }
    }

    twostate lemma LoweredTable(v: Vec)
      requires old(Formed()) && |v| == numChunks && Lowered(v)
      ensures Counters() == Less(old(Counters()), v)
      ensures bvUnion != null ==> UnionNow() == UnionLess(old(UnionNow()), old(Counters()), v)
    {
      SameTable(Counters(), Less(old(Counters()), v), numChunks);
      if bvUnion != null {
        SameBits(UnionNow(), UnionLess(old(UnionNow()), old(Counters()), v));
      }
    }

    /** All there is to a count vector at one moment. */
    ghost function Now(): Counting
      requires Sized()
      reads this, counts, bvUnion, UnionBits()
    {
      Counting(entries, Counters(), UnionNow(), members, Valid())
    }

    /** With another vector than the deleted one, nothing is as before. */
    twostate lemma PutOther(swap: (Vec, Vec))
      requires old(Valid()) && Formed() && |swap.0| == numChunks && |swap.1| == numChunks
      requires swap.0 != swap.1 && Exchanges(old(Now()), swap.0, swap.1, Now())
      ensures !(Valid() && Contents() == old(Contents()))
    {
      var (v, w) := swap;
      if v in old(Contents()) {
        assert Contents()[v] == old(Contents())[v] - 1;
      } else if Valid() {
        forall k, j | 0 <= k < numChunks && 0 <= j < 64
          ensures v[k][j] == w[k][j]
        {
          assert counts[k, j] == Holders(members, k, j) == old(counts[k, j]);
        }
        SameBits(v, w);
      }
    }

    /** Everything is as before if and only if no bit of the vector has been added to the maintained union. */
    twostate lemma PutBack(v: Vec)
      requires old(Valid()) && Formed() && |v| == numChunks && Exchanges(old(Now()), v, v, Now())
      ensures Valid() && Contents() == old(Contents()) <==> bvUnion == null || old(Positive(v))
    {
      if v in old(Contents()) {
        MemberIsPositive(v);
      } else {
        ExchangedSame(v);
      }
    }

    twostate lemma ExchangedSame(v: Vec)
      requires old(Valid()) && Formed() && |v| == numChunks && Exchanges(old(Now()), v, v, Now()) && v !in old(Contents())
      ensures Valid() <==> bvUnion == null || old(Positive(v))
    {
      forall k, j | 0 <= k < numChunks && 0 <= j < 64
        ensures counts[k, j] == old(counts[k, j]) == Holders(members, k, j)
      {
      }
    }

    twostate lemma MemberIsPositive(v: Vec)
      requires old(Valid()) && v in old(Contents())
      ensures old(Positive(v))
    {
      var k :| 0 <= k < |old(members)| && old(members)[k] == v;
      forall i, j | 0 <= i < numChunks && 0 <= j < 64 && v[i][j]
        ensures old(counts[i, j]) > 0
      {
        HoldersMean(old(members), |old(members)|, i, j);
        assert HasBit(old(members)[k], i, j);
      }
    }

    /** Some bit of a vector is counted just once. */
    ghost predicate Sole(v: Vec)
      requires Sized() && |v| == numChunks
      reads this, counts, bvUnion
    {
      exists i, j :: 0 <= i < numChunks && 0 <= j < 64 && v[i][j] && counts[i, j] == 1
    }

    /** All other entries, or all of them, have a bit that a vector lacks; or there is just one entry, and it has any bit. */
    ghost predicate Misjudges(v: Vec)
      requires Sized() && |v| == numChunks
      reads this, counts, bvUnion
    {
      exists i, j :: 0 <= i < numChunks && 0 <= j < 64
        && ((entries == 1 && counts[i, j] == 1) || (entries > 1 && !v[i][j] && counts[i, j] >= entries - 1))
    }

    /** Discounting a vector takes the bits out of the union that are counted just once, whether or not it is a member. */
    twostate lemma LowersUnion(v: Vec)
      requires old(Valid()) && |v| == numChunks && bvUnion != null && Sized()
      requires UnionNow() == UnionLess(old(UnionNow()), old(Counters()), v)
      ensures UnionNow() == UnionOf(old(Contents()), numChunks) <==> !old(Sole(v))
    {
      var was, now := UnionOf(old(Contents()), numChunks), UnionNow();
      forall i, j | 0 <= i < numChunks && 0 <= j < 64
        ensures was[i][j] == (old(counts[i, j]) > 0) && now[i][j] == (was[i][j] && !(v[i][j] && old(counts[i, j]) == 1))
      {
        CountersMean(old(members), numChunks, i, j);
        assert old(counts[i, j]) == Holders(old(members), i, j);
        assert old(bvUnion.bits[i][j]) <==> old(counts[i, j]) > 0;
      }
      if !old(Sole(v)) {
        SameBits(was, now);
      }
    }

    /** What the intersection is in the meantime. */
    twostate lemma LowersIntersection(v: Vec)
      requires old(Valid()) && |v| == numChunks && Sized() && entries == old(entries) - 1 && bvUnion == null
      requires Counters() == Less(old(Counters()), v)
      ensures Common() == IntersectionOf(old(Contents()), numChunks) <==> !old(Misjudges(v))
    {
      var was, now := IntersectionOf(old(Contents()), numChunks), Common();
      forall i, j | 0 <= i < numChunks && 0 <= j < 64
        ensures was[i][j] == (old(counts[i, j]) == old(entries)) && old(counts[i, j]) <= old(entries)
      {
        CountersMean(old(members), numChunks, i, j);
        assert old(counts[i, j]) == Holders(old(members), i, j);
      }
      if !old(Misjudges(v)) {
        SameBits(was, now);
      }
    }

    method Recount(bv: BitVector)
      requires Formed() && bv.Valid() && bv.bits.Length == numChunks && bv.bits !in UnionBits() && bv != bvUnion
      modifies counts, UnionBits(), if bvUnion == null then {} else {bvUnion}
      ensures Formed() && Raised(bv.Value())
    {
      PopCountZero(bv.Value());
      if bv.popCount != 0 {
        AddChunks(bv);
        if bvUnion != null {
          bvUnion.popCount := -1;
        }
      }
    }

    /** Counting a vector in addition to the members. */
    twostate lemma RaisedCounts(v: Vec)
      requires old(Valid()) && |v| == numChunks && Raised(v) && |members| < CV_MAX && members == old(members)
      ensures Counted(counts, members + [v], numChunks) && UnionExact()
    {
      forall i, j | 0 <= i < numChunks && 0 <= j < 64
        ensures counts[i, j] == Holders(members + [v], i, j)
      {
        HoldersAdd(members, v, |members|, i, j);
        assert old(counts[i, j]) == Holders(members, i, j);
      }
    }

    /** Fails only when the vector is full, and otherwise adds one member. */
    method Add(bv: BitVector) returns (ret: Status)
      requires Formed() && bv.Valid() && bv.bits.Length == numChunks && bv.bits !in Repr() && bv !in Repr()
      modifies Repr()
      ensures Formed() && ret == if old(entries) == CV_MAX then ErrResources else Ok
      ensures if ret == Ok then Adds(old(Now()), bv.Value(), Now()) else unchanged(Repr())
    {
      hide Holders, Counted, More;
      if entries == CV_MAX {
        return ErrResources;
      }
      ghost var v := bv.Value();
      ghost var valid := Valid();
      Recount(bv);
      assert bv.Value() == v;
      RaisedTable(v);
      if valid {
        RaisedCounts(v);
        members := members + [v];
      }
      entries := entries + 1;
      return Ok;
    }

    /** The counters of all bits of a vector are positive. */
    ghost predicate Positive(v: Vec)
      reads counts
    {
      && counts.Length0 == numChunks == |v| && counts.Length1 == 64
      && forall k, j | 0 <= k < numChunks && 0 <= j < 64 && v[k][j] :: counts[k, j] > 0
    }

    /** Discounts every chunk of a deleted vector. */
    method DelChunks(bv: BitVector)
      requires Sized() && bv.bits.Length == numChunks && bv.bits !in UnionBits()
      modifies counts, UnionBits()
      ensures Lowered(bv.Value())
    {
      for i := 0 to numChunks
        invariant bv.bits[..] == old(bv.bits[..])
        invariant forall k, j | 0 <= k < numChunks && 0 <= j < 64 ::
          counts[k, j] == if k < i && bv.bits[k][j] then OneLess(old(counts[k, j])) else old(counts[k, j])
        invariant bvUnion != null ==> forall k, j | 0 <= k < numChunks && 0 <= j < 64 ::
          bvUnion.bits[k][j] == (old(bvUnion.bits[k][j]) != (k < i && bv.bits[k][j] && counts[k, j] == 0))
      {
        var chunk := bv.bits[i];
        if chunk != Zero() {
          var cleared := DelChunk(i, chunk);
          if bvUnion != null {
            bvUnion.bits[i] := Words.Xor(bvUnion.bits[i], cleared);
          }
        }
      }
    }

    method Uncount(bv: BitVector)
      requires Formed() && bv.Valid() && bv.bits.Length == numChunks && bv.bits !in UnionBits() && bv != bvUnion
      modifies counts, UnionBits(), if bvUnion == null then {} else {bvUnion}
      ensures Formed() && Lowered(bv.Value())
    {
      PopCountZero(bv.Value());
      if bv.popCount != 0 {
        DelChunks(bv);
        if bvUnion != null {
          bvUnion.popCount := -1;
        }
      }
    }

    /** Discounting one of the members. */
    twostate lemma LoweredCounts(k: nat)
      requires old(Valid()) && k < |old(members)| && Lowered(old(members)[k])
      ensures Counted(counts, Without(old(members), k), numChunks) && UnionExact()
      ensures |Without(old(members), k)| == |old(members)| - 1 && AllOfSize(Without(old(members), k), numChunks)
    {
      CountedDel(old(members), k);
      var v, rest := old(members)[k], Without(old(members), k);
      forall i, j | 0 <= i < numChunks && 0 <= j < 64
        ensures counts[i, j] == Holders(rest, i, j)
      {
        assert old(counts[i, j]) == Holders(old(members), i, j);
      }
    }

    /** Fails only when the vector is empty, and otherwise removes one member. Deleting a vector that is not a member
        leaves a wrong number of entries. */
    method Del(bv: BitVector) returns (ret: Status)
      requires Formed() && bv.Valid() && bv.bits.Length == numChunks && bv.bits !in Repr() && bv !in Repr()
      modifies Repr()
      ensures Formed() && ret == if old(entries) == 0 then ErrArgs else Ok
      ensures bv.Value() == old(bv.Value())
      ensures if ret == Ok then Removes(old(Now()), bv.Value(), Now()) else unchanged(Repr())
    {
      hide Without, Holders, Counted, More, Less, UnionLess;
      if entries == 0 {
        return ErrArgs;
      }
      ghost var v, rest := bv.Value(), members;
      ghost var member := Valid() && v in Contents();
      Uncount(bv);
      assert bv.Value() == v;
      LoweredTable(v);
      if member {
        ghost var k :| 0 <= k < |members| && members[k] == v;
        LoweredCounts(k);
        rest := Without(members, k);
      }
      members := rest;
      entries := entries - 1;
      return Ok;
    }

    /** There are at most as many members as a counter can count. */
    lemma FewMembers()
      requires Valid()
      ensures |Contents()| == entries <= CV_MAX
    {
    }

    method ToUnion() returns (union: BitVector?)
      requires Formed()
      ensures union == null <==> bvUnion == null
      ensures union != null ==>
        fresh(union) && fresh(union.bits) && union.Valid() && union.Value() == bvUnion.Value()
      ensures union != null && Valid() ==> union.Value() == UnionOf(Contents(), numChunks)
    {
      if bvUnion == null {
        return null;
      }
      union := bvUnion.Clone();
      if Valid() {
        IsUnion(union.Value());
      }
    }

    lemma IsUnion(r: Vec)
      requires Valid() && bvUnion != null && r == bvUnion.Value()
      ensures r == UnionOf(Contents(), numChunks)
    {
      forall i, j | 0 <= i < numChunks && 0 <= j < 64
        ensures r[i][j] == UnionOf(Contents(), numChunks)[i][j]
      {
        CountersMean(members, numChunks, i, j);
        assert r[i] == bvUnion.bits[i];
      }
      SameBits(r, UnionOf(Contents(), numChunks));
    }

    /** One chunk of the intersection. */
    method ChunkIntersection(i: nat) returns (chunk: Word)
      requires Sized() && i < numChunks
      ensures forall j | 0 <= j < 64 :: chunk[j] <==> counts[i, j] == entries
    {
      chunk := Zero();
      for j := 0 to 64
        invariant forall k | 0 <= k < 64 :: chunk[k] <==> k < j && counts[i, k] == entries
      {
        if counts[i, j] == entries {
          chunk := SetBit(chunk, j);
        }
      }
    }

    /** Every chunk of the intersection; a chunk with an empty union is skipped. */
    method FillIntersection(bv: BitVector)
      requires Sized() && bv.bits.Length == numChunks && bv.bits !in UnionBits()
      requires IsZero(bv.Value())
      modifies bv.bits
      ensures forall i, j | 0 <= i < numChunks && 0 <= j < 64 ::
        bv.bits[i][j] <==> entries > 0 && counts[i, j] == entries && (bvUnion == null || bvUnion.bits[i] != Zero())
    {
      if entries == 0 {
        return;
      }
      for i := 0 to numChunks
        invariant forall k, j | 0 <= k < numChunks && 0 <= j < 64 ::
          bv.bits[k][j] <==> k < i && counts[k, j] == entries && (bvUnion == null || bvUnion.bits[k] != Zero())
      {
        if bvUnion == null || bvUnion.bits[i] != Zero() {
          var chunk := ChunkIntersection(i);
          bv.bits[i] := chunk;
        }
      }
    }

    method ToIntersection() returns (bv: BitVector)
      requires Formed()
      ensures fresh(bv) && fresh(bv.bits) && bv.Valid() && bv.Value() == Common()
      ensures Valid() ==> bv.Value() == IntersectionOf(Contents(), numChunks)
    {
      bv := new BitVector(numChunks);
      FillIntersection(bv);
      SameBits(bv.Value(), Common());
      if Valid() {
        IsIntersection();
      }
    }

    lemma IsIntersection()
      requires Valid()
      ensures Common() == IntersectionOf(Contents(), numChunks)
    {
      forall i, j | 0 <= i < numChunks && 0 <= j < 64
        ensures Common()[i][j] == IntersectionOf(Contents(), numChunks)[i][j]
      {
        CountersMean(members, numChunks, i, j);
        if entries > 0 && counts[i, j] == entries && bvUnion != null {
          assert bvUnion.bits[i][j];
        }
      }
      SameBits(Common(), IntersectionOf(Contents(), numChunks));
    }
  }
}
