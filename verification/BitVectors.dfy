/** Bit vectors with a cached population count. */
module BitVectors {
  import opened Words

  const FH_CHUNKS: nat := 4

  // ---- the similarity-preserving hash ----

  /** The union of the first `n` chunks. */
  function Squash(v: Vec, n: nat): Word
    requires n <= |v|
  {
    if n == 0 then Zero() else Or(Squash(v, n - 1), v[n - 1])
  }

  /** `p |= ROTL64(p, r)` for each rotation in turn. */
  function Smear(s: Word, rotations: seq<nat>): Word
    requires forall k | 0 <= k < |rotations| :: 0 < rotations[k] < 64
  {
    if rotations == [] then s
    else
      var last := |rotations| - 1;
      var p := Smear(s, rotations[..last]);
      Or(p, Rotl(p, rotations[last]))
  }

  function CountMask(popCount: nat): Word {
    if popCount > 62 then Ones() else LowBits(popCount)
  }

  function FuzzyHash(v: Vec): (h: Vec)
    ensures |h| == FH_CHUNKS
  {
    var popCount := PopCount(v);
    if popCount == 0 then [Zero(), Zero(), Zero(), Zero()]
    else
      var s := Squash(v, |v|);
      [Smear(s, [7, 31]), Smear(s, [11, 29, 37]), Smear(s, [13, 17, 19, 41]), CountMask(popCount)]
  }

  lemma {:induction false} SquashMonotone(a: Vec, b: Vec, n: nat)
    requires n <= |a| == |b| && Includes(a, b)
    ensures WordIncludes(Squash(a, n), Squash(b, n))
  {
    if n > 0 {
      SquashMonotone(a, b, n - 1);
      assert WordIncludes(a[n - 1], b[n - 1]);
    }
  }

  lemma RotlMonotone(a: Word, b: Word, n: nat)
    requires 0 < n < 64 && WordIncludes(a, b)
    ensures WordIncludes(Or(a, Rotl(a, n)), Or(b, Rotl(b, n)))
  {
    forall k | 0 <= k < 64
      ensures Rotl(b, n)[k] ==> Rotl(a, n)[k]
    {
      assert k + (64 - n) < 64 && b[k + (64 - n)] ==> a[k + (64 - n)];
      assert k >= n && b[k - n] ==> a[k - n];
    }
  }

  lemma {:induction false} SmearMonotone(a: Word, b: Word, rotations: seq<nat>)
    requires forall k | 0 <= k < |rotations| :: 0 < rotations[k] < 64
    requires WordIncludes(a, b)
    ensures WordIncludes(Smear(a, rotations), Smear(b, rotations))
  {
    if rotations != [] {
      var last := |rotations| - 1;
      SmearMonotone(a, b, rotations[..last]);
      RotlMonotone(Smear(a, rotations[..last]), Smear(b, rotations[..last]), rotations[last]);
    }
  }

  /** The hash of a superset is a superset of the hash, for vectors of any length. */
  lemma FuzzyHashMonotone(a: Vec, b: Vec)
    requires |a| == |b| && Includes(a, b)
    ensures Includes(FuzzyHash(a), FuzzyHash(b))
  {
    SquashMonotone(a, b, |a|);
    var s, t := Squash(a, |a|), Squash(b, |b|);
    SmearMonotone(s, t, [7, 31]);
    SmearMonotone(s, t, [11, 29, 37]);
    SmearMonotone(s, t, [13, 17, 19, 41]);
    PopToMonotone(a, b, |a|);
  }

  /** The hash of a vector is empty exactly when the vector is. */
  lemma FuzzyHashZero(v: Vec)
    ensures IsZero(FuzzyHash(v)) <==> IsZero(v)
  {
    PopCountZero(v);
    if PopCount(v) > 0 {
      assert FuzzyHash(v)[3][0];
    }
  }

  /** Around a word: the bit from which `k` is reached after `x` places, and the distance of two rotations. */
  function Back(k: nat, x: nat): (b: nat)
    requires k < 64
    ensures b < 64
  {
    (k - x) % 64
  }

  function Sum(x: nat, r: nat): (d: nat)
    ensures d < 64
  {
    (x + r) % 64
  }

  /** Some bit of some chunk is set from which bit `k` lies at one of the distances, around the word. */
  ghost predicate Reached(v: Vec, k: nat, distances: set<nat>)
    requires k < 64
  {
    exists i, b: nat | 0 <= i < |v| && b < 64 :: v[i][b] && Back(k, b) in distances
  }

  lemma {:induction false} SquashBit(v: Vec, n: nat, b: nat)
    requires n <= |v| && b < 64
    ensures Squash(v, n)[b] <==> exists i | 0 <= i < n :: v[i][b]
  {
    if n > 0 {
      SquashBit(v, n - 1, b);
    }
  }

  /** Each distance, `r` farther. */
  function Farther(d: seq<nat>, r: nat): (e: seq<nat>)
    ensures |e| == |d| && forall i | 0 <= i < |d| :: e[i] == Sum(d[i], r)
  {
    if d == [] then [] else [Sum(d[0], r)] + Farther(d[1..], r)
  }

  /** How far a sequence of rotations takes a bit: the sums of some of them. */
  function Sums(rotations: seq<nat>): (d: seq<nat>)
    ensures forall x | x in d :: x < 64
  {
    if rotations == [] then [0]
    else
      var last := |rotations| - 1;
      var d := Sums(rotations[..last]);
      d + Farther(d, rotations[last])
  }

  lemma RotlBit(p: Word, r: nat, k: nat)
    requires 0 < r < 64 && k < 64
    ensures Or(p, Rotl(p, r))[k] <==> p[k] || p[Back(k, r)]
  {
    hide Back;
    BackIs(k, r);
  }

  lemma BackIs(k: nat, r: nat)
    requires r < 64 && k < 64
    ensures Back(k, r) == if k >= r then k - r else k - r + 64
  {
  }

  lemma SumIs(x: nat, r: nat)
    requires x < 64 && r < 64
    ensures Sum(x, r) == if x + r < 64 then x + r else x + r - 64
  {
  }

  lemma Around(k: nat, r: nat, x: nat)
    requires k < 64 && r < 64 && x < 64
    ensures Back(Back(k, r), x) == Back(k, Sum(x, r)) && Back(k, 0) == k
  {
    hide Back, Sum;
    BackIs(k, r);
    BackIs(Back(k, r), x);
    SumIs(x, r);
    BackIs(k, Sum(x, r));
    BackIs(k, 0);
  }

  lemma ThereAndBack(k: nat, x: nat)
    requires k < 64 && x < 64
    ensures Back(k, Back(k, x)) == x
  {
    hide Back;
    BackIs(k, x);
    BackIs(k, Back(k, x));
  }

  /** The distances after one more rotation. */
  lemma InSums(rotations: seq<nat>, x: nat)
    requires rotations != []
    ensures var (rest, r) := (rotations[..|rotations| - 1], rotations[|rotations| - 1]);
      && (x in Sums(rest) ==> x in Sums(rotations) && Sum(x, r) in Sums(rotations))
      && (x in Sums(rotations) ==> x in Sums(rest) || exists y :: y in Sums(rest) && x == Sum(y, r))
  {
    var (d, r) := (Sums(rotations[..|rotations| - 1]), rotations[|rotations| - 1]);
    if i :| 0 <= i < |d| && d[i] == x {
      assert (d + Farther(d, r))[|d| + i] == Sum(x, r);
    }
    if i :| 0 <= i < |d| && Farther(d, r)[i] == x {
      assert d[i] in d;
    }
  }

  /** A bit is set after the rotations if one was set before from which they can take it there. */
  lemma {:induction false} SmearBit(s: Word, rotations: seq<nat>, k: nat)
    requires k < 64 && forall i | 0 <= i < |rotations| :: 0 < rotations[i] < 64
    ensures Smear(s, rotations)[k] <==> exists x | x in Sums(rotations) :: s[Back(k, x)]
  {
    hide Back, Sum, Or, Rotl;
    Around(k, 0, 0);
    if rotations == [] {
      assert Sums(rotations) == [0];
    } else {
      var (rest, r) := (rotations[..|rotations| - 1], rotations[|rotations| - 1]);
      RotlBit(Smear(s, rest), r, k);
      SmearBit(s, rest, k);
      SmearBit(s, rest, Back(k, r));
      hide Sums;
      if x :| x in Sums(rest) && s[Back(k, x)] {
        InSums(rotations, x);
      }
      if x :| x in Sums(rest) && s[Back(Back(k, r), x)] {
        InSums(rotations, x);
        Around(k, r, x);
      }
      if x :| x in Sums(rotations) && s[Back(k, x)] {
        InSums(rotations, x);
        if y :| y in Sums(rest) && x == Sum(y, r) {
          Around(k, r, y);
        }
      }
    }
  }

  lemma ReachedMeans(v: Vec, k: nat, distances: set<nat>)
    requires k < 64 && forall x | x in distances :: x < 64
    ensures Reached(v, k, distances) <==> exists x | x in distances :: Squash(v, |v|)[Back(k, x)]
  {
    hide Back, Squash;
    if x :| x in distances && Squash(v, |v|)[Back(k, x)] {
      SquashBit(v, |v|, Back(k, x));
      ThereAndBack(k, x);
      var i :| 0 <= i < |v| && v[i][Back(k, x)];
      assert Back(k, Back(k, x)) in distances;
    }
    if Reached(v, k, distances) {
      var i, b: nat :| 0 <= i < |v| && b < 64 && v[i][b] && Back(k, b) in distances;
      ThereAndBack(k, b);
      SquashBit(v, |v|, b);
      assert Squash(v, |v|)[Back(k, Back(k, b))];
    }
  }

  lemma OneFarther(a: seq<nat>, r: nat, b: seq<nat>, d: seq<nat>)
    requires b == a + [r] && Sums(a) == d
    ensures Sums(b) == d + Farther(d, r)
  {
    assert b[..|a|] == a;
  }

  lemma Distances0()
    ensures forall x :: x in Sums([7, 31]) <==> x in {0, 7, 31, 38}
  {
    OneFarther([], 7, [7], [0]);
    OneFarther([7], 31, [7, 31], [0, 7]);
    assert Sums([7, 31]) == [0, 7, 31, 38];
  }

  lemma Distances1()
    ensures forall x :: x in Sums([11, 29, 37]) <==> x in {0, 2, 11, 13, 29, 37, 40, 48}
  {
    OneFarther([], 11, [11], [0]);
    OneFarther([11], 29, [11, 29], [0, 11]);
    OneFarther([11, 29], 37, [11, 29, 37], [0, 11, 29, 40]);
    assert Sums([11, 29, 37]) == [0, 11, 29, 40, 37, 48, 2, 13];
  }

  lemma LastFarther()
    ensures Farther([0, 13, 17, 30, 19, 32, 36, 49], 41) == [41, 54, 58, 7, 60, 9, 13, 26]
  {
  }

  lemma AllFarther()
    ensures Sums([13, 17, 19]) == [0, 13, 17, 30, 19, 32, 36, 49]
  {
    OneFarther([], 13, [13], [0]);
    OneFarther([13], 17, [13, 17], [0, 13]);
    OneFarther([13, 17], 19, [13, 17, 19], [0, 13, 17, 30]);
  }

  lemma Distances2()
    ensures forall x ::
      x in Sums([13, 17, 19, 41]) <==> x in {0, 7, 9, 13, 17, 19, 26, 30, 32, 36, 41, 49, 54, 58, 60}
  {
    hide Sums, Farther;
    AllFarther();
    LastFarther();
    OneFarther([13, 17, 19], 41, [13, 17, 19, 41], [0, 13, 17, 30, 19, 32, 36, 49]);
  }

  /** The hash bit by bit: three words in which every bit of the vector is seen at fixed distances, and one with as many bits as
      the vector, or all of them. */
  lemma HashBits(v: Vec, k: nat)
    requires k < 64
    ensures var h := FuzzyHash(v);
      && (h[0][k] <==> Reached(v, k, {0, 7, 31, 38}))
      && (h[1][k] <==> Reached(v, k, {0, 2, 11, 13, 29, 37, 40, 48}))
      && (h[2][k] <==> Reached(v, k, {0, 7, 9, 13, 17, 19, 26, 30, 32, 36, 41, 49, 54, 58, 60}))
      && (h[3][k] <==> k < PopCount(v) || PopCount(v) > 62)
  {
    hide Smear, Squash, Sums, PopTo, Reached;
    Distances0();
    Distances1();
    Distances2();
    PopCountZero(v);
    if PopCount(v) > 0 {
      var s := Squash(v, |v|);
      SmearBit(s, [7, 31], k);
      SmearBit(s, [11, 29, 37], k);
      SmearBit(s, [13, 17, 19, 41], k);
      ReachedMeans(v, k, {0, 7, 31, 38});
      ReachedMeans(v, k, {0, 2, 11, 13, 29, 37, 40, 48});
      ReachedMeans(v, k, {0, 7, 9, 13, 17, 19, 26, 30, 32, 36, 41, 49, 54, 58, 60});
    } else {
      NothingReached(v, k);
    }
  }

  lemma NothingReached(v: Vec, k: nat)
    requires IsZero(v) && k < 64
    ensures forall distances: set<nat> :: !Reached(v, k, distances)
  {
  }

  // ---- Bloom filters ----

  /** The vector with one more bit set. */
  ghost function SetAt(v: Vec, index: nat): Vec
    requires index < 64 * |v|
  {
    v[index / 64 := SetBit(v[index / 64], index % 64)]
  }

  predicate TestAt(v: Vec, index: nat)
    requires index < 64 * |v|
  {
    v[index / 64][index % 64]
  }

  predicate InRange(indices: seq<nat>, len: nat) {
    forall k | 0 <= k < |indices| :: indices[k] < len
  }

  ghost function SetAll(v: Vec, indices: seq<nat>): (r: Vec)
    requires InRange(indices, 64 * |v|)
    ensures |r| == |v|
    ensures forall x | 0 <= x < 64 * |v| :: TestAt(r, x) <==> TestAt(v, x) || x in indices
  {
    if indices == [] then v else SetAt(SetAll(v, indices[..|indices| - 1]), indices[|indices| - 1])
  }

  class BitVector {
    /** The population count, or -1 when it is not known. */
    var popCount: int
    const bits: array<Word>

    /** A known count is the true one. */
    ghost predicate Valid()
      reads this, bits
    {
      popCount == -1 || popCount == PopCount(bits[..])
    }

    ghost function Value(): Vec
      reads bits
    {
      bits[..]
    }

    constructor (numChunks: nat)
      ensures Valid() && popCount == -1 && fresh(bits)
      ensures Value() == ZeroVec(numChunks)
    {
      bits := new Word[numChunks](_ => Zero());
      popCount := -1;
    }

    method IsClear() returns (clear: bool)
      requires Valid()
      modifies this
      ensures Valid()
      ensures clear == IsZero(Value())
    {
      PopCountZero(bits[..]);
      if popCount < 0 {
        for i := 0 to bits.Length
          invariant forall k | 0 <= k < i :: bits[k] == Zero()
        {
          if bits[i] != Zero() {
            return false;
          }
        }
        popCount := 0;
        return true;
      } else {
        return popCount == 0;
      }
    }

    method CountBits() returns (n: nat)
      requires Valid()
      modifies `popCount
      ensures Valid()
      ensures n == PopCount(Value()) && popCount == n
    {
      if popCount < 0 {
        n := 0;
        for i := 0 to bits.Length
          invariant n == PopTo(bits[..], i)
        {
          n := n + Count(bits[i]);
        }
        popCount := n;
      }
      n := popCount;
    }

    method Dup(src: BitVector)
      requires src.Valid() && src.bits.Length == bits.Length
      modifies this, bits
      ensures Valid()
      ensures Value() == old(src.Value())
    {
      if this != src {
        for i := 0 to bits.Length
          invariant forall k | 0 <= k < i :: bits[k] == old(src.bits[k])
          invariant forall k | 0 <= k < bits.Length :: src.bits[k] == old(src.bits[k])
        {
          bits[i] := src.bits[i];
        }
        assert bits[..] == old(src.bits[..]);
        popCount := src.popCount;
      }
    }

    method Clone() returns (clone: BitVector)
      requires Valid()
      ensures fresh(clone) && fresh(clone.bits) && clone.Valid()
      ensures clone.Value() == Value()
    {
      clone := new BitVector(bits.Length);
      clone.Dup(this);
    }

    /** Sets the bits that the hash of one item selects. */
    method BloomInsert(indices: seq<nat>)
      requires InRange(indices, 64 * bits.Length)
      modifies this, bits
      ensures Valid()
      ensures Value() == SetAll(old(Value()), indices)
    {
      for h := 0 to |indices|
        invariant bits[..] == SetAll(old(bits[..]), indices[..h])
      {
        assert indices[..h + 1][..h] == indices[..h];
        var index := indices[h];
        bits[index / 64] := SetBit(bits[index / 64], index % 64);
      }
      assert indices[..|indices|] == indices;
      popCount := -1;
    }

    method BloomTest(indices: seq<nat>) returns (found: bool)
      requires InRange(indices, 64 * bits.Length)
      ensures found == forall k | 0 <= k < |indices| :: TestAt(Value(), indices[k])
    {
      for h := 0 to |indices|
        invariant forall k | 0 <= k < h :: TestAt(bits[..], indices[k])
      {
        if !bits[indices[h] / 64][indices[h] % 64] {
          assert !TestAt(bits[..], indices[h]);
          return false;
        }
      }
      return true;
    }

    method Equals(bv: BitVector) returns (same: bool)
      ensures same == (Value() == bv.Value())
    {
      if bits.Length != bv.bits.Length {
        return false;
      }
      for i := 0 to bits.Length
        invariant forall k | 0 <= k < i :: bits[k] == bv.bits[k]
      {
        if bits[i] != bv.bits[i] {
          assert bits[..][i] != bv.bits[..][i];
          return false;
        }
      }
      return true;
    }

    /** True when this vector is not empty and has all bits of the other. */
    method IncludesAll(bv: BitVector) returns (ok: bool)
      requires Valid() && bv.bits.Length == bits.Length
      ensures ok == (!IsZero(Value()) && Words.Includes(Value(), bv.Value()))
    {
      PopCountZero(bits[..]);
      if popCount == 0 {
        return false;
      }
      var union := Zero();
      for i := 0 to bits.Length
        invariant forall k | 0 <= k < i :: WordIncludes(bits[k], bv.bits[k])
        invariant union == Zero() <==> forall k | 0 <= k < i :: bits[k] == Zero()
      {
        if And(bits[i], bv.bits[i]) != bv.bits[i] {
          assert !WordIncludes(bits[..][i], bv.bits[..][i]);
          return false;
        }
        forall k | 0 <= k < 64
          ensures bv.bits[i][k] ==> bits[i][k]
        {
          assert And(bits[i], bv.bits[i])[k] == bv.bits[i][k];
        }
        OrZero(union, bits[i]);
        union := Or(union, bits[i]);
      }
      return union != Zero();
    }

    method SquashBits() returns (s: Word, n: nat)
      ensures s == Squash(Value(), bits.Length) && n == PopCount(Value())
    {
      s, n := Zero(), 0;
      for i := 0 to bits.Length
        invariant s == Squash(bits[..], i) && n == PopTo(bits[..], i)
      {
        n := n + Count(bits[i]);
        s := Or(s, bits[i]);
      }
    }

    /** Stores the hash of `bv` in this vector and refreshes the count of `bv`. */
    method SetFuzzyHash(bv: BitVector)
      requires Valid() && bv.Valid() && bits.Length == FH_CHUNKS && bv != this && bv.bits != bits
      modifies this, bits, bv`popCount
      ensures Valid() && bv.Valid()
      ensures Value() == FuzzyHash(bv.Value())
      ensures forall k | 0 <= k < 64 ::
        && (Value()[0][k] <==> Reached(bv.Value(), k, {0, 7, 31, 38}))
        && (Value()[1][k] <==> Reached(bv.Value(), k, {0, 2, 11, 13, 29, 37, 40, 48}))
        && (Value()[2][k] <==> Reached(bv.Value(), k, {0, 7, 9, 13, 17, 19, 26, 30, 32, 36, 41, 49, 54, 58, 60}))
        && (Value()[3][k] <==> k < PopCount(bv.Value()) || PopCount(bv.Value()) > 62)
    {
      forall k | 0 <= k < 64 {
        HashBits(bv.Value(), k);
      }
      hide Reached;
      PopCountZero(bv.bits[..]);
      var s, popCount := Zero(), 0;
      if bv.popCount != 0 {
        s, popCount := bv.SquashBits();
        bv.popCount := popCount;
      }
      if popCount == 0 {
        Clear();
        assert bits[..] == FuzzyHash(bv.bits[..]);
        return;
      }
      bits[0] := Smear(s, [7, 31]);
      bits[1] := Smear(s, [11, 29, 37]);
      bits[2] := Smear(s, [13, 17, 19, 41]);
      if popCount > 62 {
        bits[3] := Ones();
      } else {
        bits[3] := LowBits(popCount);
      }
      this.popCount := -1;
    }

    method Union(bv: BitVector)
      requires bv.bits.Length == bits.Length
      modifies this, bits
      ensures Valid()
      ensures Value() == OrVec(old(Value()), old(bv.Value()))
    {
      for i := 0 to bits.Length
        invariant forall k | 0 <= k < i :: bits[k] == Or(old(bits[k]), old(bv.bits[k]))
        invariant forall k | i <= k < bits.Length :: bits[k] == old(bits[k]) && bv.bits[k] == old(bv.bits[k])
      {
        bits[i] := Or(bits[i], bv.bits[i]);
      }
      popCount := -1;
    }

    /** Stores the intersection of two vectors, either of which may be this one. */
    method Intersection(left: BitVector, right: BitVector)
      requires Valid() && left.Valid() && right.Valid()
      requires bits.Length == left.bits.Length == right.bits.Length
      requires (left == this || left.bits != bits) && (right == this || right.bits != bits)
      modifies this, bits
      ensures Valid()
      ensures Value() == AndVec(old(left.Value()), old(right.Value()))
    {
      ghost var v1, v2 := left.bits[..], right.bits[..];
      PopCountZero(v1);
      PopCountZero(v2);
      if left.popCount != 0 && right.popCount != 0 {
        var nz := AndChunks(left, right);
        popCount := if nz then -1 else 0;
        PopCountZero(bits[..]);
      } else {
        Clear();
        AndZero(v1, v2);
        assert bits[..] == AndVec(v1, v2);
      }
    }

    method AndChunks(left: BitVector, right: BitVector) returns (nz: bool)
      requires bits.Length == left.bits.Length == right.bits.Length
      modifies bits
      ensures Value() == AndVec(old(left.Value()), old(right.Value()))
      ensures !nz ==> IsZero(Value())
    {
      ghost var v1, v2 := left.bits[..], right.bits[..];
      nz := false;
      for i := 0 to bits.Length
        invariant forall k | 0 <= k < i :: bits[k] == And(v1[k], v2[k])
        invariant forall k | i <= k < bits.Length :: left.bits[k] == v1[k] && right.bits[k] == v2[k]
        invariant !nz ==> forall k | 0 <= k < i :: bits[k] == Zero()
      {
        bits[i] := And(left.bits[i], right.bits[i]);
        nz := nz || bits[i] != Zero();
      }
    }

    /** Stores the difference of two vectors, either of which may be this one. `equal` starts as the caller left it
        and is only ever cleared when neither vector is known to be empty. */
    method Xor(left: BitVector, right: BitVector, wasEqual: bool) returns (equal: bool)
      requires Valid() && left.Valid() && right.Valid()
      requires bits.Length == left.bits.Length == right.bits.Length
      requires (left == this || left.bits != bits) && (right == this || right.bits != bits)
      modifies this, bits, left`popCount, right`popCount
      ensures Valid() && left.Valid() && right.Valid()
      ensures Value() == XorVec(old(left.Value()), old(right.Value()))
      ensures !wasEqual ==> equal == (old(left.Value()) == old(right.Value()))
    {
      PopCountZero(left.bits[..]);
      PopCountZero(right.bits[..]);
      ghost var v1, v2 := left.bits[..], right.bits[..];
      equal := wasEqual;
      if left.popCount == 0 {
        var n := right.CountBits();
        if n == 0 {
          equal := true;
        }
        Dup(right);
        XorZero(v1, v2);
      } else if right.popCount == 0 {
        var n := left.CountBits();
        if n == 0 {
          equal := true;
        }
        Dup(left);
        XorZero(v1, v2);
      } else {
        var diff := XorChunks(left, right);
        equal := !diff;
        popCount := -1;
      }
      assert left != this ==> left.bits[..] == v1;
      assert right != this ==> right.bits[..] == v2;
    }

    method XorChunks(left: BitVector, right: BitVector) returns (diff: bool)
      requires bits.Length == left.bits.Length == right.bits.Length
      modifies bits
      ensures Value() == XorVec(old(left.Value()), old(right.Value()))
      ensures diff == (old(left.Value()) != old(right.Value()))
    {
      ghost var v1, v2 := left.bits[..], right.bits[..];
      diff := false;
      for i := 0 to bits.Length
        invariant forall k | 0 <= k < i :: bits[k] == Words.Xor(v1[k], v2[k])
        invariant forall k | i <= k < bits.Length :: left.bits[k] == v1[k] && right.bits[k] == v2[k]
        invariant if diff then v1 != v2 else forall k | 0 <= k < i :: v1[k] == v2[k]
      {
        XorWordZero(v1[i], v2[i]);
        bits[i] := Words.Xor(left.bits[i], right.bits[i]);
        diff := diff || bits[i] != Zero();
      }
    }

    method Fill()
      modifies this, bits
      ensures Valid()
      ensures forall i | 0 <= i < bits.Length :: bits[i] == Ones()
    {
      for i := 0 to bits.Length
        invariant forall k | 0 <= k < i :: bits[k] == Ones()
      {
        bits[i] := Ones();
      }
      PopToFull(bits[..], bits.Length);
      popCount := 64 * bits.Length;
    }

    method Clear()
      requires Valid()
      modifies this, bits
      ensures Valid() && popCount == 0
      ensures Value() == ZeroVec(bits.Length)
    {
      PopCountZero(bits[..]);
      if popCount != 0 {
        for i := 0 to bits.Length
          invariant forall k | 0 <= k < i :: bits[k] == Zero()
        {
          bits[i] := Zero();
        }
        PopCountZero(bits[..]);
        popCount := 0;
      }
    }

    /** The complement keeps a known positive count exact; an unknown count becomes a wrong one, and so does a
        count of zero unless the vector has no bits at all. */
    method Complement()
      modifies this, bits
      ensures Value() == NotVec(old(Value()))
      ensures popCount == if old(popCount) != 0 then 64 * bits.Length - old(popCount) else 0
      ensures old(Valid()) ==> (Valid() <==> old(popCount) > 0 || (old(popCount) == 0 && bits.Length == 0))
    {
      for i := 0 to bits.Length
        modifies bits
        invariant forall k | 0 <= k < i :: bits[k] == Not(old(bits[k]))
        invariant forall k | i <= k < bits.Length :: bits[k] == old(bits[k])
      {
        bits[i] := Not(bits[i]);
      }
      assert bits[..] == NotVec(old(bits[..]));
      PopToNot(old(bits[..]), bits.Length);
      if popCount != 0 {
        popCount := 64 * bits.Length - popCount;
      }
      assert bits[..] == NotVec(old(bits[..]));
      assert PopCount(bits[..]) == 64 * bits.Length - PopCount(old(bits[..]));
    }

    method Set(data: Vec) returns (ok: bool)
      requires Valid()
      modifies this, bits
      ensures Valid()
      ensures ok == (|data| == bits.Length)
      ensures Value() == if ok then data else old(Value())
    {
      if |data| != bits.Length {
        return false;
      }
      for i := 0 to bits.Length
        invariant forall k | 0 <= k < i :: bits[k] == data[k]
      {
        bits[i] := data[i];
      }
      popCount := -1;
      return true;
    }
  }

  lemma OrZero(a: Word, b: Word)
    ensures Or(a, b) == Zero() <==> a == Zero() && b == Zero()
  {
    if Or(a, b) == Zero() {
      forall k | 0 <= k < 64
        ensures !a[k] && !b[k]
      {
        assert Or(a, b)[k] == Zero()[k];
      }
    }
  }

  lemma AndZero(a: Vec, b: Vec)
    requires |a| == |b| && (IsZero(a) || IsZero(b))
    ensures IsZero(AndVec(a, b))
  {
  }

  lemma XorWordZero(a: Word, b: Word)
    ensures Words.Xor(a, b) == Zero() <==> a == b
  {
    if Words.Xor(a, b) == Zero() {
      forall k | 0 <= k < 64
        ensures a[k] == b[k]
      {
        assert Words.Xor(a, b)[k] == Zero()[k];
      }
    }
  }

  /** The zero shortcuts of the exclusive or. */
  lemma XorZero(a: Vec, b: Vec)
    requires |a| == |b|
    ensures IsZero(a) ==> XorVec(a, b) == b && (a == b <==> IsZero(b))
    ensures IsZero(b) ==> XorVec(a, b) == a && (a == b <==> IsZero(a))
  {
    forall i | 0 <= i < |a|
      ensures a[i] == Zero() ==> Words.Xor(a[i], b[i]) == b[i]
      ensures b[i] == Zero() ==> Words.Xor(a[i], b[i]) == a[i]
    {
    }
  }
}
