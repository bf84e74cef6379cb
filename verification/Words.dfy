/** Machine words as 64 booleans, least significant bit first, and vectors of them. */
module Words {
  type Word = w: seq<bool> | |w| == 64 witness seq(64, _ => false)

  /** The chunks of a bit vector; bit `b` of the vector is bit `b % 64` of chunk `b / 64`. */
  type Vec = seq<Word>

  function Zero(): (r: Word)
    ensures forall k | 0 <= k < 64 :: !r[k]
  {
    seq(64, _ => false)
  }

  function Ones(): (r: Word)
    ensures forall k | 0 <= k < 64 :: r[k]
  {
    seq(64, _ => true)
  }

  function And(a: Word, b: Word): (r: Word)
    ensures forall k | 0 <= k < 64 :: r[k] == (a[k] && b[k])
  {
    seq(64, k requires 0 <= k < 64 => a[k] && b[k])
  }

  function Or(a: Word, b: Word): (r: Word)
    ensures forall k | 0 <= k < 64 :: r[k] == (a[k] || b[k])
  {
    seq(64, k requires 0 <= k < 64 => a[k] || b[k])
  }

  function Xor(a: Word, b: Word): (r: Word)
    ensures forall k | 0 <= k < 64 :: r[k] == (a[k] != b[k])
  {
    seq(64, k requires 0 <= k < 64 => a[k] != b[k])
  }

  function Not(a: Word): (r: Word)
    ensures forall k | 0 <= k < 64 :: r[k] == !a[k]
  {
    seq(64, k requires 0 <= k < 64 => !a[k])
  }

  function Shl(a: Word, n: nat): (r: Word)
    ensures forall k | 0 <= k < 64 :: r[k] == (k >= n && a[k - n])
  {
    seq(64, k requires 0 <= k < 64 => k >= n && a[k - n])
  }

  function Shr(a: Word, n: nat): (r: Word)
    ensures forall k | 0 <= k < 64 :: r[k] == (k + n < 64 && a[k + n])
  {
    seq(64, k requires 0 <= k < 64 => k + n < 64 && a[k + n])
  }

  function Rotl(a: Word, n: nat): Word
    requires 0 < n < 64
  {
    Or(Shl(a, n), Shr(a, 64 - n))
  }

  /** The word with its `n` lowest bits set, `(1 << n) - 1`. */
  function LowBits(n: nat): (r: Word)
    ensures forall k | 0 <= k < 64 :: r[k] == (k < n)
  {
    seq(64, k => k < n)
  }

  function SetBit(a: Word, n: nat): (r: Word)
    requires n < 64
  {
    a[n := true]
  }

  /** The number of set bits among the first `n`. */
  function CountTo(bits: seq<bool>, n: nat): (c: nat)
    requires n <= |bits|
    ensures c <= n
  {
    if n == 0 then 0 else CountTo(bits, n - 1) + (if bits[n - 1] then 1 else 0)
  }

  function Count(w: Word): (c: nat)
    ensures c <= 64
  {
    CountTo(w, 64)
  }

  /** The number of set bits in the first `n` chunks. */
  function PopTo(v: Vec, n: nat): (c: nat)
    requires n <= |v|
    ensures c <= 64 * n
  {
    if n == 0 then 0 else PopTo(v, n - 1) + Count(v[n - 1])
  }

  function PopCount(v: Vec): (c: nat)
    ensures c <= 64 * |v|
  {
    PopTo(v, |v|)
  }

  /** All bits of `b` are in `a`. */
  ghost predicate WordIncludes(a: Word, b: Word) {
    forall k | 0 <= k < 64 :: b[k] ==> a[k]
  }

  ghost predicate Includes(a: Vec, b: Vec)
    requires |a| == |b|
  {
    forall i | 0 <= i < |a| :: WordIncludes(a[i], b[i])
  }

  ghost predicate IsZero(v: Vec) {
    forall i | 0 <= i < |v| :: v[i] == Zero()
  }

  ghost function ZeroVec(n: nat): (r: Vec)
    ensures |r| == n && IsZero(r)
  {
    seq(n, _ => Zero())
  }

  ghost function AndVec(a: Vec, b: Vec): (r: Vec)
    requires |a| == |b|
    ensures |r| == |a| && forall i | 0 <= i < |a| :: r[i] == And(a[i], b[i])
  {
    seq(|a|, i requires 0 <= i < |a| => And(a[i], b[i]))
  }

  ghost function OrVec(a: Vec, b: Vec): (r: Vec)
    requires |a| == |b|
    ensures |r| == |a| && forall i | 0 <= i < |a| :: r[i] == Or(a[i], b[i])
  {
    seq(|a|, i requires 0 <= i < |a| => Or(a[i], b[i]))
  }

  ghost function XorVec(a: Vec, b: Vec): (r: Vec)
    requires |a| == |b|
    ensures |r| == |a| && forall i | 0 <= i < |a| :: r[i] == Xor(a[i], b[i])
  {
    seq(|a|, i requires 0 <= i < |a| => Xor(a[i], b[i]))
  }

  ghost function NotVec(a: Vec): (r: Vec)
    ensures |r| == |a| && forall i | 0 <= i < |a| :: r[i] == Not(a[i])
  {
    seq(|a|, i requires 0 <= i < |a| => Not(a[i]))
  }

  lemma {:induction false} CountToZero(bits: seq<bool>, n: nat)
    requires n <= |bits|
    ensures CountTo(bits, n) == 0 <==> forall k | 0 <= k < n :: !bits[k]
  {
    if n > 0 {
      CountToZero(bits, n - 1);
    }
  }

  lemma {:induction false} CountToMonotone(a: seq<bool>, b: seq<bool>, n: nat)
    requires n <= |a| == |b| && forall k | 0 <= k < n :: b[k] ==> a[k]
    ensures CountTo(b, n) <= CountTo(a, n)
  {
    if n > 0 {
      CountToMonotone(a, b, n - 1);
    }
  }

  lemma {:induction false} CountToNot(a: seq<bool>, b: seq<bool>, n: nat)
    requires n <= |a| == |b| && forall k | 0 <= k < n :: b[k] == !a[k]
    ensures CountTo(b, n) == n - CountTo(a, n)
  {
    if n > 0 {
      CountToNot(a, b, n - 1);
    }
  }

  lemma {:induction false} PopToZero(v: Vec, n: nat)
    requires n <= |v|
    ensures PopTo(v, n) == 0 <==> forall i | 0 <= i < n :: v[i] == Zero()
  {
    if n > 0 {
      PopToZero(v, n - 1);
      CountToZero(v[n - 1], 64);
      assert Count(v[n - 1]) == 0 <==> v[n - 1] == Zero();
    }
  }

  /** The cached zero count is a sound shortcut: a vector has no bits exactly when all its chunks are zero. */
  lemma PopCountZero(v: Vec)
    ensures PopCount(v) == 0 <==> IsZero(v)
  {
    PopToZero(v, |v|);
  }

  lemma CountOnes()
    ensures Count(Ones()) == 64
  {
    hide CountTo;
    CountToNot(Zero(), Ones(), 64);
    CountToZero(Zero(), 64);
  }

  lemma {:induction false} PopToFull(v: Vec, n: nat)
    requires n <= |v| && forall i | 0 <= i < n :: v[i] == Ones()
    ensures PopTo(v, n) == 64 * n
  {
    if n > 0 {
      PopToFull(v, n - 1);
      CountOnes();
    }
  }

  lemma {:induction false} PopToMonotone(a: Vec, b: Vec, n: nat)
    requires n <= |a| == |b| && forall i | 0 <= i < n :: WordIncludes(a[i], b[i])
    ensures PopTo(b, n) <= PopTo(a, n)
  {
    if n > 0 {
      PopToMonotone(a, b, n - 1);
      assert WordIncludes(a[n - 1], b[n - 1]);
      CountToMonotone(a[n - 1], b[n - 1], 64);
    }
  }

  lemma {:induction false} PopToNot(v: Vec, n: nat)
    requires n <= |v|
    ensures PopTo(NotVec(v), n) == 64 * n - PopTo(v, n)
  {
    if n > 0 {
      PopToNot(v, n - 1);
      CountToNot(v[n - 1], NotVec(v)[n - 1], 64);
    }
  }
}
