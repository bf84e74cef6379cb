/** Decoding run-length encoded bit vectors through a 64-bit window, and the round trip of serialization. */
module RunLengthDecoder {
  import opened Words
  import opened RunLength
  import BitVectors
  import opened Options

  const TWO_TO_64: nat := 0x1_0000_0000_0000_0000

  /** The number of bits loaded when the window at `p` has been topped up. */
  function Loaded(size: nat, p: nat): (r: nat)
    ensures r <= size
  {
    var l := 8 * ((p + 64) / 8);
    if l < size then l else size
  }

  ghost predicate HasOne(s: seq<bool>, p: nat, end: nat)
    requires end <= |s|
  {
    exists k :: p <= k < end && s[k]
  }

  /** A bit of a stream, which is followed by zeros. */
  predicate Bit(s: seq<bool>, k: nat) {
    k < |s| && s[k]
  }

  /** The number at `p` with `n` bits, least significant first. */
  function NumberAt(s: seq<bool>, p: nat, n: nat): nat
    decreases n
  {
    if n == 0 then 0 else (if Bit(s, p) then 1 else 0) + 2 * NumberAt(s, p + 1, n - 1)
  }

  /** Where the code at `p` puts a one, if `pos` bits have been decoded before. */
  ghost function OneAt(s: seq<bool>, p: nat, pos: nat): (one: nat)
    requires p < |s| && HasOne(s, p, |s|)
    ensures one >= pos
  {
    var tz := FirstOne(s, p) - p;
    pos + NumberAt(s, p + tz + 1, tz) + (Pow2(tz) - 1)
  }

  /** Where the code at `p` ends. */
  ghost function CodeEnd(s: seq<bool>, p: nat): (end: nat)
    requires p < |s| && HasOne(s, p, |s|)
    ensures end > p
  {
    p + 1 + 2 * (FirstOne(s, p) - p)
  }

  /** What a stream means: code after code, until only zeros are left. */
  ghost function StreamDecoded(s: seq<bool>, p: nat, pos: nat, out: seq<bool>): (Status, seq<bool>)
    decreases if p < |s| then |s| - p else 0
  {
    if p >= |s| || !HasOne(s, p, |s|) then (OK, out) else
      var one := OneAt(s, p, pos);
      if one >= |out| then (ErrInvalid, out) else StreamDecoded(s, CodeEnd(s, p), one + 1, out[one := true])
  }

  /** What the decoder makes of it, which stops when there is no one in its window. */
  ghost function Decoded(s: seq<bool>, p: nat, pos: nat, out: seq<bool>): (Status, seq<bool>)
    decreases if p < |s| then |s| - p else 0
  {
    if p >= |s| || !HasOne(s, p, Loaded(|s|, p)) then (OK, out) else
      var one := OneAt(s, p, pos);
      if one >= |out| then (ErrInvalid, out) else Decoded(s, CodeEnd(s, p), one + 1, out[one := true])
  }

  /** The bits that have been loaded when the decoder of a vector of `len` bits finds no one in its window; otherwise
      all of them. */
  ghost function LoadedAtEnd(s: seq<bool>, p: nat, pos: nat, len: nat): (end: nat)
    ensures end <= |s|
    decreases if p < |s| then |s| - p else 0
  {
    if p >= |s| then |s| else if !HasOne(s, p, Loaded(|s|, p)) then Loaded(|s|, p) else
      var one := OneAt(s, p, pos);
      if one >= len then |s| else LoadedAtEnd(s, CodeEnd(s, p), one + 1, len)
  }

  /** There are ones behind what the decoder has loaded when it finds no one in its window. */
  ghost predicate CutsOff(s: seq<bool>, p: nat, pos: nat, len: nat) {
    HasOne(s, LoadedAtEnd(s, p, pos, len), |s|)
  }

  /** The decoder does what the stream means exactly when it cuts off nothing; what it cuts off is an error that it
      does not report. */
  lemma {:induction false} DecodedExactlyWhen(s: seq<bool>, p: nat, pos: nat, out: seq<bool>)
    requires |out| < 0x10000 && |s| % 8 == 0
    ensures Decoded(s, p, pos, out) == StreamDecoded(s, p, pos, out) <==> !CutsOff(s, p, pos, |out|)
    ensures CutsOff(s, p, pos, |out|) ==> Decoded(s, p, pos, out).0 == OK && StreamDecoded(s, p, pos, out).0 == ErrInvalid
    decreases if p < |s| then |s| - p else 0
  {
    hide NumberAt, Pow2, FirstOne;
    if p < |s| && HasOne(s, p, |s|) {
      if HasOne(s, p, Loaded(|s|, p)) {
        var one := OneAt(s, p, pos);
        if one < |out| {
          DecodedExactlyWhen(s, CodeEnd(s, p), one + 1, out[one := true]);
        }
      } else {
        var tz := FirstOne(s, p) - p;
        assert s[p + tz];
        LongRun(tz);
      }
    }
  }

  /** What is decoded, and how much has been loaded for it. */
  ghost function Outcome(s: seq<bool>, p: nat, pos: nat, out: seq<bool>): ((Status, seq<bool>), nat) {
    (Decoded(s, p, pos, out), LoadedAtEnd(s, p, pos, |out|))
  }

  /** The outcome after one more code. */
  ghost function OutcomeAfter(s: seq<bool>, end: nat, one: nat, out: seq<bool>): ((Status, seq<bool>), nat) {
    if one >= |out| then ((ErrInvalid, out), |s|) else Outcome(s, end, one + 1, out[one := true])
  }

  // ---- the window ----

  function Window(s: seq<bool>, p: nat, end: nat): (r: Word)
    requires end <= |s|
    ensures forall k | 0 <= k < 64 :: r[k] == (p + k < end && s[p + k])
  {
    seq(64, k requires 0 <= k < 64 => p + k < end && s[p + k])
  }

  function Byte(s: seq<bool>, p: nat): Word
    requires p + 8 <= |s|
  {
    Window(s, p, p + 8)
  }

  /** The number in the lowest `n` bits of a word. */
  function Low(w: seq<bool>, n: nat): nat
    requires n <= |w|
  {
    NumberAt(w[..n], 0, n)
  }

  lemma {:induction false} NumberSame(a: seq<bool>, p: nat, b: seq<bool>, q: nat, n: nat)
    requires forall k | p <= k < p + n :: Bit(a, k) == Bit(b, k - p + q)
    ensures NumberAt(a, p, n) == NumberAt(b, q, n)
    decreases n
  {
    if n > 0 {
      NumberSame(a, p + 1, b, q + 1, n - 1);
    }
  }

  /** Topping up the window by one byte. */
  lemma TopUp(s: seq<bool>, p: nat, end: nat)
    requires p <= end && end - p <= 56 && end + 8 <= |s|
    ensures Window(s, p, end + 8) == Or(Window(s, p, end), Shl(Byte(s, end), end - p))
  {
  }

  lemma WindowZero(s: seq<bool>, p: nat, end: nat)
    requires end <= |s| && (p >= end || end - p <= 64)
    ensures Window(s, p, end) == Zero() <==> !HasOne(s, p, end)
  {
    var w := Window(s, p, end);
    if !HasOne(s, p, end) {
      assert w == Zero();
    } else {
      var k :| p <= k < end && s[k];
      assert w[k - p];
    }
  }

  /** Taking a code off the window. */
  lemma TakeCode(s: seq<bool>, p: nat, end: nat)
    requires end <= |s| && p <= end && end - p <= 64 && Window(s, p, end) != Zero()
    ensures var w := Window(s, p, end);
      var tz := CountTz(w);
      && HasOne(s, p, end) && FirstOne(s, p) == p + tz && p + tz < end
      && Shr(Shr(w, tz + 1), tz) == Window(s, p + 1 + 2 * tz, end)
  {
    var w := Window(s, p, end);
    var tz := CountTz(w);
    assert w[tz];
    forall k | p <= k < p + tz
      ensures !s[k]
    {
      assert !w[k - p];
    }
    var a, b := Shr(Shr(w, tz + 1), tz), Window(s, p + 1 + 2 * tz, end);
    assert forall k | 0 <= k < 64 :: a[k] == b[k];
    assert a == b;
  }

  lemma TakeNumber(s: seq<bool>, p: nat, end: nat, tz: nat)
    requires end <= |s| && p <= end && end - p <= 64 && tz < 64 && (p + 1 + 2 * tz <= end || end == |s|)
    ensures Low(Shr(Window(s, p, end), tz + 1), tz) == NumberAt(s, p + tz + 1, tz)
  {
    var v := Shr(Window(s, p, end), tz + 1);
    forall k | 0 <= k < tz
      ensures Bit(v[..tz], k) == Bit(s, k - 0 + (p + tz + 1))
    {
    }
    NumberSame(v[..tz], 0, s, p + tz + 1, tz);
  }

  lemma LongRun(tz: nat)
    requires tz >= 16
    ensures Pow2(tz) >= 0x10000
  {
    Pow2Monotone(16, tz);
    assert Pow2(4) == 16 && Pow2(8) == 256 && Pow2(12) == 4096 && Pow2(16) == 0x10000;
  }

  lemma DecodedOnce(s: seq<bool>, p: nat, pos: nat, out: seq<bool>, tz: nat)
    requires p < |s| && HasOne(s, p, Loaded(|s|, p)) && FirstOne(s, p) == p + tz
    ensures var one := pos + NumberAt(s, p + tz + 1, tz) + (Pow2(tz) - 1);
      Outcome(s, p, pos, out) == OutcomeAfter(s, p + 1 + 2 * tz, one, out)
  {
    hide NumberAt, Pow2, FirstOne, HasOne, Loaded;
  }

  /** The number that follows a run is in the window, or the run is too long in any case. */
  lemma NumberInWindow(s: seq<bool>, p: nat, end: nat, tz: nat)
    requires p <= end == Loaded(|s|, p) && |s| % 8 == 0 && tz < 64
    ensures tz < 16 ==> (p + 1 + 2 * tz < end || end == |s|)
    ensures tz < 16 ==> Low(Shr(Window(s, p, end), tz + 1), tz) == NumberAt(s, p + tz + 1, tz)
    ensures tz >= 16 ==> Pow2(tz) >= 0x10000
  {
    hide NumberAt, Pow2, Low;
    if tz >= 16 {
      LongRun(tz);
    } else {
      TakeNumber(s, p, end, tz);
    }
  }

  lemma TooFar(s: seq<bool>, end: nat, one1: nat, one2: nat, out: seq<bool>)
    requires one1 == one2 || (one1 >= |out| && one2 >= |out|)
    ensures OutcomeAfter(s, end, one1, out) == OutcomeAfter(s, end, one2, out)
  {
  }

  /** What decoding one code from the window does. */
  lemma DecodedStep(s: seq<bool>, p: nat, end: nat, pos: nat, out: seq<bool>)
    requires p <= end == Loaded(|s|, p) && |out| < 0x10000 && |s| % 8 == 0
    requires Window(s, p, end) != Zero()
    ensures var w := Window(s, p, end);
      var tz := CountTz(w);
      var one := pos + Low(Shr(w, tz + 1), tz) + (Pow2(tz) - 1);
      && (one < |out| ==> tz < 16 && (p + 1 + 2 * tz < end || end == |s|))
      && Outcome(s, p, pos, out) == OutcomeAfter(s, p + 1 + 2 * tz, one, out)
  {
    hide *;
    LoadedNear(s, p);
    TakeCode(s, p, end);
    var tz := CountTz(Window(s, p, end));
    DecodedOnce(s, p, pos, out, tz);
    NumberInWindow(s, p, end, tz);
    TooFar(s, p + 1 + 2 * tz, pos + NumberAt(s, p + tz + 1, tz) + (Pow2(tz) - 1),
           pos + Low(Shr(Window(s, p, end), tz + 1), tz) + (Pow2(tz) - 1), out);
  }

  lemma LoadedNear(s: seq<bool>, p: nat)
    ensures Loaded(|s|, p) <= p + 64
  {
  }

  /** Where the decoder stands: the bits from `p` up to `next` are in the window. */
  ghost predicate Reading(s: seq<bool>, p: nat, current: Word, currentBits: nat, next: nat) {
    && next <= |s| && next % 8 == 0 == |s| % 8 && current == Window(s, p, next)
    && currentBits < TWO_TO_64 && if p <= next then currentBits == next - p <= 64 else next == |s| && currentBits > 64
  }

  lemma FirstReading(s: seq<bool>)
    requires |s| % 8 == 0
    ensures if |s| > 0 then Reading(s, 0, Byte(s, 0), 8, 8) else Reading(s, 0, Zero(), 0, 0)
  {
    if s == [] {
      assert Zero() == Window(s, 0, 0);
    }
  }

  lemma DecodedEnd(s: seq<bool>, p: nat, pos: nat, out: seq<bool>)
    ensures p >= |s| ==> Outcome(s, p, pos, out) == ((OK, out), |s|)
  {
  }

  /** No more ones in the window. */
  lemma DecodedAll(s: seq<bool>, p: nat, current: Word, currentBits: nat, next: nat, pos: nat, out: seq<bool>)
    requires Reading(s, p, current, currentBits, next) && (p <= next ==> next == Loaded(|s|, p)) && current == Zero()
    ensures Outcome(s, p, pos, out) == ((OK, out), next)
  {
    WindowZero(s, p, next);
  }

  /** One more code. */
  lemma NextReading(s: seq<bool>, p: nat, current: Word, currentBits: nat, next: nat, pos: nat, out: seq<bool>)
    requires Reading(s, p, current, currentBits, next) && (p <= next ==> next == Loaded(|s|, p))
    requires current != Zero() && |out| < 0x10000
    ensures var tz := CountTz(current);
      var one := pos + Low(Shr(current, tz + 1), tz) + (Pow2(tz) - 1);
      var left := (currentBits - (1 + tz * 2)) % TWO_TO_64;
      && Outcome(s, p, pos, out) == OutcomeAfter(s, p + 1 + 2 * tz, one, out)
      && p < |s|
      && (one < |out| ==>
            && Reading(s, p + 1 + 2 * tz, Shr(Shr(current, tz + 1), tz), left, next)
            && (left == 0 ==> p + 1 + 2 * tz >= |s|))
  {
    hide Outcome, OutcomeAfter, Low;
    if p > next {
      WindowZero(s, p, next);
    } else {
      TakeCode(s, p, next);
      DecodedStep(s, p, next, pos, out);
    }
  }

  /** A one without zeros before it. */
  lemma NoRun(current: Word, currentBits: nat)
    requires current[0]
    ensures CountTz(current) == 0 && Low(Shr(current, 1), 0) == 0 && Pow2(0) == 1
    ensures 0 < currentBits <= TWO_TO_64 ==> (currentBits - 1) % TWO_TO_64 == currentBits - 1
    ensures Shr(Shr(current, 1), 0) == Shr(current, 1)
  {
  }

  lemma FlatSet(v: Vec, b: nat)
    requires b < 64 * |v|
    ensures Flat(v[b / 64 := SetBit(v[b / 64], b % 64)]) == Flat(v)[b := true]
  {
    var w := v[b / 64 := SetBit(v[b / 64], b % 64)];
    forall k | 0 <= k < 64 * |v|
      ensures Flat(w)[k] == Flat(v)[b := true][k]
    {
      assert k == b <==> k / 64 == b / 64 && k % 64 == b % 64;
    }
  }

  lemma FlatZero(v: Vec)
    requires IsZero(v)
    ensures Flat(v) == Zeros(64 * |v|)
  {
  }

  /** Decodes into the chunks of a vector. `asserted` says whether the assertion that an empty window means the end of
      the data holds, if it is reached. */
  method RunLengthDecode(packed: seq<bool>, bits: array<Word>) returns (status: Status, asserted: bool)
    requires |packed| % 8 == 0 && 64 * bits.Length < 0x10000
    modifies bits
    ensures (status, Flat(bits[..])) == Decoded(packed, 0, 0, Zeros(64 * bits.Length))
    ensures (status, Flat(bits[..])) == StreamDecoded(packed, 0, 0, Zeros(64 * bits.Length)) <==>
      !CutsOff(packed, 0, 0, 64 * bits.Length)
    ensures CutsOff(packed, 0, 0, 64 * bits.Length) ==>
      status == OK && StreamDecoded(packed, 0, 0, Zeros(64 * bits.Length)).0 == ErrInvalid
    ensures asserted <==> LoadedAtEnd(packed, 0, 0, 64 * bits.Length) == |packed|
  {
    hide Decoded, StreamDecoded, LoadedAtEnd, CutsOff, Reading, Loaded, HasOne, Flat;
    forall k | 0 <= k < bits.Length {
      bits[k] := Zero();
    }
    var len := 64 * bits.Length;
    asserted := true;
    ghost var goal := Outcome(packed, 0, 0, Zeros(len));
    FlatZero(bits[..]);
    DecodedExactlyWhen(packed, 0, 0, Zeros(len));
    var bitPos, current, currentBits, next := 0, Zero(), 0, 0;
    ghost var p := 0;
    if |packed| > 0 {
      current, currentBits, next := Byte(packed, 0), 8, 8;
    }
    FirstReading(packed);
    while currentBits != 0
      invariant bitPos >= 0 && 0 <= currentBits < TWO_TO_64 && next >= 0 && Reading(packed, p, current, currentBits, next)
      invariant currentBits == 0 ==> p >= |packed|
      invariant Outcome(packed, p, bitPos, Flat(bits[..])) == goal
      decreases if p < |packed| then |packed| - p else 0, currentBits
    {
      current, currentBits, next := Refill(packed, p, current, currentBits, next);
      if current == Zero() {
        asserted := next == |packed|;
        DecodedAll(packed, p, current, currentBits, next, bitPos, Flat(bits[..]));
        break;
      }
      NextReading(packed, p, current, currentBits, next, bitPos, Flat(bits[..]));
      ghost var tz0 := CountTz(current);
      if current[0] {
        NoRun(current, currentBits);
        current := Shr(current, 1);
        currentBits := currentBits - 1;
      } else {
        var tz := CountTz(current);
        current := Shr(current, tz + 1);
        var num0 := Low(current, tz) + (Pow2(tz) - 1);
        bitPos := bitPos + num0;
        currentBits := (currentBits - (1 + tz * 2)) % TWO_TO_64;
        current := Shr(current, tz);
      }
      if bitPos >= len {
        return ErrInvalid, true;
      }
      FlatSet(bits[..], bitPos);
      ghost var was := bits[..];
      bits[bitPos / 64] := SetBit(bits[bitPos / 64], bitPos % 64);
      assert bits[..] == was[bitPos / 64 := SetBit(was[bitPos / 64], bitPos % 64)];
      bitPos := bitPos + 1;
      p := p + 1 + 2 * tz0;
    }
    DecodedEnd(packed, p, bitPos, Flat(bits[..]));
    status := OK;
  }

  lemma RefillStep(s: seq<bool>, p: nat, current: Word, currentBits: nat, next: nat)
    requires Reading(s, p, current, currentBits, next) && next < |s| && currentBits <= 56
    ensures next + 8 <= |s|
    ensures Reading(s, p, Or(current, Shl(Byte(s, next), currentBits)), currentBits + 8, next + 8)
  {
    TopUp(s, p, next);
  }

  lemma RefillEnd(s: seq<bool>, p: nat, current: Word, currentBits: nat, next: nat)
    requires Reading(s, p, current, currentBits, next) && (next >= |s| || currentBits > 56)
    ensures p <= next ==> next == Loaded(|s|, p)
  {
  }

  /** Keeps more than 56 bits in the window as long as there are any. */
  method Refill(packed: seq<bool>, ghost p: nat, current0: Word, currentBits0: nat, next0: nat)
    returns (current: Word, currentBits: nat, next: nat)
    requires currentBits0 < TWO_TO_64 && Reading(packed, p, current0, currentBits0, next0)
    ensures Reading(packed, p, current, currentBits, next) && (p <= next ==> next == Loaded(|packed|, p))
    ensures currentBits0 > 0 ==> 0 < currentBits < TWO_TO_64
  {
    hide Reading, Loaded, Byte;
    current, currentBits, next := current0, currentBits0, next0;
    while next < |packed| && currentBits <= 56
      invariant next >= 0 && currentBits0 <= currentBits < TWO_TO_64 && Reading(packed, p, current, currentBits, next)
    {
      RefillStep(packed, p, current, currentBits, next);
      current := Or(current, Shl(Byte(packed, next), currentBits));
      currentBits := currentBits + 8;
      next := next + 8;
    }
    RefillEnd(packed, p, current, currentBits, next);
  }

  // ---- the round trip ----

  lemma {:induction false} EmitPrefix(v: seq<bool>, q: nat, r: nat)
    requires q <= r <= |v|
    ensures Emit(v, q) <= Emit(v, r)
  {
    hide Code, Log2;
    if q < r {
      EmitPrefix(v, q, r - 1);
    }
  }

  lemma {:induction false} NumberOfBits(s: seq<bool>, p: nat, val: nat, n: nat)
    requires val < Pow2(n) && p + n <= |s| && s[p..p + n] == LittleEndian(val, n)
    ensures NumberAt(s, p, n) == val
    decreases n
  {
    if n > 0 {
      assert s[p] == s[p..p + n][0];
      assert s[p + 1..p + n] == s[p..p + n][1..];
      NumberOfBits(s, p + 1, val / 2, n - 1);
    }
  }

  lemma CodeParts(run: nat)
    requires run + 1 < 0x10000
    ensures var tz, c := Log2(run + 1), Code(run);
      && tz < 16 && |c| == 2 * tz + 1 && c[tz] && (forall k | 0 <= k < tz :: !c[k])
      && Pow2(tz) <= run + 1 < Pow2(tz) + Pow2(tz) && c[tz + 1..] == LittleEndian(run - (Pow2(tz) - 1), tz)
  {
    hide LittleEndian;
    var tz := Log2(run + 1);
    if tz >= 16 {
      LongRun(tz);
      assert false;
    }
    assert Pow2(tz + 1) == 2 * Pow2(tz);
  }

  /** Reading one code gives back the run. */
  lemma ReadCode(s: seq<bool>, p: nat, run: nat)
    requires run + 1 < 0x10000 && p + |Code(run)| <= |s| && s[p..p + |Code(run)|] == Code(run) && |s| % 8 == 0
    ensures HasOne(s, p, Loaded(|s|, p)) && FirstOne(s, p) == p + Log2(run + 1)
    ensures NumberAt(s, p + Log2(run + 1) + 1, Log2(run + 1)) + Pow2(Log2(run + 1)) - 1 == run
  {
    hide Code, Log2, Pow2, LittleEndian, NumberAt;
    var tz, c := Log2(run + 1), Code(run);
    CodeParts(run);
    assert s[p + tz] == c[tz] && forall k | p <= k < p + tz :: s[k] == c[k - p];
    assert s[p + tz + 1..p + 2 * tz + 1] == c[tz + 1..];
    NumberOfBits(s, p + tz + 1, run - (Pow2(tz) - 1), tz);
  }

  lemma DecodedCode(s: seq<bool>, p: nat, pos: nat, out: seq<bool>, run: nat)
    requires run + 1 < 0x10000 && p + |Code(run)| <= |s| && s[p..p + |Code(run)|] == Code(run) && |s| % 8 == 0
    requires pos + run < |out|
    ensures Outcome(s, p, pos, out) == Outcome(s, p + |Code(run)|, pos + run + 1, out[pos + run := true])
  {
    hide Code, Log2, Pow2;
    ReadCode(s, p, run);
  }

  lemma DecodedZeros(s: seq<bool>, p: nat, pos: nat, out: seq<bool>)
    requires |s| % 8 == 0 && |s| < p + 8 && forall k | p <= k < |s| :: !s[k]
    ensures Outcome(s, p, pos, out) == ((OK, out), |s|)
  {
    hide Log2, Pow2;
  }

  /** The stream is the code of `v` and less than a byte of zeros. */
  ghost predicate Packs(s: seq<bool>, v: seq<bool>) {
    var code := Encoded(v);
    |s| == 8 * ((|code| + 7) / 8) && s == code + Zeros(|s| - |code|)
  }

  lemma EmitNext(v: seq<bool>, q: nat, j: nat)
    requires q <= j < |v| && v[j] && (q == 0 || v[q - 1]) && forall k | q <= k < j :: !v[k]
    ensures Emit(v, j + 1) == Emit(v, q) + Code(j - q)
  {
    hide Code, Log2, Emit;
    SkipZeros(v, q, j);
    EmitOne(v, j);
  }

  lemma Infix(s: seq<bool>, a: seq<bool>, c: seq<bool>, e: seq<bool>)
    requires a + c <= e <= s
    ensures |a| + |c| <= |s| && s[|a|..|a| + |c|] == c
  {
    assert s[..|a + c|] == a + c;
  }

  lemma PacksPrefix(s: seq<bool>, v: seq<bool>)
    requires Packs(s, v)
    ensures Emit(v, |v|) <= s
  {
  }

  /** The next code of a stream. */
  lemma NextCode(s: seq<bool>, v: seq<bool>, q: nat, j: nat)
    requires Packs(s, v) && q <= j < |v| && v[j] && (q == 0 || v[q - 1]) && forall k | q <= k < j :: !v[k]
    ensures |Emit(v, j + 1)| == |Emit(v, q)| + |Code(j - q)| <= |s|
    ensures s[|Emit(v, q)|..|Emit(v, j + 1)|] == Code(j - q)
  {
    hide *;
    EmitNext(v, q, j);
    EmitPrefix(v, j + 1, |v|);
    PacksPrefix(s, v);
    Infix(s, Emit(v, q), Code(j - q), Emit(v, |v|));
  }

  lemma NoMoreCodes(s: seq<bool>, v: seq<bool>, q: nat)
    requires Packs(s, v) && q <= |v| && forall k | q <= k < |v| :: !v[k]
    ensures var p := |Emit(v, q)|;
      p <= |s| < p + 8 && |s| % 8 == 0 && forall k | p <= k < |s| :: !s[k]
  {
    hide Code, Log2;
    SkipZeros(v, q, |v|);
  }

  lemma {:induction false} DecodeRest(s: seq<bool>, v: seq<bool>, q: nat)
    requires Packs(s, v) && q <= |v| < 0x10000 && (q == 0 || v[q - 1])
    ensures Outcome(s, |Emit(v, q)|, q, v[..q] + Zeros(|v| - q)) == ((OK, v), |s|)
    decreases |v| - q
  {
    hide Emit, Packs, Code, Outcome, Gap, Log2, FirstOne;
    var p, out := |Emit(v, q)|, v[..q] + Zeros(|v| - q);
    if exists k :: q <= k < |v| && v[k] {
      var j := FirstOne(v, q);
      var run := j - q;
      NextCode(s, v, q, j);
      PacksBytes(s, v);
      DecodedCode(s, p, q, out, run);
      assert out[j := true] == v[..j + 1] + Zeros(|v| - (j + 1));
      DecodeRest(s, v, j + 1);
    } else {
      NoMoreCodes(s, v, q);
      DecodedZeros(s, p, q, out);
      assert out == v;
    }
  }

  lemma PacksBytes(s: seq<bool>, v: seq<bool>)
    requires Packs(s, v)
    ensures |s| % 8 == 0
  {
  }

  /** Decoding gives back what was encoded, which is what the stream means, and has loaded all of it. */
  lemma RoundTrip(s: seq<bool>, v: seq<bool>)
    requires Packs(s, v) && |v| < 0x10000
    ensures StreamDecoded(s, 0, 0, Zeros(|v|)) == Decoded(s, 0, 0, Zeros(|v|)) == (OK, v)
    ensures LoadedAtEnd(s, 0, 0, |v|) == |s| && !CutsOff(s, 0, 0, |v|)
  {
    DecodeRest(s, v, 0);
    PacksBytes(s, v);
    assert v[..0] + Zeros(|v| - 0) == Zeros(|v|);
    DecodedExactlyWhen(s, 0, 0, Zeros(|v|));
  }

  // ---- serialization ----

  /** A serialized bit vector: its flags, its length in bits and its data. */
  datatype Serial = Serial(rle: bool, complement: bool, len: nat, data: seq<bool>)

  function Complement(bits: seq<bool>): (r: seq<bool>)
    ensures |r| == |bits|
  {
    seq(|bits|, k requires 0 <= k < |bits| => !bits[k])
  }

  /** What serializing yields. A vector whose code is longer than itself cannot be serialized. */
  function Serialized(v: Vec): Option<Serial> {
    var len, pop := 64 * |v|, PopCount(v);
    if Raw(pop, len) then Some(Serial(false, false, len, Flat(v)))
    else
      var code := Encoded(View(v, Dense(pop, len) && !Sparse(pop, len)));
      if |code| <= len then Some(Serial(true, Dense(pop, len) && !Sparse(pop, len), len, Padded(code))) else None
  }

  /** What a serialized vector means for one of `len` bits. */
  ghost function Deserialized(m: Serial, len: nat): (Status, seq<bool>) {
    if m.len != len then (ErrInvalid, [])
    else if m.rle then
      var (status, bits) := StreamDecoded(m.data, 0, 0, Zeros(len));
      (status, if status == OK && m.complement then Complement(bits) else bits)
    else if |m.data| == len then (OK, m.data)
    else (ErrInvalid, [])
  }

  /** A serialized bit vector means the same bits, and is not cut short when it is deserialized. */
  lemma SerializationRoundTrip(v: Vec)
    requires 64 * |v| < 0x10000 && Serialized(v).Some?
    ensures Deserialized(Serialized(v).value, 64 * |v|) == (OK, Flat(v))
    ensures !CutShort(Serialized(v).value, 64 * |v|)
  {
    var m := Serialized(v).value;
    if m.rle {
      var view := View(v, m.complement);
      assert Packs(m.data, view);
      RoundTrip(m.data, view);
      assert Flat(v) == if m.complement then Complement(view) else view;
    }
  }

  /** Serializes into a buffer with room for `space` bytes of data. */
  method Serialize(v: Vec, packed: array<bool>, space: nat) returns (m: Option<Serial>)
    requires 64 * |v| < 0x10000 && 8 * space <= packed.Length
    requires var (len, pop) := (64 * |v|, PopCount(v));
      8 * space >= len ==> RoomFor(View(v, Dense(pop, len) && !Sparse(pop, len)), len, packed.Length)
    modifies packed
    ensures m == if 8 * space >= 64 * |v| then Serialized(v) else None
    ensures m.Some? ==>
      var (pop, len) := (PopCount(v), 64 * |v|);
      && m.value.len == len && (m.value.rle <==> !(30 * len <= 100 * pop + 1 <= 70 * len))
      && (m.value.complement <==> 30 * len <= 100 * pop + 1 && 70 * len < 100 * pop + 1)
  {
    hide Encoded, View;
    var len, pop := 64 * |v|, PopCount(v);
    var rle, complement := false, false;
    if Sparse(pop, len) {
      rle := true;
    } else if Dense(pop, len) {
      rle, complement := true, true;
    }
    if space < len / 8 {
      return None;
    }
    if rle {
      ClearVector(v);
      var status, written := RunLengthEncode(v, pop, complement, packed, space);
      if status != OK {
        return None;
      }
      m := Some(Serial(true, complement, len, packed[..8 * written]));
    } else {
      m := Some(Serial(false, false, len, Flat(v)));
    }
  }

  /** A vector without ones has an empty code, and its complement is not what is encoded unless it has no bits. */
  lemma ClearVector(v: Vec)
    ensures PopCount(v) == 0 ==> Encoded(View(v, false)) == [] && (Dense(0, 64 * |v|) ==> Encoded(View(v, true)) == [])
    ensures Padded([]) == []
  {
    if PopCount(v) == 0 {
      PopCountZero(v);
      var view := View(v, false);
      SkipZeros(view, 0, |view|);
    }
  }

  /** The decoder of the data comes to an empty window before it has seen all ones. */
  ghost predicate CutShort(m: Serial, len: nat) {
    m.len == len && m.rle && CutsOff(m.data, 0, 0, len)
  }

  lemma FlatNot(v: Vec)
    ensures Flat(NotVec(v)) == Complement(Flat(v))
  {
  }

  lemma FlatChunks(v: Vec, data: seq<bool>)
    requires |data| == 64 * |v| && forall i | 0 <= i < |v| :: v[i] == data[64 * i..64 * i + 64]
    ensures Flat(v) == data
  {
    forall b | 0 <= b < |data|
      ensures Flat(v)[b] == data[b]
    {
      assert v[b / 64] == data[64 * (b / 64)..64 * (b / 64) + 64];
    }
  }

  /** The count of the bits is not touched, save by the complement, which takes an unknown one for a number. */
  method Deserialize(m: Serial, bv: BitVectors.BitVector) returns (status: Status, asserted: bool)
    requires |m.data| % 8 == 0 && 64 * bv.bits.Length < 0x10000
    modifies bv, bv.bits
    ensures var meant := Deserialized(m, 64 * bv.bits.Length);
      && (status == meant.0 <==> !CutShort(m, 64 * bv.bits.Length))
      && (CutShort(m, 64 * bv.bits.Length) ==> status == OK && meant.0 == ErrInvalid)
      && (status == OK && meant.0 == OK ==> Flat(bv.Value()) == meant.1)
    ensures m.len != 64 * bv.bits.Length || (!m.rle && |m.data| != 64 * bv.bits.Length) ==> status == ErrInvalid
    ensures m.len == 64 * bv.bits.Length && !m.rle && |m.data| == m.len ==> status == OK && Flat(bv.Value()) == m.data
    ensures asserted <==>
      (m.len == 64 * bv.bits.Length && m.rle ==> LoadedAtEnd(m.data, 0, 0, 64 * bv.bits.Length) == |m.data|)
    ensures bv.popCount == if status == OK && m.rle && m.complement && old(bv.popCount) != 0
                           then 64 * bv.bits.Length - old(bv.popCount) else old(bv.popCount)
    ensures status == OK && old(bv.popCount) == -1 ==> (bv.Valid() <==> !(m.rle && m.complement))
  {
    hide Decoded, StreamDecoded, LoadedAtEnd, CutsOff, Flat, PopCount;
    asserted := true;
    if m.len != 64 * bv.bits.Length {
      return ErrInvalid, true;
    }
    if m.rle {
      status, asserted := RunLengthDecode(m.data, bv.bits);
      if status == OK && m.complement {
        FlatNot(bv.bits[..]);
        bv.Complement();
      }
    } else if |m.data| == 64 * bv.bits.Length {
      for i := 0 to bv.bits.Length
        modifies bv.bits
        invariant forall k | 0 <= k < i :: bv.bits[k] == m.data[64 * k..64 * k + 64]
      {
        bv.bits[i] := m.data[64 * i..64 * i + 64];
      }
      FlatChunks(bv.bits[..], m.data);
      status := OK;
    } else {
      status := ErrInvalid;
    }
  }

  /** Sixty-four zeros and then a one, in nine bytes: the decoder never gets to see the one, for which no vector is long
      enough, and takes the stream for a vector of zeros. */
  lemma LateOneIsCutOff(len: nat)
    requires len < 0x10000
    ensures var s := Zeros(64) + [true] + Zeros(7);
      && Decoded(s, 0, 0, Zeros(len)) == (OK, Zeros(len)) && StreamDecoded(s, 0, 0, Zeros(len)).0 == ErrInvalid
      && LoadedAtEnd(s, 0, 0, len) == 64
  {
    var s := Zeros(64) + [true] + Zeros(7);
    assert s[64] && Loaded(|s|, 0) == 64 && !HasOne(s, 0, 64);
    DecodedExactlyWhen(s, 0, 0, Zeros(len));
  }

  /** Every fourth bit is set. */
  ghost predicate EveryFourth(v: Vec) {
    forall i, k | 0 <= i < |v| && 0 <= k < 64 :: v[i][k] == (k % 4 == 3)
  }

  lemma EveryFourthCount(w: Word, n: nat)
    requires n <= 16 && forall k | 0 <= k < 64 :: w[k] == (k % 4 == 3)
    ensures CountTo(w, 4 * n) == n
  {
    if n > 0 {
      EveryFourthCount(w, n - 1);
      assert CountTo(w, 4 * n - 1) == CountTo(w, 4 * n - 2) == CountTo(w, 4 * n - 3) == CountTo(w, 4 * n - 4);
    }
  }

  lemma {:induction false} EveryFourthPop(v: Vec, n: nat)
    requires EveryFourth(v) && n <= |v|
    ensures PopTo(v, n) == 16 * n
  {
    if n > 0 {
      EveryFourthPop(v, n - 1);
      EveryFourthCount(v[n - 1], 16);
    }
  }

  lemma {:induction false} EveryFourthCode(bits: seq<bool>, n: nat)
    requires 4 * n <= |bits| && forall k | 0 <= k < |bits| :: bits[k] == (k % 4 == 3)
    ensures |Emit(bits, 4 * n)| == 5 * n && Gap(bits, 4 * n) == 0
  {
    hide Code, Emit, Gap;
    if n == 0 {
      NothingEmitted(bits);
    } else {
      var q := 4 * (n - 1);
      EveryFourthCode(bits, n - 1);
      SkipZeros(bits, q, q + 3);
      EmitOne(bits, q + 3);
      assert Log2(4) == 2;
    }
  }

  lemma EveryFourthView(v: Vec)
    requires EveryFourth(v)
    ensures forall b | 0 <= b < 64 * |v| :: View(v, false)[b] == (b % 4 == 3)
  {
    forall b | 0 <= b < 64 * |v|
      ensures View(v, false)[b] == (b % 4 == 3)
    {
      assert (b % 64) % 4 == b % 4;
    }
  }

  /** With every fourth bit set, the encoder of the default length stops with a one behind the bytes of the vector. */
  lemma EveryFourthReachesBehind(v: Vec)
    requires EveryFourth(v) && |v| == 128
    ensures !RoomFor(View(v, false), 8192, 8192)
  {
    hide Code, Emit, Gap, View;
    var view := View(v, false);
    EveryFourthView(v);
    EveryFourthCode(view, 1638);
    SkipZeros(view, 4 * 1638, 4 * 1638 + 3);
    EmitOne(view, 4 * 1638 + 3);
    assert Log2(4) == 2;
    assert FirstTooLong(view, 8192, 4 * 1638 + 3);
    assert StopsAt(view, 8192, 8192);
  }

  /** A quarter of all bits is sparse enough for run-length encoding, which then makes the vector longer and fails. */
  lemma EveryFourthCannotBeSerialized(v: Vec)
    requires EveryFourth(v) && |v| > 0
    ensures Serialized(v) == None && Sparse(PopCount(v), 64 * |v|)
  {
    hide Code, Emit, Gap, View, PopTo;
    EveryFourthPop(v, |v|);
    EveryFourthView(v);
    EveryFourthCode(View(v, false), 16 * |v|);
  }
}
