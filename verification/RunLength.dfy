/** Run-length encoding of bit vectors: the code, and the encoder that writes it chunk by chunk. */
module RunLength {
  import opened Words

  datatype Status = OK | ErrOverflow | ErrInvalid

  function Pow2(n: nat): (r: nat)
    ensures r > 0
  {
    if n == 0 then 1 else 2 * Pow2(n - 1)
  }

  function Log2(n: nat): (b: nat)
    requires n > 0
    ensures Pow2(b) <= n < Pow2(b + 1)
  {
    if n == 1 then 0 else 1 + Log2(n / 2)
  }

  lemma {:induction false} Pow2Monotone(a: nat, b: nat)
    requires a <= b
    ensures Pow2(a) <= Pow2(b)
  {
    if a < b {
      Pow2Monotone(a, b - 1);
    }
  }

  lemma Log2Quarter(n: nat)
    requires n >= 4
    ensures Log2(n) == 2 + Log2(n / 4)
  {
    assert n / 2 / 2 == n / 4;
  }

  lemma Log2Nibble(n: nat)
    requires n >= 16
    ensures Log2(n) == 4 + Log2(n / 16)
  {
    Log2Quarter(n);
    Log2Quarter(n / 4);
    assert n / 4 / 4 == n / 16;
  }

  lemma Log2Byte(n: nat)
    requires n >= 256
    ensures Log2(n) == 8 + Log2(n / 256)
  {
    Log2Nibble(n);
    Log2Nibble(n / 16);
    assert n / 16 / 16 == n / 256;
  }

  /** Computes the rounded-down logarithm of a 16-bit number. */
  method FloorLog2(m: nat) returns (b: nat)
    requires 0 < m < 0x10000
    ensures b == Log2(m) && b < 16
  {
    var n := m;
    b := 0;
    if n / 0x100 != 0 {
      Log2Byte(n);
      n := n / 0x100;
      b := b + 8;
    }
    if n / 0x10 != 0 {
      Log2Nibble(n);
      n := n / 0x10;
      b := b + 4;
    }
    if n / 4 != 0 {
      Log2Quarter(n);
      n := n / 4;
      b := b + 2;
    }
    if n / 2 != 0 {
      n := n / 2;
      b := b + 1;
    }
    assert n == 1;
  }

  // ---- the code ----

  function Zeros(n: nat): (r: seq<bool>)
    ensures |r| == n && forall k | 0 <= k < n :: !r[k]
  {
    seq(n, _ => false)
  }

  /** The `n` lowest bits of a number, least significant first. */
  function LittleEndian(val: nat, n: nat): (r: seq<bool>)
    ensures |r| == n
  {
    if n == 0 then [] else [val % 2 == 1] + LittleEndian(val / 2, n - 1)
  }

  /** The code for a run of zeros that ends with a one. */
  function Code(run: nat): (r: seq<bool>)
    ensures |r| == 1 + 2 * Log2(run + 1)
  {
    var sz := Log2(run + 1);
    Zeros(sz) + [true] + LittleEndian(run - (Pow2(sz) - 1), sz)
  }

  lemma {:induction false} LittleEndianBit(val: nat, n: nat, j: nat)
    requires j < n
    ensures LittleEndian(val, n)[j] <==> val / Pow2(j) % 2 == 1
  {
    if j > 0 {
      LittleEndianBit(val / 2, n - 1, j - 1);
      assert val / 2 / Pow2(j - 1) == val / (2 * Pow2(j - 1)) by {
        HalfOf(val, Pow2(j - 1));
      }
    }
  }

  lemma HalfOf(val: nat, d: nat)
    requires d > 0
    ensures val / 2 / d == val / (2 * d)
  {
    var q := val / (2 * d);
    assert val == 2 * d * q + val % (2 * d);
    assert 2 * (d * q) <= val < 2 * (d * q + d);
    assert d * q <= val / 2 < d * q + d;
    DivIs(val / 2, d, q);
  }

  lemma DivIs(a: nat, d: nat, q: nat)
    requires d > 0 && d * q <= a < d * q + d
    ensures a / d == q
  {
    var k := a / d;
    assert a == d * k + a % d;
    if k < q {
      OneMore(d, k, q);
    } else if k > q {
      OneMore(d, q, k);
    }
  }

  lemma OneMore(d: nat, a: nat, b: nat)
    requires a < b
    ensures d * a + d <= d * b
  {
    assert d * b == d * (a + 1) + d * (b - a - 1);
  }

  /** The code bit by bit: as many zeros as the number of the run, counted from one, has bits after its first, then a one, then
      these bits, the least significant one first. */
  lemma CodeMeans(run: nat, sz: nat)
    requires Pow2(sz) <= run + 1 < Pow2(sz + 1)
    ensures var c := Code(run);
      && |c| == 2 * sz + 1 && (forall k | 0 <= k < sz :: !c[k]) && c[sz]
      && forall j | 0 <= j < sz :: c[sz + 1 + j] <==> (run + 1 - Pow2(sz)) / Pow2(j) % 2 == 1
  {
    hide LittleEndian, Log2;
    LogUnique(run + 1, sz, Log2(run + 1));
    forall j | 0 <= j < sz
      ensures Code(run)[sz + 1 + j] <==> (run + 1 - Pow2(sz)) / Pow2(j) % 2 == 1
    {
      LittleEndianBit(run - (Pow2(sz) - 1), sz, j);
    }
  }

  lemma LogUnique(n: nat, a: nat, b: nat)
    requires Pow2(a) <= n < Pow2(a + 1) && Pow2(b) <= n < Pow2(b + 1)
    ensures a == b
  {
    if a < b {
      Pow2Monotone(a + 1, b);
    } else if b < a {
      Pow2Monotone(b + 1, a);
    }
  }

  /** The codes of the shortest runs. */
  lemma ShortCodes()
    ensures Code(0) == [true] && Code(1) == [false, true, false] && Code(2) == [false, true, true]
    ensures Code(3) == [false, false, true, false, false] && Code(4) == [false, false, true, true, false]
  {
    assert Pow2(1) == 2 && Pow2(2) == 4 && Pow2(3) == 8;
    LogUnique(1, 0, Log2(1));
    LogUnique(2, 1, Log2(2));
    LogUnique(3, 1, Log2(3));
    LogUnique(4, 2, Log2(4));
    LogUnique(5, 2, Log2(5));
    hide Log2, Pow2;
  }

  /** The number of zeros since the last one among the first `q` bits. */
  function Gap(bits: seq<bool>, q: nat): (r: nat)
    requires q <= |bits|
    ensures r <= q
  {
    if q == 0 || bits[q - 1] then 0 else Gap(bits, q - 1) + 1
  }

  /** The codes of the ones among the first `q` bits. */
  function Emit(bits: seq<bool>, q: nat): seq<bool>
    requires q <= |bits|
  {
    if q == 0 then []
    else if bits[q - 1] then Emit(bits, q - 1) + Code(Gap(bits, q - 1))
    else Emit(bits, q - 1)
  }

  /** The run-length code of a bit vector. */
  function Encoded(bits: seq<bool>): seq<bool> {
    Emit(bits, |bits|)
  }

  lemma NothingEmitted(bits: seq<bool>)
    ensures Emit(bits, 0) == [] && Gap(bits, 0) == 0
  {
    hide Code, Log2;
  }

  lemma {:induction false} SkipZeros(bits: seq<bool>, q: nat, p: nat)
    requires q <= p <= |bits| && forall k | q <= k < p :: !bits[k]
    ensures Emit(bits, p) == Emit(bits, q) && Gap(bits, p) == Gap(bits, q) + p - q
  {
    hide Code, Log2;
    if q < p {
      SkipZeros(bits, q, p - 1);
    }
  }

  lemma {:induction false} EmitGrows(bits: seq<bool>, q: nat, p: nat)
    requires q <= p <= |bits|
    ensures |Emit(bits, q)| <= |Emit(bits, p)|
  {
    hide Code, Log2;
    if q < p {
      EmitGrows(bits, q, p - 1);
    }
  }

  // ---- chunks ----

  /** All bits of a vector of chunks. */
  function Flat(v: Vec): (r: seq<bool>)
    ensures |r| == 64 * |v|
  {
    seq(64 * |v|, b requires 0 <= b < 64 * |v| => v[b / 64][b % 64])
  }

  /** The bits that are encoded: those of the vector or of its complement. */
  function View(v: Vec, complement: bool): (r: seq<bool>)
    ensures |r| == 64 * |v|
  {
    seq(64 * |v|, b requires 0 <= b < 64 * |v| => v[b / 64][b % 64] != complement)
  }

  function Mask(complement: bool): (r: Word)
    ensures forall k | 0 <= k < 64 :: r[k] == complement
  {
    seq(64, _ => complement)
  }

  function FirstOne(w: seq<bool>, k: nat): (r: nat)
    requires k <= |w| && exists j :: k <= j < |w| && w[j]
    ensures k <= r < |w| && w[r] && forall j | k <= j < r :: !w[j]
    decreases |w| - k
  {
    if w[k] then k else FirstOne(w, k + 1)
  }

  lemma NotZero(w: Word)
    ensures w == Zero() || exists j :: 0 <= j < 64 && w[j]
  {
    if w != Zero() {
      var j :| 0 <= j < 64 && w[j] != Zero()[j];
    }
  }

  /** The number of trailing zeros of a word. */
  function CountTz(w: Word): (r: nat)
    requires w != Zero()
    ensures r < 64 && w[r] && forall j | 0 <= j < r :: !w[j]
  {
    NotZero(w);
    FirstOne(w, 0)
  }

  lemma ViewAt(v: Vec, complement: bool, i: nat, k: nat)
    requires i < |v| && k < 64
    ensures View(v, complement)[64 * i + k] == Xor(v[i], Mask(complement))[k]
  {
    assert (64 * i + k) / 64 == i && (64 * i + k) % 64 == k;
  }

  /** Where the loop over a chunk stands: `rest` bits are left, and `num0` zeros precede them. */
  ghost predicate At(bits: seq<bool>, q: nat, word: Word, chunk: Word, rest: nat, num0: nat) {
    && q + 64 <= |bits| && rest <= 64 && (forall k | 0 <= k < 64 :: bits[q + k] == word[k])
    && chunk == Shr(word, 64 - rest) && num0 == Gap(bits, q + 64 - rest)
  }

  lemma EmitOne(bits: seq<bool>, q: nat)
    requires q < |bits| && bits[q]
    ensures Emit(bits, q + 1) == Emit(bits, q) + Code(Gap(bits, q)) && Gap(bits, q + 1) == 0
  {
    hide Code, Log2;
  }

  /** The next one of a chunk. */
  lemma NextOne(bits: seq<bool>, q: nat, word: Word, chunk: Word, rest: nat, num0: nat)
    requires At(bits, q, word, chunk, rest, num0) && chunk != Zero()
    ensures var tz := CountTz(chunk);
      && tz < rest && At(bits, q, word, Shr(Shr(chunk, tz), 1), rest - (tz + 1), 0)
      && bits[q + 64 - rest + tz] && Gap(bits, q + 64 - rest + tz) == num0 + tz
      && Emit(bits, q + 64 - (rest - (tz + 1))) == Emit(bits, q + 64 - rest) + Code(num0 + tz)
  {
    hide Code, Log2, Emit;
    var tz, p := CountTz(chunk), q + 64 - rest;
    assert chunk[tz] && tz < rest;
    forall k | p <= k < p + tz
      ensures !bits[k]
    {
      assert !chunk[k - p];
    }
    SkipZeros(bits, p, p + tz);
    assert bits[p + tz];
    EmitOne(bits, p + tz);
    assert Shr(Shr(chunk, tz), 1) == Shr(word, 64 - (rest - (tz + 1)));
  }

  lemma NoMoreOnes(bits: seq<bool>, q: nat, word: Word, rest: nat, num0: nat)
    requires At(bits, q, word, Zero(), rest, num0)
    ensures Gap(bits, q + 64) == num0 + rest && Emit(bits, q + 64) == Emit(bits, q + 64 - rest)
  {
    hide Code, Log2;
    forall k | q + 64 - rest <= k < q + 64
      ensures !bits[k]
    {
      assert !Zero()[k - (q + 64 - rest)];
    }
    SkipZeros(bits, q + 64 - rest, q + 64);
  }

  lemma ChunkStarts(v: Vec, complement: bool, i: nat)
    requires i < |v|
    ensures var bits, word := View(v, complement), Xor(v[i], Mask(complement));
      At(bits, 64 * i, word, word, 64, Gap(bits, 64 * i))
  {
    var bits, word := View(v, complement), Xor(v[i], Mask(complement));
    forall k | 0 <= k < 64
      ensures bits[64 * i + k] == word[k]
    {
      ViewAt(v, complement, i, k);
    }
    assert Shr(word, 0) == word;
  }

  // ---- where the encoder stops ----

  /** The code of the one at `q` is the first that does not end within `len` bits. */
  ghost predicate FirstTooLong(bits: seq<bool>, len: nat, q: nat) {
    q < |bits| && bits[q] && |Emit(bits, q)| <= len < |Emit(bits, q + 1)|
  }

  /** The encoder stops with a one written at `k`. */
  ghost predicate StopsAt(bits: seq<bool>, len: nat, k: nat) {
    exists q | 0 <= q < |bits| :: FirstTooLong(bits, len, q) && k == |Emit(bits, q)| + Log2(Gap(bits, q) + 1)
  }

  /** There is memory for the vector and for the one with which the encoder stops, if it does. */
  ghost predicate RoomFor(bits: seq<bool>, len: nat, size: nat) {
    len <= size && forall k: nat | StopsAt(bits, len, k) :: k < size
  }

  /** Nothing behind `len` has been written but the one with which the encoder stops, if that is there. */
  ghost predicate WroteBehind(now: seq<bool>, was: seq<bool>, bits: seq<bool>, len: nat) {
    |now| == |was| && forall k | len <= k < |now| :: now[k] == (was[k] || StopsAt(bits, len, k))
  }

  /** Whether the code of a one fits, and where the encoder stops if it does not. */
  lemma NextCodeFits(bits: seq<bool>, len: nat, q: nat, size: nat)
    requires q < |bits| && bits[q] && |Emit(bits, q)| <= len && RoomFor(bits, len, size)
    ensures var k := |Emit(bits, q)| + Log2(Gap(bits, q) + 1);
      k < size && (|Emit(bits, q)| + |Code(Gap(bits, q))| > len ==> forall i: nat :: StopsAt(bits, len, i) <==> i == k)
  {
    hide Code, Log2, Emit, Gap;
    EmitOne(bits, q);
    var k := |Emit(bits, q)| + Log2(Gap(bits, q) + 1);
    if |Emit(bits, q)| + |Code(Gap(bits, q))| > len {
      assert FirstTooLong(bits, len, q);
      assert StopsAt(bits, len, k);
      forall p | 0 <= p < |bits| && FirstTooLong(bits, len, p)
        ensures p == q
      {
        if p < q {
          EmitGrows(bits, p + 1, q);
        } else if q < p {
          EmitGrows(bits, q + 1, p);
        }
      }
    }
  }

  lemma NeverStops(bits: seq<bool>, len: nat)
    requires |Encoded(bits)| <= len
    ensures forall k: nat :: !StopsAt(bits, len, k)
  {
    hide Code, Log2;
    forall q | 0 <= q < |bits|
      ensures !FirstTooLong(bits, len, q)
    {
      EmitGrows(bits, q + 1, |bits|);
    }
  }

  /** There are only zeros from `len` on. */
  ghost predicate ClearBehind(s: seq<bool>, len: nat) {
    forall k | len <= k < |s| :: !s[k]
  }

  lemma StaysInside(now: seq<bool>, was: seq<bool>, bits: seq<bool>, len: nat)
    requires WroteBehind(now, was, bits, len) && RoomFor(bits, len, |now|) && len <= |now|
    ensures ClearBehind(was, len) ==> (ClearBehind(now, len) <==> RoomFor(bits, len, len))
  {
    if ClearBehind(now, len) {
      forall k: nat | StopsAt(bits, len, k)
        ensures k < len
      {
        assert k < |now|;
      }
    }
  }

  // ---- the encoder ----

  /** Writes the lowest `n` bits of a number. */
  method PutBits(packed: array<bool>, pos: nat, val: nat, n: nat) returns (end: nat)
    requires pos + n <= packed.Length && forall k | pos <= k < pos + n :: !packed[k]
    modifies packed
    ensures end == pos + n && packed[..end] == old(packed[..pos]) + LittleEndian(val, n)
    ensures forall k | end <= k < packed.Length :: packed[k] == old(packed[k])
  {
    end := pos;
    var rest, sz: int := val, n;
    while sz > 0
      invariant 0 <= sz <= n && end == pos + n - sz && rest >= 0
      invariant packed[..end] + LittleEndian(rest, sz) == old(packed[..pos]) + LittleEndian(val, n)
      invariant forall k | end <= k < packed.Length :: packed[k] == old(packed[k])
    {
      ghost var done := packed[..end];
      if rest % 2 == 1 {
        packed[end] := true;
      }
      assert packed[..end + 1] == done + [rest % 2 == 1];
      assert LittleEndian(rest, sz) == [rest % 2 == 1] + LittleEndian(rest / 2, sz - 1);
      rest := rest / 2;
      end := end + 1;
      sz := sz - 1;
    }
  }

  /** Writes the code of one run, unless it does not end within `len` bits. The one of the code is written before this
      is known: it needs room, and it is the only bit that may be written behind `len`. */
  method PutRun(packed: array<bool>, pos: nat, run: nat, len: nat) returns (ok: bool, end: nat)
    requires pos <= len <= packed.Length && run + 1 < 0x10000 && pos + Log2(run + 1) < packed.Length
    requires forall k | pos <= k < len :: !packed[k]
    modifies packed
    ensures ok == (pos + |Code(run)| <= len)
    ensures ok ==> end == pos + |Code(run)| && packed[..end] == old(packed[..pos]) + Code(run)
    ensures ok ==> forall k | end <= k < len :: !packed[k]
    ensures forall k | len <= k < packed.Length :: packed[k] == (old(packed[k]) || (!ok && k == pos + Log2(run + 1)))
  {
    hide LittleEndian, Pow2, Log2;
    var sz := FloorLog2(run + 1);
    var val := run - (Pow2(sz) - 1);
    end := pos + sz;
    packed[end] := true;
    end := end + 1;
    if end + sz > len {
      return false, end;
    }
    ok := true;
    assert packed[..end] == old(packed[..pos]) + (Zeros(sz) + [true]);
    end := PutBits(packed, end, val, sz);
    assert Code(run) == Zeros(sz) + [true] + LittleEndian(val, sz);
  }

  /** Encodes the ones of one chunk that is not zero. */
  method PutChunk(packed: array<bool>, start: nat, run: nat, word: Word, len: nat, ghost bits: seq<bool>, ghost q: nat)
    returns (ok: bool, pos: nat, rest: nat)
    requires word != Zero() && q + 64 <= |bits| == len < 0x10000 && At(bits, q, word, word, 64, run)
    requires start <= len <= packed.Length && RoomFor(bits, len, packed.Length)
    requires packed[..start] == Emit(bits, q) && forall k | start <= k < len :: !packed[k]
    modifies packed
    ensures !ok ==> |Emit(bits, q + 64)| > len && WroteBehind(packed[..], old(packed[..]), bits, len)
    ensures ok ==> forall k | len <= k < packed.Length :: packed[k] == old(packed[k])
    ensures ok ==> rest == Gap(bits, q + 64) && pos <= len && packed[..pos] == Emit(bits, q + 64)
    ensures ok ==> forall k | pos <= k < len :: !packed[k]
  {
    hide At, Emit, Gap, Code, Log2, Pow2, RoomFor, StopsAt;
    var chunk, num0 := word, run;
    rest := 64;
    pos := start;
    while chunk != Zero()
      invariant num0 >= 0 && rest <= 64 && At(bits, q, word, chunk, rest, num0) && (num0 == 0 || chunk == word)
      invariant pos <= len && packed[..pos] == Emit(bits, q + 64 - rest)
      invariant forall k | pos <= k < len :: !packed[k]
      invariant forall k | len <= k < packed.Length :: packed[k] == old(packed[k])
      decreases rest
    {
      NextOne(bits, q, word, chunk, rest, num0);
      var tz := CountTz(chunk);
      ghost var one := q + 64 - rest + tz;
      chunk := Shr(chunk, tz);
      rest := rest - (tz + 1);
      num0 := num0 + tz;
      EmitOne(bits, one);
      NextCodeFits(bits, len, one, packed.Length);
      ok, pos := PutRun(packed, pos, num0, len);
      if !ok {
        EmitGrows(bits, q + 64 - rest, q + 64);
        return;
      }
      chunk := Shr(chunk, 1);
      num0 := 0;
    }
    ok := true;
    NoMoreOnes(bits, q, word, rest, num0);
  }

  /** Encodes all chunks, or stops at the first code that does not fit. */
  method PutChunks(v: Vec, complement: bool, packed: array<bool>) returns (ok: bool, pos: nat)
    requires 64 * |v| < 0x10000 && RoomFor(View(v, complement), 64 * |v|, packed.Length)
    requires forall k | 0 <= k < 64 * |v| :: !packed[k]
    modifies packed
    ensures ok == (|Encoded(View(v, complement))| <= 64 * |v|)
    ensures WroteBehind(packed[..], old(packed[..]), View(v, complement), 64 * |v|)
    ensures ok ==> pos <= packed.Length && packed[..pos] == Encoded(View(v, complement))
    ensures ok ==> forall k | pos <= k < 64 * |v| :: !packed[k]
  {
    hide At, Emit, Gap, View, Code, Log2, Pow2, RoomFor, StopsAt;
    var len := 64 * |v|;
    ghost var bits := View(v, complement);
    var num0 := 0;
    pos := 0;
    NothingEmitted(bits);
    Room(bits, len, packed.Length);
    var i := 0;
    while i < |v|
      invariant i <= |v| && 0 <= pos <= len && num0 == Gap(bits, 64 * i) && packed[..pos] == Emit(bits, 64 * i)
      invariant forall k | pos <= k < len :: !packed[k]
      invariant forall k | len <= k < packed.Length :: packed[k] == old(packed[k])
    {
      var chunk := Xor(v[i], Mask(complement));
      ChunkStarts(v, complement, i);
      if chunk == Zero() {
        NoMoreOnes(bits, 64 * i, chunk, 64, num0);
        num0 := num0 + 64;
      } else {
        ok, pos, num0 := PutChunk(packed, pos, num0, chunk, len, bits, 64 * i);
        if !ok {
          EmitGrows(bits, 64 * i + 64, len);
          return;
        }
      }
      i := i + 1;
    }
    NeverStops(bits, len);
    ok := true;
  }

  lemma Room(bits: seq<bool>, len: nat, size: nat)
    requires RoomFor(bits, len, size)
    ensures len <= size
  {
  }

  /** A code, filled up with zeros to whole bytes. */
  function Padded(code: seq<bool>): seq<bool> {
    code + Zeros(8 * ((|code| + 7) / 8) - |code|)
  }

  lemma PaddedBytes(packed: seq<bool>, pos: nat, len: nat)
    requires pos <= len <= |packed| && len % 8 == 0 && forall k | pos <= k < len :: !packed[k]
    ensures 8 * ((pos + 7) / 8) <= len && packed[..8 * ((pos + 7) / 8)] == Padded(packed[..pos])
  {
  }

  /** Clears the bytes of a vector, and encodes it into them. */
  method PutVector(v: Vec, complement: bool, packed: array<bool>) returns (ok: bool, pos: nat)
    requires 64 * |v| < 0x10000 && RoomFor(View(v, complement), 64 * |v|, packed.Length) && 64 * |v| <= packed.Length
    modifies packed
    ensures WroteBehind(packed[..], old(packed[..]), View(v, complement), 64 * |v|)
    ensures ClearBehind(old(packed[..]), 64 * |v|) ==>
      (ClearBehind(packed[..], 64 * |v|) <==> RoomFor(View(v, complement), 64 * |v|, 64 * |v|))
    ensures ok == (|Encoded(View(v, complement))| <= 64 * |v|)
    ensures ok ==> 8 * ((pos + 7) / 8) <= packed.Length
    ensures ok ==> packed[..8 * ((pos + 7) / 8)] == Padded(Encoded(View(v, complement)))
  {
    hide Encoded, View, RoomFor, StopsAt, WroteBehind, ClearBehind, Padded;
    var len := 64 * |v|;
    ghost var was := packed[..];
    forall k | 0 <= k < len {
      packed[k] := false;
    }
    ghost var cleared := packed[..];
    ok, pos := PutChunks(v, complement, packed);
    BehindOnly(packed[..], cleared, was, View(v, complement), len);
    StaysInside(packed[..], was, View(v, complement), len);
    if ok {
      PaddedBytes(packed[..], pos, len);
      assert packed[..][..pos] == packed[..pos];
      assert packed[..][..8 * ((pos + 7) / 8)] == packed[..8 * ((pos + 7) / 8)];
    }
  }

  /** Encodes a vector. Nothing is written behind its bytes if and only if they have room for the one with which the
      encoder stops, if it does. */
  method RunLengthEncode(v: Vec, popCount: nat, complement: bool, packed: array<bool>, space: nat)
    returns (status: Status, written: nat)
    requires 64 * |v| < 0x10000 && popCount == PopCount(v) && 8 * space <= packed.Length
    requires 8 * space >= 64 * |v| ==> RoomFor(View(v, complement), 64 * |v|, packed.Length)
    modifies packed
    ensures popCount == 0 || 8 * space < 64 * |v| ==> packed[..] == old(packed[..])
    ensures popCount > 0 && 8 * space >= 64 * |v| ==>
      WroteBehind(packed[..], old(packed[..]), View(v, complement), 64 * |v|)
    ensures popCount > 0 && 8 * space >= 64 * |v| && ClearBehind(old(packed[..]), 64 * |v|) ==>
      (ClearBehind(packed[..], 64 * |v|) <==> RoomFor(View(v, complement), 64 * |v|, 64 * |v|))
    ensures popCount == 0 ==> status == OK && written == 0
    ensures popCount > 0 ==> (status == OK <==> 8 * space >= 64 * |v| >= |Encoded(View(v, complement))|)
    ensures status == OK || status == ErrOverflow
    ensures popCount > 0 && status == OK ==>
      8 * written <= packed.Length && packed[..8 * written] == Padded(Encoded(View(v, complement)))
  {
    hide PopCount, Encoded, View, RoomFor, StopsAt, WroteBehind, ClearBehind, Padded;
    var len := 64 * |v|;
    if popCount == 0 {
      return OK, 0;
    }
    if space < len / 8 {
      return ErrOverflow, 0;
    }
    var ok, pos := PutVector(v, complement, packed);
    if !ok {
      return ErrOverflow, 0;
    }
    status, written := OK, (pos + 7) / 8;
  }

  lemma BehindOnly(now: seq<bool>, cleared: seq<bool>, was: seq<bool>, bits: seq<bool>, len: nat)
    requires WroteBehind(now, cleared, bits, len) && |cleared| == |was|
    requires forall k | len <= k < |was| :: cleared[k] == was[k]
    ensures WroteBehind(now, was, bits, len)
  {
  }

  /** The size of the code in bits, computed without writing it. */
  method RleSize(v: Vec, popCount: nat) returns (size: nat)
    requires 64 * |v| < 0x10000 && popCount == PopCount(v)
    ensures size == (
      if Raw(popCount, 64 * |v|) then 64 * |v| else |Encoded(View(v, Dense(popCount, 64 * |v|)))|)
  {
    size := 0;
    var num0 := 0;
    if Raw(popCount, 64 * |v|) {
      return 64 * |v|;
    }
    var complement := Dense(popCount, 64 * |v|);
    ghost var bits := View(v, complement);
    var i := 0;
    while i < |v|
      invariant i <= |v| && num0 == Gap(bits, 64 * i) && size == |Emit(bits, 64 * i)|
    {
      var word := Xor(v[i], Mask(complement));
      ChunkStarts(v, complement, i);
      size, num0 := ChunkSize(size, num0, word, bits, 64 * i);
      i := i + 1;
    }
  }

  method ChunkSize(start: nat, run: nat, word: Word, ghost bits: seq<bool>, ghost q: nat) returns (size: nat, rest: nat)
    requires q + 64 <= |bits| < 0x10000 && At(bits, q, word, word, 64, run) && start == |Emit(bits, q)|
    ensures rest == Gap(bits, q + 64) && size == |Emit(bits, q + 64)|
  {
    hide At, Emit, Gap, Code, Log2, Pow2;
    size := start;
    if word == Zero() {
      NoMoreOnes(bits, q, word, 64, run);
      return size, run + 64;
    }
    var chunk, num0 := word, run;
    rest := 64;
    while chunk != Zero()
      invariant num0 >= 0 && rest <= 64 && At(bits, q, word, chunk, rest, num0) && (num0 == 0 || chunk == word)
      invariant size == |Emit(bits, q + 64 - rest)|
      decreases rest
    {
      NextOne(bits, q, word, chunk, rest, num0);
      var tz := CountTz(chunk);
      chunk := Shr(chunk, tz);
      rest := rest - (tz + 1);
      num0 := num0 + tz;
      var sz := FloorLog2(num0 + 1);
      size := size + (1 + sz * 2);
      chunk := Shr(chunk, 1);
      num0 := 0;
    }
    NoMoreOnes(bits, q, word, rest, num0);
  }

  // ---- when the code is used ----

  /** The load is below 30 percent. */
  predicate Sparse(popCount: nat, len: nat) {
    100 * popCount + 1 < 30 * len
  }

  /** The load is above 70 percent. */
  predicate Dense(popCount: nat, len: nat) {
    100 * popCount + 1 > 70 * len
  }

  /** Neither the vector nor its complement is worth a run-length encoding. */
  predicate Raw(popCount: nat, len: nat) {
    !Sparse(popCount, len) && !Dense(popCount, len)
  }
}
