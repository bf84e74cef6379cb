/** Encoding and decoding data items in the Concise Binary Object Representation, sections 3 and 4.2.1 of RFC 8949. */
module Cbor {
  import opened Options

  type Byte = b: nat | b < 256

  datatype Status = OK | ErrOverflow | ErrResources | ErrEod | ErrInvalid

  datatype Result<+T> = Ok(value: T) | Err(status: Status)

  const TWO_TO_32: nat := 0x1_0000_0000
  const TWO_TO_63: int := 0x8000_0000_0000_0000
  const TWO_TO_64: int := 0x1_0000_0000_0000_0000

  type Uint64 = n: nat | n < TWO_TO_64

  /** The major types, as the value of the three highest bits of the first byte. */
  datatype Major = UINT | NEG | BYTES | STRING | ARRAY | MAP | TAG | OTHER

  function Code(maj: Major): (c: nat)
    ensures c <= 224 && c % 32 == 0
  {
    match maj
    case UINT => 0
    case NEG => 32
    case BYTES => 64
    case STRING => 96
    case ARRAY => 128
    case MAP => 160
    case TAG => 192
    case OTHER => 224
  }

  function MajorOf(b: Byte): (maj: Major)
    ensures Code(maj) == b - b % 32
  {
    var c := b / 32;
    if c == 0 then UINT else if c == 1 then NEG else if c == 2 then BYTES else if c == 3 then STRING
    else if c == 4 then ARRAY else if c == 5 then MAP else if c == 6 then TAG else OTHER
  }

  // ---- heads ----

  /** The number of bytes that follow the first byte of the head for a number. */
  function Requires(n: nat): nat {
    if n < 24 then 0 else if n < 0x100 then 1 else if n < 0x1_0000 then 2 else if n < TWO_TO_32 then 4 else 8
  }

  /** The `k` lowest bytes of a number, most significant first. */
  function BigEndian(n: nat, k: nat): (r: seq<Byte>)
    ensures |r| == k
  {
    if k == 0 then [] else BigEndian(n / 256, k - 1) + [n % 256]
  }

  function Number(s: seq<Byte>): nat {
    if s == [] then 0 else 256 * Number(s[..|s| - 1]) + s[|s| - 1]
  }

  function Pow256(k: nat): (r: nat)
    ensures r > 0
  {
    if k == 0 then 1 else 256 * Pow256(k - 1)
  }

  lemma {:induction false} NumberOfBigEndian(n: nat, k: nat)
    requires n < Pow256(k)
    ensures Number(BigEndian(n, k)) == n
  {
    if k > 0 {
      NumberOfBigEndian(n / 256, k - 1);
      assert BigEndian(n, k)[..k - 1] == BigEndian(n / 256, k - 1);
    }
  }

  /** The additional information in the first byte that announces `k` more bytes. */
  function Info(n: nat): nat {
    match Requires(n)
    case 0 => n
    case 1 => 24
    case 2 => 25
    case 4 => 26
    case _ => 27
  }

  /** The head of a data item. */
  function Head(n: Uint64, maj: Major): (r: seq<Byte>)
    ensures |r| == 1 + Requires(n)
  {
    [Code(maj) + Info(n)] + BigEndian(n, Requires(n))
  }

  /** The number of bytes of a head, by the additional information; there is none for 0. */
  function IntLength(info: nat): (r: nat)
    requires info < 32
    ensures r == 0 || r == 1 || r == 2 || r == 3 || r == 5 || r == 9
  {
    if info < 24 then 1 else if info == 24 then 2 else if info == 25 then 3
    else if info == 26 then 5 else if info == 27 then 9 else 0
  }

  /** A decoded head: its major type, its number and its length. */
  datatype HeadInfo = HeadInfo(maj: Major, n: nat, len: nat)

  function PeekUint(s: seq<Byte>, p: nat): (r: Result<HeadInfo>)
    requires p <= |s|
    ensures r.Err? ==> r.status != OK
  {
    if p >= |s| then Err(ErrEod) else
      var maj, info := MajorOf(s[p]), s[p] % 32;
      var len := IntLength(info);
      if |s| - p < len then Err(ErrEod)
      else if len == 0 then Err(ErrInvalid)
      else if len == 1 then Ok(HeadInfo(maj, info, 1))
      else Ok(HeadInfo(maj, Number(s[p + 1..p + len]), len))
  }

  function DecodeUint(s: seq<Byte>, p: nat, expectMaj: Major): (r: Result<HeadInfo>)
    requires p <= |s|
    ensures r.Ok? ==> r.value.maj == expectMaj && 1 <= r.value.len <= |s| - p
    ensures r.Err? ==> r.status != OK
  {
    match PeekUint(s, p)
    case Err(e) => Err(e)
    case Ok(h) => if h.maj == expectMaj then Ok(h) else Err(ErrInvalid)
  }

  /** The bytes at `p` are `part`. */
  ghost predicate Has(s: seq<Byte>, p: nat, part: seq<Byte>) {
    p + |part| <= |s| && s[p..p + |part|] == part
  }

  lemma HasParts(s: seq<Byte>, p: nat, a: seq<Byte>, b: seq<Byte>)
    requires Has(s, p, a + b)
    ensures Has(s, p, a) && Has(s, p + |a|, b)
  {
    var t := s[p..p + |a + b|];
    assert s[p..p + |a|] == t[..|a|];
    assert s[p + |a|..p + |a| + |b|] == t[|a|..];
  }

  lemma RequiresFits(n: Uint64)
    ensures n < Pow256(Requires(n)) || Requires(n) == 0
    ensures IntLength(Info(n)) == 1 + Requires(n)
  {
    assert Pow256(1) == 0x100 && Pow256(2) == 0x1_0000;
    assert Pow256(3) == 0x100_0000 && Pow256(4) == TWO_TO_32;
    assert Pow256(5) == 256 * TWO_TO_32 && Pow256(6) == 0x1_0000 * TWO_TO_32;
    assert Pow256(7) == 0x100_0000 * TWO_TO_32 && Pow256(8) == TWO_TO_64;
  }

  /** Decoding a head gives back what was encoded, in any context. */
  lemma HeadRoundTrip(s: seq<Byte>, p: nat, n: Uint64, maj: Major)
    requires Has(s, p, Head(n, maj))
    ensures PeekUint(s, p) == Ok(HeadInfo(maj, n, 1 + Requires(n)))
  {
    hide Pow256, BigEndian, Number;
    RequiresFits(n);
    HasParts(s, p, [Code(maj) + Info(n)], BigEndian(n, Requires(n)));
    assert s[p] == s[p..p + 1][0] == Code(maj) + Info(n);
    if Requires(n) > 0 {
      NumberOfBigEndian(n, Requires(n));
    }
  }

  /** The shortest form is used, section 4.2.1 of RFC 8949: no number has a shorter head. */
  lemma HeadIsShortest(n: Uint64, s: seq<Byte>, h: HeadInfo)
    requires PeekUint(s, 0) == Ok(h) && h.n == n
    ensures h.len >= |Head(n, h.maj)|
  {
    hide BigEndian, Number;
    if h.len > 1 {
      NumberBound(s[1..h.len]);
    }
    assert Pow256(1) == 0x100 && Pow256(2) == 0x1_0000;
    assert Pow256(3) == 0x100_0000 && Pow256(4) == TWO_TO_32;
  }

  lemma {:induction false} NumberBound(s: seq<Byte>)
    ensures Number(s) < Pow256(|s|)
  {
    if s != [] {
      NumberBound(s[..|s| - 1]);
    }
  }

  // ---- integers ----

  function EncodedInt(i: int): seq<Byte>
    requires -TWO_TO_63 <= i < TWO_TO_63
  {
    if i >= 0 then Head(i, UINT) else Head(-1 - i, NEG)
  }

  /** The value of a 64-bit pattern as a signed number. */
  function Signed(n: int): int {
    if n < TWO_TO_63 then n else n - TWO_TO_64
  }

  function DecodeInt(s: seq<Byte>, p: nat): Result<int>
    requires p <= |s|
  {
    match PeekUint(s, p)
    case Err(e) => Err(e)
    case Ok(h) =>
      if h.maj == UINT then
        var i := Signed(h.n);
        if i < 0 then Err(ErrInvalid) else Ok(i)
      else if h.maj == NEG then
        var i := Signed(TWO_TO_64 - 1 - h.n);
        if i > 0 then Err(ErrInvalid) else Ok(i)
      else Err(ErrInvalid)
  }

  lemma IntRoundTrip(s: seq<Byte>, p: nat, i: int)
    requires -TWO_TO_63 <= i < TWO_TO_63 && Has(s, p, EncodedInt(i))
    ensures DecodeInt(s, p) == Ok(i)
  {
    HeadRoundTrip(s, p, if i >= 0 then i else -1 - i, if i >= 0 then UINT else NEG);
  }

  /** An integer is decoded wrongly in one case only: the most negative number of 65 bits is taken for zero. */
  lemma DecodedIntIsExact(s: seq<Byte>, p: nat)
    requires p <= |s| && DecodeInt(s, p).Ok?
    ensures var h := PeekUint(s, p).value;
      (DecodeInt(s, p).value == if h.maj == UINT then h.n else -1 - h.n)
      <==> !(h.maj == NEG && h.n == TWO_TO_64 - 1)
  {
    hide Number, Pow256;
    var h := PeekUint(s, p).value;
    if h.len > 1 {
      NumberBound(s[p + 1..p + h.len]);
      NumberBound8(h.len - 1);
    }
  }

  lemma NumberBound8(k: nat)
    requires k <= 8
    ensures Pow256(k) <= TWO_TO_64
  {
    assert Pow256(1) == 0x100 && Pow256(2) == 0x1_0000;
    assert Pow256(3) == 0x100_0000 && Pow256(4) == TWO_TO_32;
    assert Pow256(5) == 256 * TWO_TO_32 && Pow256(6) == 0x1_0000 * TWO_TO_32;
    assert Pow256(7) == 0x100_0000 * TWO_TO_32 && Pow256(8) == TWO_TO_64;
  }

  // ---- byte strings ----

  /** A byte string; the length is cut off to 32 bits. */
  function EncodedBytes(data: seq<Byte>, maj: Major): seq<Byte> {
    Head(|data| % TWO_TO_32, maj) + data
  }

  /** The data of a byte string and the position after it. */
  function DecodeBytes(s: seq<Byte>, p: nat, maj: Major): (r: Result<(seq<Byte>, nat)>)
    requires p <= |s|
    ensures r.Err? ==> r.status != OK
  {
    match DecodeUint(s, p, maj)
    case Err(e) => Err(e)
    case Ok(h) =>
      var q := p + h.len;
      if h.n > |s| - q then Err(ErrInvalid) else Ok((s[q..q + h.n], q + h.n))
  }

  /** A byte string is decoded as encoded exactly when its length fits into 32 bits. */
  lemma BytesRoundTrip(s: seq<Byte>, p: nat, data: seq<Byte>, maj: Major)
    requires Has(s, p, EncodedBytes(data, maj))
    ensures DecodeBytes(s, p, maj) == Ok((data, p + |EncodedBytes(data, maj)|)) <==> |data| < TWO_TO_32
  {
    hide PeekUint;
    var n := |data| % TWO_TO_32;
    HasParts(s, p, Head(n, maj), data);
    HeadRoundTrip(s, p, n, maj);
    if |data| < TWO_TO_32 {
      assert n == |data|;
    } else {
      assert n < |data|;
    }
  }

  // ---- skipping ----

  /** The position after the data item at `p`. Only the head of a tag is skipped. */
  function Skip(s: seq<Byte>, p: nat): (r: Result<nat>)
    requires p <= |s|
    ensures r.Ok? ==> p < r.value <= |s|
    ensures r.Err? ==> r.status != OK
    decreases |s| - p, 0
  {
    if p >= |s| then Err(ErrEod) else
      var maj, info := MajorOf(s[p]), s[p] % 32;
      match maj
      case UINT | NEG | TAG =>
        var len := IntLength(info);
        if len == 0 then Err(ErrInvalid) else if |s| - p < len then Err(ErrEod) else Ok(p + len)
      case BYTES | STRING =>
        (match DecodeBytes(s, p, maj)
         case Err(e) => Err(e)
         case Ok((data, q)) => Ok(q))
      case ARRAY =>
        (match DecodeUint(s, p, maj)
         case Err(e) => Err(e)
         case Ok(h) => SkipItems(s, p + h.len, h.n))
      case MAP =>
        (match DecodeUint(s, p, maj)
         case Err(e) => Err(e)
         case Ok(h) => SkipItems(s, p + h.len, 2 * h.n))
      case OTHER =>
        if 20 <= info <= 22 then Ok(p + 1)
        else if info == 26 then (if |s| - p < 5 then Err(ErrEod) else Ok(p + 5))
        else if info == 27 then (if |s| - p < 9 then Err(ErrEod) else Ok(p + 9))
        else Err(ErrInvalid)
  }

  /** The position after `n` data items. */
  function SkipItems(s: seq<Byte>, p: nat, n: nat): (r: Result<nat>)
    requires p <= |s|
    ensures r.Ok? ==> p + n <= r.value <= |s|
    ensures r.Err? ==> r.status != OK
    decreases |s| - p, 1
  {
    if n == 0 then Ok(p) else
      match Skip(s, p)
      case Err(e) => Err(e)
      case Ok(q) => SkipItems(s, q, n - 1)
  }

  datatype Value =
    | Unsigned(n: nat)
    | Negative(n: nat)
    | ByteString(data: seq<Byte>)
    | Text(data: seq<Byte>)
    | Array(items: seq<Value>)
    | Map(entries: seq<Value>)       // keys and values by turns
    | Simple(info: nat)              // false, true and null
    | Float(data: seq<Byte>)
    | Double(data: seq<Byte>)
    | Tagged(tag: nat, value: Value)

  /** Values that the encoders take: numbers of 64 bits, and lengths of 32 bits. */
  predicate Encodable(v: Value) {
    match v
    case Unsigned(n) => n < TWO_TO_64
    case Negative(n) => n < TWO_TO_63
    case ByteString(data) => |data| < TWO_TO_32
    case Text(data) => |data| < TWO_TO_32
    case Array(items) => |items| < TWO_TO_32 && forall i | 0 <= i < |items| :: Encodable(items[i])
    case Map(entries) => |entries| < TWO_TO_32 && |entries| % 2 == 0 && forall i | 0 <= i < |entries| :: Encodable(entries[i])
    case Simple(info) => 20 <= info <= 22
    case Float(data) => |data| == 4
    case Double(data) => |data| == 8
    case Tagged(tag, value) => tag < TWO_TO_64 && Encodable(value)
  }

  /** The number of tags in a value, at any depth. */
  function Tags(v: Value): nat
    decreases v, 1
  {
    match v
    case Array(items) => TagsFrom(v, items, 0)
    case Map(entries) => TagsFrom(v, entries, 0)
    case Tagged(_, value) => 1 + Tags(value)
    case _ => 0
  }

  /** The number of tags in the items of `v` from index `i`. */
  function TagsFrom(v: Value, items: seq<Value>, i: nat): nat
    requires (v.Array? && items == v.items) || (v.Map? && items == v.entries)
    requires i <= |items|
    decreases v, 0, |items| - i
  {
    if i == |items| then 0 else Tags(items[i]) + TagsFrom(v, items, i + 1)
  }

  function Encoded(v: Value): seq<Byte>
    requires Encodable(v)
    decreases v, 2
  {
    match v
    case Unsigned(n) => Head(n, UINT)
    case Negative(n) => EncodedInt(-1 - n)
    case ByteString(data) => EncodedBytes(data, BYTES)
    case Text(data) => EncodedBytes(data, STRING)
    case Array(items) => Head(|items|, ARRAY) + EncodedItems(v, items, 0)
    case Map(entries) => Head(|entries| / 2, MAP) + EncodedItems(v, entries, 0)
    case Simple(info) => [224 + info]
    case Float(data) => [224 + 26] + data
    case Double(data) => [224 + 27] + data
    case Tagged(tag, value) => Head(tag, TAG) + Encoded(value)
  }

  /** The encoding of the items of `v` from index `i`. */
  function EncodedItems(v: Value, items: seq<Value>, i: nat): seq<Byte>
    requires (v.Array? && items == v.items) || (v.Map? && items == v.entries)
    requires i <= |items| && forall k | 0 <= k < |items| :: Encodable(items[k])
    decreases v, 1, |items| - i
  {
    if i == |items| then [] else Encoded(items[i]) + EncodedItems(v, items, i + 1)
  }

  /** Examples from Appendix A of RFC 8949: numbers. */
  lemma ExampleNumbers()
    ensures Encoded(Unsigned(0)) == [0x00] && Encoded(Unsigned(23)) == [0x17] && Encoded(Unsigned(24)) == [0x18, 0x18]
    ensures Encoded(Unsigned(1000)) == [0x19, 0x03, 0xe8]
    ensures EncodedInt(-1) == [0x20] && EncodedInt(-100) == [0x38, 0x63] && EncodedInt(-1000) == [0x39, 0x03, 0xe7]
  {
  }

  lemma ExampleLongNumbers()
    ensures Encoded(Unsigned(1000000)) == [0x1a, 0x00, 0x0f, 0x42, 0x40]
    ensures Encoded(Unsigned(1000000000000)) == [0x1b, 0x00, 0x00, 0x00, 0xe8, 0xd4, 0xa5, 0x10, 0x00]
  {
    assert BigEndian(1000000, 4) == [0x00, 0x0f, 0x42, 0x40];
    assert BigEndian(1000000000000, 8) == [0x00, 0x00, 0x00, 0xe8, 0xd4, 0xa5, 0x10, 0x00];
    hide BigEndian;
  }

  /** And the other kinds of data items. */
  lemma ExampleItems()
    ensures Encoded(ByteString([1, 2, 3, 4])) == [0x44, 1, 2, 3, 4] && Encoded(Text([0x61])) == [0x61, 0x61]
    ensures var v := Array([Unsigned(1), Unsigned(2)]); Encoded(v) == [0x82, 1, 2]
    ensures var v := Map([Unsigned(1), Unsigned(2)]); Encoded(v) == [0xa1, 1, 2]
    ensures Encoded(Tagged(1, Unsigned(5))) == [0xc1, 5] && Encoded(Simple(20)) == [0xf4]
  {
  }

  /** Skipping some items and then some more. */
  lemma {:induction false} SkipItemsAppend(s: seq<Byte>, p: nat, m: nat, n: nat)
    requires p <= |s|
    ensures SkipItems(s, p, m + n) == (match SkipItems(s, p, m)
                                       case Err(e) => Err(e)
                                       case Ok(q) => SkipItems(s, q, n))
    decreases m
  {
    hide Skip;
    if m > 0 {
      match Skip(s, p)
      case Err(e) =>
      case Ok(q) => SkipItemsAppend(s, q, m - 1, n);
    }
  }

  /** A tag counts as an item of its own: as many items must be skipped as the value has tags, and one more. */
  lemma {:induction false} SkipWithTags(s: seq<Byte>, p: nat, v: Value)
    requires Encodable(v) && Has(s, p, Encoded(v))
    ensures SkipItems(s, p, 1 + Tags(v)) == Ok(p + |Encoded(v)|)
    decreases v, 3
  {
    hide Skip;
    match v
    case Unsigned(n) => SkipNumber(s, p, n, UINT);
    case Negative(n) => SkipNumber(s, p, n, NEG);
    case ByteString(data) => SkipString(s, p, data, BYTES);
    case Text(data) => SkipString(s, p, data, STRING);
    case Array(items) => SkipList(s, p, v, items, ARRAY);
    case Map(entries) => SkipList(s, p, v, entries, MAP);
    case Simple(info) => SkipOther(s, p, v);
    case Float(data) => SkipOther(s, p, v);
    case Double(data) => SkipOther(s, p, v);
    case Tagged(tag, value) =>
      HasParts(s, p, Head(tag, TAG), Encoded(value));
      SkipNumber(s, p, tag, TAG);
      SkipWithTags(s, p + |Head(tag, TAG)|, value);
  }

  /** Skipping consumes exactly the encoding of a nested value, whatever follows, if and only if there is no tag in it. */
  lemma {:induction false} SkipIsExact(s: seq<Byte>, p: nat, v: Value)
    requires Encodable(v) && Has(s, p, Encoded(v))
    ensures Skip(s, p).Ok?
    ensures Skip(s, p) == Ok(p + |Encoded(v)|) <==> Tags(v) == 0
  {
    hide Skip, Encoded, Tags;
    SkipWithTags(s, p, v);
    SkipItemsAppend(s, p, 1, Tags(v));
  }

  lemma SkipOther(s: seq<Byte>, p: nat, v: Value)
    requires (v.Simple? || v.Float? || v.Double?) && Encodable(v) && Has(s, p, Encoded(v))
    ensures Skip(s, p) == Ok(p + |Encoded(v)|)
  {
    FirstByte(s, p, Encoded(v));
  }

  lemma FirstByte(s: seq<Byte>, p: nat, part: seq<Byte>)
    requires Has(s, p, part) && part != []
    ensures s[p] == part[0]
  {
    assert s[p] == s[p..p + |part|][0];
  }

  lemma SkipNumber(s: seq<Byte>, p: nat, n: Uint64, maj: Major)
    requires Has(s, p, Head(n, maj)) && (maj == UINT || maj == NEG || maj == TAG)
    ensures Skip(s, p) == Ok(p + |Head(n, maj)|)
  {
    FirstByte(s, p, Head(n, maj));
    RequiresFits(n);
  }

  lemma SkipString(s: seq<Byte>, p: nat, data: seq<Byte>, maj: Major)
    requires Has(s, p, EncodedBytes(data, maj)) && |data| < TWO_TO_32 && (maj == BYTES || maj == STRING)
    ensures Skip(s, p) == Ok(p + |EncodedBytes(data, maj)|)
  {
    BytesRoundTrip(s, p, data, maj);
    FirstByte(s, p, EncodedBytes(data, maj));
  }

  /** The head of an array or a map announces how many items are to be skipped. */
  lemma SkipListHead(s: seq<Byte>, p: nat, n: Uint64, maj: Major)
    requires Has(s, p, Head(n, maj)) && (maj == ARRAY || maj == MAP)
    ensures Skip(s, p) == SkipItems(s, p + |Head(n, maj)|, if maj == MAP then 2 * n else n)
  {
    hide SkipItems, BigEndian;
    HeadRoundTrip(s, p, n, maj);
    FirstByte(s, p, Head(n, maj));
    assert DecodeUint(s, p, maj) == Ok(HeadInfo(maj, n, |Head(n, maj)|));
  }

  lemma ListParts(v: Value, items: seq<Value>, maj: Major, n: nat)
    requires (v.Array? && items == v.items && maj == ARRAY && n == |items|)
          || (v.Map? && items == v.entries && maj == MAP && n == |items| / 2)
    requires Encodable(v)
    ensures n < TWO_TO_64 && (maj == MAP ==> 2 * n == |items|) && forall k | 0 <= k < |items| :: Encodable(items[k])
    ensures Encoded(v) == Head(n, maj) + EncodedItems(v, items, 0) && Tags(v) == TagsFrom(v, items, 0)
  {
    hide Head;
  }

  lemma SkipList(s: seq<Byte>, p: nat, v: Value, items: seq<Value>, maj: Major)
    requires (v.Array? && items == v.items && maj == ARRAY) || (v.Map? && items == v.entries && maj == MAP)
    requires Encodable(v) && Has(s, p, Encoded(v))
    ensures SkipItems(s, p, 1 + Tags(v)) == Ok(p + |Encoded(v)|)
    decreases v, 2
  {
    hide *;
    var n := if maj == MAP then |items| / 2 else |items|;
    ListParts(v, items, maj, n);
    HasParts(s, p, Head(n, maj), EncodedItems(v, items, 0));
    SkipListHead(s, p, n, maj);
    var q := p + |Head(n, maj)|;
    SkipItemsWithTags(s, q, v, items, 0);
    SkipItemsAppend(s, p, 1, Tags(v));
    SkipItemsAppend(s, q, |items|, Tags(v));
    SkipOne(s, p);
  }

  lemma SkipOne(s: seq<Byte>, p: nat)
    requires p <= |s|
    ensures SkipItems(s, p, 1) == Skip(s, p)
  {
    hide Skip;
  }

  lemma {:induction false} SkipItemsWithTags(s: seq<Byte>, p: nat, v: Value, items: seq<Value>, i: nat)
    requires (v.Array? && items == v.items) || (v.Map? && items == v.entries)
    requires Encodable(v) && i <= |items| && forall k | 0 <= k < |items| :: Encodable(items[k])
    requires Has(s, p, EncodedItems(v, items, i))
    ensures SkipItems(s, p, |items| - i + TagsFrom(v, items, i)) == Ok(p + |EncodedItems(v, items, i)|)
    decreases v, 1, |items| - i
  {
    hide Skip, Head, Encodable, Encoded, Tags;
    if i < |items| {
      HasParts(s, p, Encoded(items[i]), EncodedItems(v, items, i + 1));
      SkipWithTags(s, p, items[i]);
      SkipItemsWithTags(s, p + |Encoded(items[i])|, v, items, i + 1);
      SkipItemsAppend(s, p, 1 + Tags(items[i]), |items| - (i + 1) + TagsFrom(v, items, i + 1));
    }
  }

  /** Of a tagged value only the tag is skipped. */
  lemma SkipLeavesTaggedValue(s: seq<Byte>, p: nat, tag: Uint64, v: Value)
    requires Encodable(v) && Has(s, p, Encoded(Tagged(tag, v)))
    ensures Skip(s, p) == Ok(p + |Head(tag, TAG)|)
  {
    HasParts(s, p, Head(tag, TAG), Encoded(v));
    SkipNumber(s, p, tag, TAG);
  }
}
