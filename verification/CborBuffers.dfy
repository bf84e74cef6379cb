/** Writing data items through a transmit buffer, and reading them through a receive buffer. */
module CborBuffers {
  import opened Cbor

  const CBOR_MAX_LENGTH: nat := 9

  /** Bytes up to `eob` belong to the buffer, and memory goes on after them. */
  class TxBuffer {
    const base: array<Byte>
    const eob: nat
    var txPos: nat

    ghost predicate Valid()
      reads `txPos
    {
      txPos <= eob < base.Length
    }

    function Space(): int
      reads `txPos
    {
      eob - txPos
    }

    constructor (size: nat)
      ensures Valid() && txPos == 0 && fresh(base) && eob == size
    {
      base, eob, txPos := new Byte[size + 1](_ => 0), size, 0;
    }

    /** `part` has been written, and nothing else has changed. */
    twostate predicate Wrote(part: seq<Byte>)
      reads this, base
    {
      && txPos == old(txPos) + |part| <= eob < base.Length
      && base[..txPos] == old(base[..txPos]) + part && base[txPos..] == old(base[..])[txPos..]
    }

    /** Stores bytes one after the other. */
    method Store(p: nat, part: seq<Byte>)
      requires p + |part| <= base.Length
      modifies base
      ensures base[..] == old(base[..p]) + part + old(base[p + |part|..])
    {
      for i := 0 to |part|
        invariant base[..p + i] == old(base[..p]) + part[..i]
        invariant base[p + i..] == old(base[p + i..])
      {
        base[p + i] := part[i];
      }
      assert part[..|part|] == part;
      assert base[..] == base[..p + |part|] + base[p + |part|..];
    }

    method EncodeUint(n: Uint64, maj: Major) returns (status: Status)
      requires Valid()
      modifies `txPos, base
      ensures Valid() && status == if |Head(n, maj)| <= old(Space()) then OK else ErrOverflow
      ensures if status == OK then Wrote(Head(n, maj)) else txPos == old(txPos) && base[..] == old(base[..])
    {
      hide Head, BigEndian;
      var lenReq := Requires(n);
      HeadBytes(n, maj);
      if lenReq + 1 > Space() {
        return ErrOverflow;
      }
      var p := txPos;
      match lenReq {
        case 0 => Store(p, [Code(maj) + n]);
        case 1 => Store(p, [Code(maj) + 24, n]);
        case 2 => Store(p, [Code(maj) + 25, n / 0x100, n % 0x100]);
        case 4 =>
          Store(p, [Code(maj) + 26, n / 0x100_0000, n / 0x1_0000 % 0x100, n / 0x100 % 0x100, n % 0x100]);
        case _ =>
          Store(p, [Code(maj) + 27, n / 0x100_0000_0000_0000, n / 0x1_0000_0000_0000 % 0x100,
                    n / 0x100_0000_0000 % 0x100, n / 0x1_0000_0000 % 0x100, n / 0x100_0000 % 0x100,
                    n / 0x1_0000 % 0x100, n / 0x100 % 0x100, n % 0x100]);
      }
      txPos := p + 1 + lenReq;
      status := OK;
    }

    method Copy(data: seq<Byte>) returns (status: Status)
      requires Valid()
      modifies `txPos, base
      ensures Valid() && status == if |data| <= old(Space()) then OK else ErrOverflow
      ensures if status == OK then Wrote(data) else txPos == old(txPos) && base[..] == old(base[..])
    {
      status := OK;
      if data != [] {
        if |data| > Space() {
          status := ErrOverflow;
        } else {
          Store(txPos, data);
          txPos := txPos + |data|;
        }
      }
    }

    method EncodeBytes(data: seq<Byte>) returns (status: Status)
      requires Valid()
      modifies `txPos, base
      ensures Valid() && status == if |EncodedBytes(data, BYTES)| <= old(Space()) then OK else ErrOverflow
      ensures (
        if status == OK then Wrote(EncodedBytes(data, BYTES))
        else if |Head(|data| % TWO_TO_32, BYTES)| <= old(Space()) then Wrote(Head(|data| % TWO_TO_32, BYTES))
        else txPos == old(txPos) && base[..] == old(base[..]))
    {
      hide Head;
      status := EncodeUint(|data| % TWO_TO_32, BYTES);
      if status == OK {
        status := Copy(data);
      }
    }

    /** Leaves room for a byte string that starts at `ptr`. */
    method ReserveBytes(len: nat) returns (status: Status, ptr: nat)
      requires Valid()
      modifies `txPos, base
      ensures Valid()
      ensures status == if |Head(len % TWO_TO_32, BYTES)| + len <= old(Space()) then OK else ErrOverflow
      ensures status == OK ==>
        && ptr == old(txPos) + |Head(len % TWO_TO_32, BYTES)| && txPos == ptr + len
        && base[..ptr] == old(base[..txPos]) + Head(len % TWO_TO_32, BYTES) && base[ptr..] == old(base[..])[ptr..]
      ensures base[eob..] == old(base[eob..])
    {
      hide Head;
      ptr := 0;
      status := EncodeUint(len % TWO_TO_32, BYTES);
      if status == OK {
        if Space() < len {
          status := ErrOverflow;
        } else {
          ptr := txPos;
          txPos := txPos + len;
        }
      }
    }

    /** The bytes written since `wrapPtr` are the head of a byte string and `data`. */
    ghost predicate Wrapping(wrapPtr: nat, hint: nat, data: seq<Byte>)
      reads this, base
    {
      && hint < TWO_TO_32 && txPos == wrapPtr + |Head(hint, BYTES)| + |data| <= eob < base.Length
      && base[wrapPtr..txPos] == Head(hint, BYTES) + data
    }

    method StartWrapBytes(hintLen: nat) returns (status: Status, wrapPtr: nat)
      requires Valid() && hintLen < TWO_TO_32
      modifies `txPos, base
      ensures Valid() && wrapPtr == old(txPos)
      ensures status == if |Head(hintLen, BYTES)| + hintLen <= old(Space()) then OK else ErrOverflow
      ensures status == OK ==> Wrote(Head(hintLen, BYTES)) && Wrapping(wrapPtr, hintLen, [])
    {
      hide Head;
      wrapPtr := txPos;
      var tmp;
      status, tmp := ReserveBytes(hintLen);
      if status == OK {
        txPos := tmp;
      }
    }

    /** Moves `len` bytes, whose old and new places may overlap. */
    method Move(to: nat, from: nat, len: nat)
      requires to + len <= base.Length && from + len <= base.Length
      modifies base
      ensures base[to..to + len] == old(base[from..from + len])
      ensures base[..to] == old(base[..to]) && base[to + len..] == old(base[to + len..])
    {
      var data := base[from..from + len];
      Store(to, data);
    }

    /** Reads the length that was reserved, and where the data starts. */
    method WrappedHint(wrapPtr: nat, ghost hint0: nat, ghost data: seq<Byte>) returns (hint: nat, start: nat)
      requires Wrapping(wrapPtr, hint0, data)
      ensures hint == hint0 && start == wrapPtr + |Head(hint0, BYTES)|
    {
      hide Head, PeekUint;
      var rx := base[wrapPtr..if wrapPtr + CBOR_MAX_LENGTH <= base.Length then wrapPtr + CBOR_MAX_LENGTH else base.Length];
      HeadInView(base[..], wrapPtr, txPos, hint0, data, rx);
      HeadRoundTrip(rx, 0, hint0, BYTES);
      match DecodeUint(rx, 0, BYTES)
      case Ok(h) => hint, start := h.n, wrapPtr + h.len;
    }

    /** Writes the head over, and takes `len` bytes after it as data. */
    method Rewind(wrapPtr: nat, len: nat) returns (status: Status)
      requires wrapPtr <= eob < base.Length && len < TWO_TO_32
      modifies `txPos, base
      ensures Valid() && base[eob..] == old(base[eob..])
      ensures status == if wrapPtr + |Head(len, BYTES)| + len <= eob then OK else ErrOverflow
      ensures var start := wrapPtr + |Head(len, BYTES)|;
        status == OK ==> base[..txPos] == old(base[..wrapPtr]) + Head(len, BYTES) + old(base[start..start + len])
    {
      hide Head;
      txPos := wrapPtr;
      ghost var was := base[..];
      var pos;
      status, pos := ReserveBytes(len);
      if status == OK {
        assert base[pos..txPos] == was[pos..][..len];
        assert base[..txPos] == base[..pos] + base[pos..txPos];
      }
    }

    /** Where the byte string will end. */
    ghost function WrappedEnd(wrapPtr: nat, data: seq<Byte>): nat
      requires |data| < TWO_TO_32
    {
      wrapPtr + |Head(|data|, BYTES)| + |data|
    }

    /** With enough room, the head for the actual length replaces the one for the hint. When one byte is missing, the
        bound for moving the data is one byte too far, and its last byte is written behind the buffer before the missing
        room is noticed. When more is missing, nothing is moved. */
    method EndWrapBytes(wrapPtr: nat, ghost hint0: nat, ghost data: seq<Byte>) returns (status: Status)
      requires Wrapping(wrapPtr, hint0, data) && |data| < TWO_TO_32
      modifies `txPos, base
      ensures var end := WrappedEnd(wrapPtr, data);
        status == if end <= eob then OK else if end == eob + 1 then ErrOverflow else ErrResources
      ensures status == OK ==> Valid() && base[..txPos] == old(base[..wrapPtr]) + EncodedBytes(data, BYTES)
      ensures status != ErrOverflow ==> base[eob..] == old(base[eob..])
      ensures status == ErrOverflow ==>
        data != [] && base[eob] == data[|data| - 1] && base[eob + 1..] == old(base[eob + 1..])
    {
      EncodedShort(data);
      hide Head, EncodedBytes;
      var hint, start := WrappedHint(wrapPtr, hint0, data);
      var actual := txPos - start;
      assert base[start..txPos] == data by {
        assert base[start..txPos] == base[wrapPtr..txPos][|Head(hint0, BYTES)|..];
      }
      var ok := MakeRoom(wrapPtr, start, actual, hint);
      if !ok {
        return ErrResources;
      }
      status := FinishWrap(wrapPtr, actual, data);
    }

    /** Writes the head in front of the data, which has been moved to its final place. */
    method FinishWrap(wrapPtr: nat, actual: nat, ghost data: seq<Byte>) returns (status: Status)
      requires |data| == actual < TWO_TO_32 && wrapPtr <= eob < base.Length
      requires var to := wrapPtr + |Head(actual, BYTES)|;
        to + actual <= eob + 1 && base[to..to + actual] == data
      modifies `txPos, base
      ensures Valid() && status == if WrappedEnd(wrapPtr, data) <= eob then OK else ErrOverflow
      ensures status == OK ==> base[..txPos] == old(base[..wrapPtr]) + (Head(actual, BYTES) + data)
      ensures base[eob..] == old(base[eob..])
      ensures status == ErrOverflow && actual > 0 ==> base[eob] == data[actual - 1]
      ensures base[eob + 1..] == old(base[eob + 1..])
    {
      hide Head;
      ghost var was, to := base[..], wrapPtr + |Head(actual, BYTES)|;
      status := Rewind(wrapPtr, actual);
      SuffixSame(was, base[..], eob, eob + 1);
      if status != OK && actual > 0 {
        assert data[actual - 1] == was[to..to + actual][actual - 1] == was[eob];
        assert base[eob..][0] == was[eob..][0];
      }
    }

    /** Moves the data when its head takes more or fewer bytes than were reserved. The bound on the bytes to move is that
        of a buffer whose next byte is `wrapPtr + Requires(actual)`. */
    method MakeRoom(wrapPtr: nat, start: nat, actual: nat, hint: nat) returns (ok: bool)
      requires actual < TWO_TO_32 && hint < TWO_TO_32 && start == wrapPtr + |Head(hint, BYTES)|
      requires start + actual == txPos <= eob < base.Length
      modifies `txPos, base
      ensures var to := wrapPtr + |Head(actual, BYTES)|;
        && (ok <==> to + actual <= eob + 1)
        && (ok ==> base[to..to + actual] == old(base[start..start + actual]) && base[..wrapPtr] == old(base[..wrapPtr]))
        && (ok && to + actual > eob ==> actual > 0 && base[eob + 1..] == old(base[eob + 1..]))
        && (!ok || to + actual <= eob ==> base[eob..] == old(base[eob..]))
    {
      hide Head;
      var diff := Requires(actual) - Requires(hint);
      ok := true;
      if diff != 0 && actual != 0 {
        txPos := wrapPtr + Requires(actual);
        if actual > Space() {
          return false;
        }
        ghost var was := base[..];
        var to := start + diff;
        Move(to, start, actual);
        PrefixSame(was, base[..], to, wrapPtr);
        SuffixSame(was, base[..], to + actual, eob + 1);
        if to + actual <= eob {
          SuffixSame(was, base[..], to + actual, eob);
        }
      }
    }
  }

  lemma PrefixSame(a: seq<Byte>, b: seq<Byte>, n: nat, k: nat)
    requires k <= n <= |a| == |b| && a[..n] == b[..n]
    ensures a[..k] == b[..k]
  {
    assert a[..n][..k] == b[..n][..k];
  }

  lemma SuffixSame(a: seq<Byte>, b: seq<Byte>, n: nat, k: nat)
    requires n <= k <= |a| == |b| && a[n..] == b[n..]
    ensures a[k..] == b[k..]
  {
    assert a[n..][k - n..] == b[n..][k - n..];
  }

  /** A view of the next nine bytes, or of all there are, shows the whole head. */
  lemma HeadInView(b: seq<Byte>, p: nat, q: nat, n: nat, data: seq<Byte>, rx: seq<Byte>)
    requires n < TWO_TO_32 && p <= q <= |b| && b[p..q] == Head(n, BYTES) + data
    requires rx == b[p..if p + CBOR_MAX_LENGTH <= |b| then p + CBOR_MAX_LENGTH else |b|]
    ensures Has(rx, 0, Head(n, BYTES))
  {
    var h := Head(n, BYTES);
    hide Head, BigEndian;
    assert |h| == 1 + Requires(n) <= 9;
    assert |h| <= q - p;
    forall k | 0 <= k < |h|
      ensures rx[k] == h[k]
    {
      assert b[p..q][k] == h[k];
    }
    assert rx[0..0 + |h|] == h;
  }

  lemma EncodedShort(data: seq<Byte>)
    requires |data| < TWO_TO_32
    ensures EncodedBytes(data, BYTES) == Head(|data|, BYTES) + data
  {
  }

  /** Wrapping data in place, with any hint, leaves what encoding it directly leaves. */
  method WrapBytes(buffer: TxBuffer, hint: nat, data: seq<Byte>) returns (status: Status)
    requires buffer.Valid() && hint < TWO_TO_32 && |data| < TWO_TO_32
    requires |Head(hint, BYTES)| + hint <= buffer.Space() && |Head(hint, BYTES)| + |data| <= buffer.Space()
    requires |EncodedBytes(data, BYTES)| <= buffer.Space()
    modifies buffer`txPos, buffer.base
    ensures status == OK && buffer.Valid()
    ensures buffer.base[..buffer.txPos] == old(buffer.base[..buffer.txPos]) + EncodedBytes(data, BYTES)
  {
    hide Head;
    var wrapPtr;
    status, wrapPtr := buffer.StartWrapBytes(hint);
    ghost var mid := buffer.base[..buffer.txPos];
    status := buffer.Copy(data);
    assert buffer.base[..wrapPtr] == old(buffer.base[..buffer.txPos]);
    assert buffer.base[wrapPtr..buffer.txPos] == mid[wrapPtr..] + data;
    status := buffer.EndWrapBytes(wrapPtr, hint, data);
  }

  class RxBuffer {
    const data: seq<Byte>
    var rxPos: nat

    ghost predicate Valid()
      reads this
    {
      rxPos <= |data|
    }

    constructor (data: seq<Byte>)
      ensures Valid() && rxPos == 0 && this.data == data
    {
      this.data, rxPos := data, 0;
    }

    /** Looks at a head, and puts its number together from its bytes. */
    method PeekHead() returns (status: Status, n: nat, maj: Major, len: nat)
      requires Valid()
      ensures match PeekUint(data, rxPos)
              case Err(e) => status == e
              case Ok(h) => status == OK && n == h.n && maj == h.maj && len == h.len
    {
      status, n, maj, len := OK, 0, UINT, 0;
      if |data| - rxPos < 1 {
        return ErrEod, n, maj, len;
      }
      var p: seq<int> := data[rxPos..];
      maj := MajorOf(p[0]);
      var info := p[0] % 32;
      len := IntLength(info);
      if |p| < len {
        return ErrEod, n, maj, len;
      }
      ghost var rest := data[rxPos + 1..rxPos + if len == 0 then 1 else len];
      assert forall k | 0 <= k < |rest| :: rest[k] == p[k + 1];
      NumberByBytes(rest, rest);
      match len {
        case 1 => n := info;
        case 2 => n := p[1];
        case 3 => n := p[1] * 0x100 + p[2];
        case 5 => n := p[1] * 0x100_0000 + p[2] * 0x1_0000 + p[3] * 0x100 + p[4];
        case 9 =>
          n := p[1] * 0x100_0000_0000_0000 + p[2] * 0x1_0000_0000_0000 + p[3] * 0x100_0000_0000
            + p[4] * 0x1_0000_0000 + p[5] * 0x100_0000 + p[6] * 0x1_0000 + p[7] * 0x100 + p[8];
        case _ => status := ErrInvalid;
      }
    }

    /** Reads the number of a head of one type: whatever was encoded there is read, and nothing is consumed otherwise. */
    method ReadUint(maj: Major) returns (status: Status, n: nat)
      requires Valid()
      modifies this
      ensures Valid()
      ensures match DecodeUint(data, old(rxPos), maj)
              case Err(e) => status == e && rxPos == old(rxPos)
              case Ok(h) => status == OK && n == h.n && rxPos == old(rxPos) + h.len
      ensures forall k: Uint64 | Has(data, old(rxPos), Head(k, maj)) ::
        status == OK && n == k && rxPos == old(rxPos) + |Head(k, maj)|
    {
      hide PeekUint, Head;
      ghost var decoded := DecodeUint(data, rxPos, maj);
      forall k: Uint64 | Has(data, rxPos, Head(k, maj))
        ensures PeekUint(data, rxPos) == Ok(HeadInfo(maj, k, |Head(k, maj)|))
      {
        HeadRoundTrip(data, rxPos, k, maj);
      }
      var found, len;
      status, n, found, len := PeekHead();
      if status == OK {
        if found != maj {
          return ErrInvalid, n;
        }
        rxPos := rxPos + len;
      }
    }

    method ReadBytes(maj: Major) returns (status: Status, bytes: seq<Byte>)
      requires Valid()
      modifies this
      ensures Valid() && rxPos >= old(rxPos)
      ensures match DecodeBytes(data, old(rxPos), maj)
              case Err(e) => status == e
              case Ok((b, q)) => status == OK && bytes == b && rxPos == q
    {
      bytes := [];
      var len;
      status, len := ReadUint(maj);
      if status == OK {
        if len > |data| - rxPos {
          status := ErrInvalid;
        } else {
          bytes := data[rxPos..rxPos + len];
          rxPos := rxPos + len;
        }
      }
    }

    /** Skips one data item. */
    method SkipItem() returns (status: Status)
      requires Valid()
      modifies this
      ensures Valid() && rxPos >= old(rxPos)
      ensures match Skip(data, old(rxPos))
              case Err(e) => status == e
              case Ok(q) => status == OK && rxPos == q
      decreases |data| - rxPos, 0
    {
      status := OK;
      if rxPos >= |data| {
        return ErrEod;
      }
      var maj, info := MajorOf(data[rxPos]), data[rxPos] % 32;
      match maj {
        case UINT | NEG | TAG =>
          var len := IntLength(info);
          if len == 0 {
            status := ErrInvalid;
          } else if |data| - rxPos < len {
            status := ErrEod;
          } else {
            rxPos := rxPos + len;
          }
        case BYTES | STRING =>
          var bytes;
          status, bytes := ReadBytes(maj);
        case ARRAY =>
          var len;
          status, len := ReadUint(maj);
          if status == OK {
            status := SkipMany(len);
          }
        case MAP =>
          var len;
          status, len := ReadUint(maj);
          if status == OK {
            status := SkipMany(2 * len);
          }
        case OTHER =>
          if 20 <= info <= 22 {
            rxPos := rxPos + 1;
          } else if info == 26 {
            if |data| - rxPos < 5 {
              status := ErrEod;
            } else {
              rxPos := rxPos + 5;
            }
          } else if info == 27 {
            if |data| - rxPos < 9 {
              status := ErrEod;
            } else {
              rxPos := rxPos + 9;
            }
          } else {
            status := ErrInvalid;
          }
      }
    }

    method SkipMany(n: nat) returns (status: Status)
      requires Valid()
      modifies this
      ensures Valid() && rxPos >= old(rxPos)
      ensures match SkipItems(data, old(rxPos), n)
              case Err(e) => status == e
              case Ok(q) => status == OK && rxPos == q
      decreases |data| - rxPos, 1
    {
      var len := n;
      status := OK;
      while status == OK && len > 0
        invariant Valid() && rxPos >= old(rxPos)
        invariant if status == OK then SkipItems(data, old(rxPos), n) == SkipItems(data, rxPos, len)
                  else SkipItems(data, old(rxPos), n) == Err(status)
        decreases |data| - rxPos, len, status == OK
      {
        len := len - 1;
        status := SkipItem();
      }
    }
  }

  lemma NumberStep(s: seq<Byte>, n: nat)
    requires n < |s|
    ensures Number(s[..n + 1]) == 256 * Number(s[..n]) + s[n]
  {
    assert s[..n + 1][..n] == s[..n];
  }

  /** The number of the first bytes. */
  lemma NumberOf4(t: seq<Byte>, s: seq<int>)
    requires s == t && |s| >= 4
    ensures Number(t[..1]) == s[0]
    ensures Number(t[..2]) == s[0] * 0x100 + s[1]
    ensures Number(t[..4]) == s[0] * 0x100_0000 + s[1] * 0x1_0000 + s[2] * 0x100 + s[3]
  {
    assert Number(t[..0]) == 0;
    hide Number;
    NumberStep(t, 0);
    NumberStep(t, 1);
    NumberStep(t, 2);
    NumberStep(t, 3);
  }

  lemma NumberOf8(t: seq<Byte>, s: seq<int>)
    requires s == t && |s| == 8
    ensures Number(t) == s[0] * 0x100_0000_0000_0000 + s[1] * 0x1_0000_0000_0000 + s[2] * 0x100_0000_0000
        + s[3] * 0x1_0000_0000 + s[4] * 0x100_0000 + s[5] * 0x1_0000 + s[6] * 0x100 + s[7]
  {
    hide Number;
    assert t == t[..8];
    NumberOf4(t, s);
    var a := Number(t[..4]);
    NumberStep(t, 4);
    assert Number(t[..5]) == 0x100 * a + s[4];
    NumberStep(t, 5);
    assert Number(t[..6]) == 0x1_0000 * a + 0x100 * s[4] + s[5];
    NumberStep(t, 6);
    assert Number(t[..7]) == 0x100_0000 * a + 0x1_0000 * s[4] + 0x100 * s[5] + s[6];
    NumberStep(t, 7);
  }

  /** A big-endian number, byte by byte. */
  lemma NumberByBytes(t: seq<Byte>, s: seq<int>)
    requires s == t
    ensures |s| == 1 ==> Number(t) == s[0]
    ensures |s| == 2 ==> Number(t) == s[0] * 0x100 + s[1]
    ensures |s| == 4 ==> Number(t) == s[0] * 0x100_0000 + s[1] * 0x1_0000 + s[2] * 0x100 + s[3]
    ensures |s| == 8 ==>
      Number(t) == s[0] * 0x100_0000_0000_0000 + s[1] * 0x1_0000_0000_0000 + s[2] * 0x100_0000_0000
        + s[3] * 0x1_0000_0000 + s[4] * 0x100_0000 + s[5] * 0x1_0000 + s[6] * 0x100 + s[7]
  {
    hide Number;
    var u := t + [0, 0, 0, 0];
    if |t| == 8 {
      NumberOf8(t, t);
    } else if |t| <= 4 {
      assert u[..|t|] == t;
      NumberOf4(u, u);
    }
  }

  /** The bytes of a head, one by one. */
  lemma HeadBytes(n: Uint64, maj: Major)
    ensures Head(n, maj) == (
      match Requires(n)
      case 0 => [Code(maj) + n]
      case 1 => [Code(maj) + 24, n]
      case 2 => [Code(maj) + 25, n / 0x100, n % 0x100]
      case 4 => [Code(maj) + 26, n / 0x100_0000, n / 0x1_0000 % 0x100, n / 0x100 % 0x100, n % 0x100]
      case _ =>
        [Code(maj) + 27, n / 0x100_0000_0000_0000, n / 0x1_0000_0000_0000 % 0x100, n / 0x100_0000_0000 % 0x100,
         n / 0x1_0000_0000 % 0x100, n / 0x100_0000 % 0x100, n / 0x1_0000 % 0x100, n / 0x100 % 0x100, n % 0x100])
  {
    hide BigEndian;
    var k := Requires(n);
    if k == 0 || k == 1 || k == 2 {
      BigEndian2(n);
    } else if k == 4 {
      BigEndian4(n);
    } else {
      var m := n / 0x1_0000_0000;
      BigEndian4(n);
      BigEndian4(m);
      BigEndianSplit(n, 4);
      assert m / 0x100 == n / 0x100_0000_0000 && m / 0x1_0000 == n / 0x1_0000_0000_0000;
      assert m / 0x100_0000 == n / 0x100_0000_0000_0000;
    }
  }

  /** The last four bytes of a number. */
  lemma BigEndianSplit(n: nat, k: nat)
    ensures BigEndian(n, k + 4) == BigEndian(n / 0x1_0000_0000, k) + BigEndian(n, 4)
  {
    BigEndian4(n);
    assert n / 0x100 / 0x100 == n / 0x1_0000 && n / 0x1_0000 / 0x100 == n / 0x100_0000;
    assert n / 0x100_0000 / 0x100 == n / 0x1_0000_0000;
    assert BigEndian(n, k + 4) == BigEndian(n / 0x100, k + 3) + [n % 0x100];
    assert BigEndian(n / 0x100, k + 3) == BigEndian(n / 0x1_0000, k + 2) + [n / 0x100 % 0x100];
    assert BigEndian(n / 0x1_0000, k + 2) == BigEndian(n / 0x100_0000, k + 1) + [n / 0x1_0000 % 0x100];
  }

  lemma BigEndian2(n: nat)
    ensures BigEndian(n, 0) == [] && BigEndian(n, 1) == [n % 0x100]
    ensures BigEndian(n, 2) == [n / 0x100 % 0x100, n % 0x100]
  {
    assert BigEndian(n, 2) == BigEndian(n / 256, 1) + [n % 256];
  }

  lemma BigEndian4(n: nat)
    ensures BigEndian(n, 4) == [n / 0x100_0000 % 0x100, n / 0x1_0000 % 0x100, n / 0x100 % 0x100, n % 0x100]
  {
    assert n / 0x100 / 0x100 == n / 0x1_0000 && n / 0x1_0000 / 0x100 == n / 0x100_0000;
    assert BigEndian(n, 4) == BigEndian(n / 256, 3) + [n % 256];
    assert BigEndian(n / 256, 3) == BigEndian(n / 0x1_0000, 2) + [n / 256 % 256];
    assert BigEndian(n / 0x1_0000, 2) == BigEndian(n / 0x100_0000, 1) + [n / 0x1_0000 % 256];
  }
}
