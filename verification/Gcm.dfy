/** Feeding a list of buffers to a block cipher, in place, as if they were one. */
module Gcm {
  import Cbor

  type Byte = Cbor.Byte

  const BLOCK: nat := 16

  /** What a stream cipher makes of bytes that start at position `p` of the stream. */
  function Encrypted(enc: (nat, Byte) -> Byte, p: nat, s: seq<Byte>): (r: seq<Byte>)
    ensures |r| == |s|
  {
    seq(|s|, i requires 0 <= i < |s| => enc(p + i, s[i]))
  }

  /** Every byte is encrypted by itself, at its own position. */
  lemma EncryptedAt(enc: (nat, Byte) -> Byte, p: nat, s: seq<Byte>)
    ensures |Encrypted(enc, p, s)| == |s| && forall i | 0 <= i < |s| :: Encrypted(enc, p, s)[i] == enc(p + i, s[i])
  {
  }

  lemma EncryptedAppend(enc: (nat, Byte) -> Byte, p: nat, a: seq<Byte>, b: seq<Byte>)
    ensures Encrypted(enc, p, a + b) == Encrypted(enc, p, a) + Encrypted(enc, p + |a|, b)
  {
  }

  /** A cipher that takes its input in pieces, of which all but the last consist of whole blocks. */
  class Cipher {
    const enc: (nat, Byte) -> Byte
    var position: nat
    /** All that the cipher has been fed. */
    ghost var input: seq<Byte>

    ghost predicate Valid()
      reads this
    {
      position == |input|
    }

    constructor (enc: (nat, Byte) -> Byte)
      ensures Valid() && this.enc == enc && input == []
    {
      this.enc, position := enc, 0;
      input := [];
    }

    method Update(piece: seq<Byte>) returns (out: seq<Byte>)
      requires Valid() && (piece == [] || position % BLOCK == 0)
      modifies this
      ensures Valid() && input == old(input) + piece && out == Encrypted(enc, old(position), piece)
    {
      out := Encrypted(enc, position, piece);
      position := position + |piece|;
      input := input + piece;
    }
  }

  // ---- a list of buffers as one sequence of bytes ----

  type Buffers = bufs: seq<array<Byte>> | forall i, j | 0 <= i < j < |bufs| :: bufs[i] != bufs[j]

  /** The bytes of the buffers before index `b`. */
  ghost function Before(bufs: Buffers, b: nat): seq<Byte>
    requires b <= |bufs|
    reads bufs[..b]
  {
    if b == 0 then [] else Before(bufs, b - 1) + bufs[b - 1][..]
  }

  /** The bytes of the buffers from index `b`. */
  ghost function After(bufs: Buffers, b: nat): seq<Byte>
    requires b <= |bufs|
    reads bufs[b..]
    decreases |bufs| - b
  {
    if b == |bufs| then [] else bufs[b][..] + After(bufs, b + 1)
  }

  /** A place in a list of buffers. */
  predicate Place(bufs: Buffers, b: nat, pos: nat) {
    b <= |bufs| && (b < |bufs| ==> pos <= bufs[b].Length)
  }

  /** The bytes before a place. */
  ghost function Front(bufs: Buffers, b: nat, pos: nat): seq<Byte>
    requires Place(bufs, b, pos)
    reads bufs
  {
    if b == |bufs| then Before(bufs, b) else Before(bufs, b) + bufs[b][..pos]
  }

  /** The bytes from a place on. */
  ghost function Rest(bufs: Buffers, b: nat, pos: nat): seq<Byte>
    requires Place(bufs, b, pos)
    reads bufs
  {
    if b == |bufs| then [] else bufs[b][pos..] + After(bufs, b + 1)
  }

  /** The end of a buffer is the start of the next one. */
  lemma NextBuffer(bufs: Buffers, b: nat)
    requires b < |bufs|
    ensures Front(bufs, b, bufs[b].Length) == Front(bufs, b + 1, 0)
    ensures Rest(bufs, b, bufs[b].Length) == Rest(bufs, b + 1, 0)
  {
    assert bufs[b][..bufs[b].Length] == bufs[b][..];
    if b + 1 < |bufs| {
      assert bufs[b + 1][0..] == bufs[b + 1][..];
      assert Before(bufs, b + 1) + bufs[b + 1][..0] == Before(bufs, b + 1);
    }
  }

  lemma {:induction false} Whole(bufs: Buffers, b: nat)
    requires b <= |bufs|
    ensures Before(bufs, b) + After(bufs, b) == After(bufs, 0)
  {
    if b > 0 {
      Whole(bufs, b - 1);
      assert Before(bufs, b) + After(bufs, b) == Before(bufs, b - 1) + (bufs[b - 1][..] + After(bufs, b));
    }
  }

  /** The contents of each buffer are a part of the whole, at the place that the lengths of the others give. */
  lemma PartOfWhole(bufs: Buffers, b: nat)
    requires b < |bufs|
    ensures var start := |Before(bufs, b)|;
      start + bufs[b].Length <= |After(bufs, 0)| && After(bufs, 0)[start..start + bufs[b].Length] == bufs[b][..]
  {
    Whole(bufs, b);
    assert After(bufs, b) == bufs[b][..] + After(bufs, b + 1);
  }

  method Overwrite(a: array<Byte>, pos: nat, part: seq<Byte>)
    requires pos + |part| <= a.Length
    modifies a
    ensures a[..pos + |part|] == old(a[..pos]) + part
    ensures a[pos + |part|..] == old(a[pos + |part|..])
  {
    for i := 0 to |part|
      invariant a[..pos + i] == old(a[..pos]) + part[..i]
      invariant a[pos + i..] == old(a[pos + i..])
    {
      a[pos + i] := part[i];
    }
    assert part[..|part|] == part;
  }

  lemma Parts(bufs: Buffers, b: nat, pos: nat)
    requires b < |bufs| && pos <= bufs[b].Length
    ensures Front(bufs, b, pos) == Before(bufs, b) + bufs[b][..pos]
    ensures Rest(bufs, b, pos) == bufs[b][pos..] + After(bufs, b + 1)
  {
    hide After, Before;
  }

  /** Writes bytes into one buffer. */
  method Put(bufs: Buffers, b: nat, pos: nat, part: seq<Byte>)
    requires b < |bufs| && pos + |part| <= bufs[b].Length
    modifies bufs[b]
    ensures Front(bufs, b, pos + |part|) == old(Front(bufs, b, pos)) + part
    ensures Rest(bufs, b, pos + |part|) == old(Rest(bufs, b, pos))[|part|..]
  {
    hide After, Before, Rest, Front;
    ghost var a, n := bufs[b], |part|;
    ghost var f, x, z := Before(bufs, b), a[..pos], After(bufs, b + 1);
    Parts(bufs, b, pos);
    RestStarts(bufs, b, pos, n);
    Parts(bufs, b, pos + n);
    assert a !in bufs[..b] && a !in bufs[b + 1..];
    Overwrite(bufs[b], pos, part);
    assert Before(bufs, b) == f && After(bufs, b + 1) == z;
    Parts(bufs, b, pos + n);
    Joined(f, x, part);
  }

  /** The next bytes of a buffer are the next bytes of the list. */
  lemma RestStarts(bufs: Buffers, b: nat, pos: nat, n: nat)
    requires b < |bufs| && pos + n <= bufs[b].Length
    ensures bufs[b][pos..pos + n] + Rest(bufs, b, pos + n) == Rest(bufs, b, pos)
  {
    hide After, Before;
    var x, y, z := bufs[b][pos..pos + n], bufs[b][pos + n..], After(bufs, b + 1);
    assert bufs[b][pos..] == x + y;
    Joined(x, y, z);
  }

  /** Copies from one buffer what there is room for. */
  method BorrowPart(bufs: Buffers, buf: nat, from: nat, part: seq<Byte>) returns (dst: seq<Byte>, src: nat)
    requires buf < |bufs| && from <= bufs[buf].Length && |part| <= BLOCK
    ensures from <= src <= bufs[buf].Length && |dst| <= BLOCK && (|dst| == BLOCK || src == bufs[buf].Length)
    ensures dst + Rest(bufs, buf, src) == part + Rest(bufs, buf, from)
  {
    hide Rest;
    dst, src := part, from;
    while |dst| < BLOCK && src < bufs[buf].Length
      invariant from <= src <= bufs[buf].Length && |dst| <= BLOCK
      invariant dst + Rest(bufs, buf, src) == part + Rest(bufs, buf, from)
      decreases bufs[buf].Length - src
    {
      var n := bufs[buf].Length - src;
      if n > BLOCK - |dst| {
        n := BLOCK - |dst|;
      }
      RestStarts(bufs, buf, src, n);
      Joined(dst, bufs[buf][src..src + n], Rest(bufs, buf, src + n));
      dst := dst + bufs[buf][src..src + n];
      src := src + n;
    }
  }

  lemma Joined(x: seq<Byte>, y: seq<Byte>, z: seq<Byte>)
    ensures (x + y) + z == x + (y + z)
  {
  }

  /** Copies up to one block from a place on, across buffers. */
  method BorrowBytes(bufs: Buffers, start: nat, from: nat) returns (dst: seq<Byte>)
    requires start < |bufs| && from <= bufs[start].Length
    ensures |dst| <= BLOCK && dst <= Rest(bufs, start, from)
    ensures |dst| < BLOCK ==> dst == Rest(bufs, start, from)
  {
    hide Rest, Front;
    var buf, src := start, from;
    dst := [];
    while true
      invariant buf < |bufs| && 0 <= src <= bufs[buf].Length && |dst| <= BLOCK
      invariant dst + Rest(bufs, buf, src) == Rest(bufs, start, from)
      decreases |bufs| - buf
    {
      dst, src := BorrowPart(bufs, buf, src, dst);
      if |dst| == BLOCK {
        break;
      }
      NextBuffer(bufs, buf);
      buf := buf + 1;
      src := 0;
      if buf == |bufs| {
        AtEnd(bufs);
        break;
      }
    }
  }

  lemma AtEnd(bufs: Buffers)
    ensures Rest(bufs, |bufs|, 0) == [] && Front(bufs, |bufs|, 0) == After(bufs, 0)
  {
    Whole(bufs, |bufs|);
  }

  /** Copies bytes back to where they were borrowed, and moves the place behind them. */
  method ReturnBytes(bufs: Buffers, start: nat, to: nat, part: seq<Byte>) returns (buf: nat, dst: nat)
    requires start < |bufs| && to <= bufs[start].Length && |part| <= |Rest(bufs, start, to)|
    modifies bufs
    ensures Place(bufs, buf, dst)
    ensures Front(bufs, buf, dst) == old(Front(bufs, start, to)) + part
    ensures Rest(bufs, buf, dst) == old(Rest(bufs, start, to))[|part|..]
    ensures buf > start || (buf == start && dst >= to && (dst == to ==> part == []))
  {
    hide Rest, Front;
    ghost var front, rest := Front(bufs, start, to), Rest(bufs, start, to);
    buf, dst := start, to;
    var src := part;
    while true
      invariant start <= buf < |bufs| && 0 <= dst <= bufs[buf].Length && |src| <= |part| <= |rest|
      invariant buf == start ==> dst >= to && (dst == to ==> src == part)
      invariant Front(bufs, buf, dst) + src == front + part
      invariant Rest(bufs, buf, dst) == rest[|part| - |src|..]
      decreases |bufs| - buf
    {
      dst, src := Fill(bufs, buf, dst, src);
      if dst == bufs[buf].Length {
        NextBuffer(bufs, buf);
        buf := buf + 1;
        dst := 0;
      }
      if src == [] || buf == |bufs| {
        break;
      }
    }
    if buf == |bufs| {
      AtEnd(bufs);
    }
  }

  /** Copies as many bytes as fit into one buffer. */
  method Fill(bufs: Buffers, buf: nat, to: nat, part: seq<Byte>) returns (dst: nat, src: seq<Byte>)
    requires buf < |bufs| && to <= bufs[buf].Length
    modifies bufs[buf]
    ensures to <= dst <= bufs[buf].Length && |src| <= |part| && dst - to == |part| - |src|
    ensures src == [] || dst == bufs[buf].Length
    ensures Front(bufs, buf, dst) + src == old(Front(bufs, buf, to)) + part
    ensures Rest(bufs, buf, dst) == old(Rest(bufs, buf, to))[|part| - |src|..]
  {
    hide Rest, Front;
    dst, src := to, part;
    while src != [] && dst < bufs[buf].Length
      invariant to <= dst <= bufs[buf].Length && |src| <= |part| && dst - to == |part| - |src|
      invariant Front(bufs, buf, dst) + src == old(Front(bufs, buf, to)) + part
      invariant |part| - |src| <= |old(Rest(bufs, buf, to))|
      invariant Rest(bufs, buf, dst) == old(Rest(bufs, buf, to))[|part| - |src|..]
      decreases |src|
    {
      var n := bufs[buf].Length - dst;
      if n > |src| {
        n := |src|;
      }
      assert src == src[..n] + src[n..];
      RestStarts(bufs, buf, dst, n);
      Put(bufs, buf, dst, src[..n]);
      dst := dst + n;
      src := src[n..];
    }
  }

  /** Feeding the next piece. */
  lemma Advance(enc: (nat, Byte) -> Byte, whole: seq<Byte>, p: nat, piece: seq<Byte>)
    requires p <= |whole| && piece <= whole[p..]
    ensures p + |piece| <= |whole| && whole[..p] + piece == whole[..p + |piece|]
    ensures Encrypted(enc, 0, whole[..p]) + Encrypted(enc, p, piece) == Encrypted(enc, 0, whole[..p + |piece|])
    ensures whole[p..][|piece|..] == whole[p + |piece|..]
  {
    assert piece == whole[p..][..|piece|];
    EncryptedAppend(enc, 0, whole[..p], piece);
  }

  /** What has been fed is encrypted, and the rest is as it was. */
  ghost predicate Progress(cipher: Cipher, bufs: Buffers, buf: nat, pos: nat, whole: seq<Byte>)
    reads cipher, bufs
  {
    && Place(bufs, buf, pos) && cipher.Valid() && cipher.position <= |whole|
    && cipher.input == whole[..cipher.position]
    && Front(bufs, buf, pos) == Encrypted(cipher.enc, 0, whole[..cipher.position])
    && Rest(bufs, buf, pos) == whole[cipher.position..]
  }

  /** Only whole blocks have been fed, unless all has been. */
  predicate InStep(fed: nat, total: nat) {
    fed % BLOCK == 0 || fed == total
  }

  /** Encrypts the whole blocks of one buffer. */
  method EncryptBlocks(cipher: Cipher, bufs: Buffers, buf: nat, from: nat, ghost whole: seq<Byte>) returns (pos: nat)
    requires buf < |bufs| && Progress(cipher, bufs, buf, from, whole)
    requires InStep(cipher.position, |whole|)
    modifies cipher, bufs[buf]
    ensures Progress(cipher, bufs, buf, pos, whole) && from <= pos <= bufs[buf].Length
    ensures InStep(cipher.position, |whole|)
  {
    hide Rest, Front;
    var len := (bufs[buf].Length - from) / BLOCK * BLOCK;
    var piece := bufs[buf][from..from + len];
    RestStarts(bufs, buf, from, len);
    Advance(cipher.enc, whole, cipher.position, piece);
    var out := cipher.Update(piece);
    Put(bufs, buf, from, out);
    pos := from + len;
  }

  /** Encrypts one block, or the last bytes, across buffers. */
  method EncryptAcross(cipher: Cipher, bufs: Buffers, start: nat, from: nat, ghost whole: seq<Byte>)
    returns (buf: nat, pos: nat)
    requires start < |bufs| && from < bufs[start].Length && Progress(cipher, bufs, start, from, whole)
    requires InStep(cipher.position, |whole|)
    modifies cipher, bufs
    ensures Progress(cipher, bufs, buf, pos, whole)
    ensures InStep(cipher.position, |whole|)
    ensures buf > start || (buf == start && pos > from)
  {
    hide Rest, Front;
    NotAtEnd(bufs, start, from);
    var tmp := BorrowBytes(bufs, start, from);
    Advance(cipher.enc, whole, cipher.position, tmp);
    tmp := cipher.Update(tmp);
    buf, pos := ReturnBytes(bufs, start, from, tmp);
  }

  lemma NotAtEnd(bufs: Buffers, b: nat, pos: nat)
    requires b < |bufs| && pos < bufs[b].Length
    ensures Rest(bufs, b, pos) != []
  {
  }

  /** Encrypts the contents of all buffers in place, as if they were contiguous. */
  method Encrypt(cipher: Cipher, bufs: Buffers)
    requires cipher.Valid() && cipher.input == []
    modifies cipher, bufs
    ensures cipher.input == old(After(bufs, 0))
    ensures After(bufs, 0) == Encrypted(cipher.enc, 0, old(After(bufs, 0)))
  {
    hide *;
    ghost var whole := After(bufs, 0);
    var buf, pos := 0, 0;
    ProgressStarts(cipher, bufs);
    while buf < |bufs|
      invariant buf <= |bufs| && pos >= 0 && (buf < |bufs| ==> pos <= bufs[buf].Length)
      invariant Progress(cipher, bufs, buf, pos, whole)
      invariant InStep(cipher.position, |whole|)
      decreases |bufs| - buf, if buf < |bufs| then bufs[buf].Length - pos else 0
    {
      pos := EncryptBlocks(cipher, bufs, buf, pos, whole);
      if pos < bufs[buf].Length {
        buf, pos := EncryptAcross(cipher, bufs, buf, pos, whole);
        PlaceOf(cipher, bufs, buf, pos, whole);
      } else {
        ProgressNext(cipher, bufs, buf, whole);
        buf := buf + 1;
        pos := 0;
      }
    }
    ProgressEnds(cipher, bufs, pos, whole);
  }

  lemma StartOf(bufs: Buffers)
    ensures Front(bufs, 0, 0) == [] && Rest(bufs, 0, 0) == After(bufs, 0)
  {
    if bufs != [] {
      assert bufs[0][0..] == bufs[0][..];
    }
  }

  lemma ProgressStarts(cipher: Cipher, bufs: Buffers)
    requires cipher.Valid() && cipher.input == []
    ensures Progress(cipher, bufs, 0, 0, After(bufs, 0)) && InStep(cipher.position, |After(bufs, 0)|)
  {
    hide Rest, Front;
    StartOf(bufs);
  }

  lemma PlaceOf(cipher: Cipher, bufs: Buffers, buf: nat, pos: nat, whole: seq<Byte>)
    requires Progress(cipher, bufs, buf, pos, whole)
    ensures buf <= |bufs| && (buf < |bufs| ==> pos <= bufs[buf].Length)
  {
  }

  lemma ProgressNext(cipher: Cipher, bufs: Buffers, buf: nat, whole: seq<Byte>)
    requires buf < |bufs| && Progress(cipher, bufs, buf, bufs[buf].Length, whole)
    ensures Progress(cipher, bufs, buf + 1, 0, whole)
  {
    hide Rest, Front;
    NextBuffer(bufs, buf);
  }

  lemma ProgressEnds(cipher: Cipher, bufs: Buffers, pos: nat, whole: seq<Byte>)
    requires Progress(cipher, bufs, |bufs|, pos, whole)
    ensures cipher.input == whole && After(bufs, 0) == Encrypted(cipher.enc, 0, whole)
  {
    Whole(bufs, |bufs|);
    assert whole[..|whole|] == whole;
  }
}
