/** The items a topic puts in a Bloom filter, and why the filter never rejects what the string matcher accepts. */
module TopicFilter {
  import opened Options
  import opened Words
  import opened BitVectors
  import opened Topics

  // ---- the items ----

  /** The items of the segments after `tp`, which is at a separator or at the end. `pre` holds the separators
      before `tp`, and `wc` is the position of the first wildcard or -1. */
  ghost function LoopItems(t: CString, seps: set<char>, pub: bool, wc: int, tp: nat, pre: string): set<string>
    requires tp <= |t|
    decreases |t| - tp
  {
    if tp == |t| then {}
    else
      var start := tp + 1;
      var end := SpanEnd(t, start, seps);
      (if pub then {t[..start]} else {})
      + (if SegmentCounts(t, wc, start) then {SegmentItem(t, pre + [t[tp]], start, end)} else {})
      + LoopItems(t, seps, pub, wc, end, pre + [t[tp]])
  }

  /** Segments count when they follow the first wildcard, except for a `+` that is not the last character. */
  predicate SegmentCounts(t: CString, wc: int, start: nat) {
    start > wc && (At(t, start) != INFIX_WILDC || At(t, start + 1) == NUL)
  }

  /** The separators so far, the segment, and the separator after it. */
  ghost function SegmentItem(t: CString, pre: string, start: nat, end: nat): string
    requires start <= end <= |t|
  {
    pre + t[start..end] + (if end < |t| then [t[end]] else [])
  }

  /** All separators of a topic, in order. */
  ghost function AllSeps(t: CString, seps: set<char>, tp: nat, pre: string): string
    requires tp <= |t|
    decreases |t| - tp
  {
    if tp == |t| then pre else AllSeps(t, seps, SpanEnd(t, tp + 1, seps), pre + [t[tp]])
  }

  /** The items that only wildcards match. */
  ghost function FinalItems(f: string, n: nat): set<string>
    requires n <= |f|
  {
    {f[..n] + [FINAL_WILDC]} + (if n == 0 then {} else FinalItems(f, n - 1))
  }

  ghost function WildItems(f: string): set<string> {
    {f + [INFIX_WILDC]} + FinalItems(f, |f|)
  }

  ghost function Items(t: CString, seps: set<char>, kind: TopicType): set<string> {
    var tp := SpanEnd(t, 0, seps);
    match FirstWild(t)
    case None =>
      {t} + (if kind == PubTopic then LoopItems(t, seps, true, -1, tp, "") + WildItems(AllSeps(t, seps, tp, ""))
             else {})
    case Some(wc) => (if wc != 0 then {t[..wc]} else {}) + LoopItems(t, seps, false, wc, tp, "")
  }

  /** The topics that can be added to a filter. */
  predicate Accepted(t: CString, seps: set<char>, kind: TopicType) {
    |t| <= MAX_TOPIC_STRLEN && !IsSep(seps, At(t, 0)) && Check(t, seps, kind)
  }

  // ---- filling a filter ----

  /** The hash is an arbitrary function from items to bit positions. */
  type Hasher = string -> seq<nat>

  ghost predicate Fits(hash: Hasher, len: nat) {
    forall x :: InRange(hash(x), len)
  }

  /** A vector has exactly the bits it had before and those that some inserted item selects. */
  ghost predicate Filled(before: Vec, hash: Hasher, items: set<string>, after: Vec) {
    && |after| == |before|
    && (forall b | 0 <= b < 64 * |before| ::
          TestAt(after, b) <==> TestAt(before, b) || exists x | x in items :: b in hash(x))
  }

  method Insert(bf: BitVector, hash: Hasher, item: string, ghost v: Vec, ghost done: set<string>)
    requires Fits(hash, 64 * bf.bits.Length) && Filled(v, hash, done, bf.Value())
    modifies bf, bf.bits
    ensures bf.Valid() && Filled(v, hash, done + {item}, bf.Value())
  {
    bf.BloomInsert(hash(item));
    assert forall x | x in done + {item} :: x in done || x == item;
    assert item in done + {item};
  }

  method AddTopic(bf: BitVector, hash: Hasher, topic: CString, seps: set<char>, kind: TopicType) returns (ok: bool)
    requires bf.Valid() && Fits(hash, 64 * bf.bits.Length)
    modifies bf, bf.bits
    ensures bf.Valid()
    ensures ok == Accepted(topic, seps, kind)
    ensures (forall c | c in seps :: !IsWild(c)) ==>
      (ok <==> 0 < |topic| <= 2048 && topic[0] !in seps && ValidTopic(topic, seps, kind))
    ensures Filled(old(bf.Value()), hash, if ok then Items(topic, seps, kind) else {}, bf.Value())
  {
    if |topic| > MAX_TOPIC_STRLEN {
      return false;
    }
    if IsSep(seps, At(topic, 0)) {
      return false;
    }
    var valid, wc := CheckWildcarding(topic, seps, kind);
    if !valid {
      return false;
    }
    ghost var v: Vec, done: set<string> := bf.Value(), {};
    var tp := SpanEnd(topic, 0, seps);
    if wc.None? {
      Insert(bf, hash, topic, v, done);
      done := {topic};
      if kind != PubTopic {
        return true;
      }
    } else if wc != Some(0) {
      Insert(bf, hash, topic[..wc.value], v, done);
      done := {topic[..wc.value]};
    }
    var first := if wc.Some? then wc.value else -1;
    done := AddSegments(bf, hash, topic, seps, kind, first, tp, v, done);
    return true;
  }

  /** The loop over the segments after the first one, with its segment buffer. */
  method AddSegments(bf: BitVector, hash: Hasher, topic: CString, seps: set<char>, kind: TopicType, wc: int, tp0: nat,
                     ghost v: Vec, ghost before: set<string>) returns (ghost done: set<string>)
    requires Fits(hash, 64 * bf.bits.Length)
    requires bf.Valid() && Filled(v, hash, before, bf.Value())
    requires 0 < tp0 <= |topic|
    modifies bf, bf.bits
    ensures bf.Valid() && Filled(v, hash, done, bf.Value())
    ensures done == before + LoopItems(topic, seps, kind == PubTopic, wc, tp0, "")
      + (if kind == PubTopic then WildItems(AllSeps(topic, seps, tp0, "")) else {})
  {
    var segment := new char[|topic| + 1](_ => NUL);
    var prefix, tp := 0, tp0;
    done := before;
    ghost var pub := kind == PubTopic;
    ghost var pre := "";
    while tp < |topic|
      invariant prefix < tp <= |topic| && |pre| == prefix
      invariant segment[..prefix] == pre
      invariant bf.Valid() && Filled(v, hash, done, bf.Value())
      invariant before + LoopItems(topic, seps, pub, wc, tp0, "") == done + LoopItems(topic, seps, pub, wc, tp, pre)
      invariant AllSeps(topic, seps, tp0, "") == AllSeps(topic, seps, tp, pre)
      decreases |topic| - tp
    {
      ghost var sep := topic[tp];
      tp, done := AddNext(bf, hash, topic, seps, kind, wc, segment, prefix, tp, pre, v, done);
      pre := pre + [sep];
      prefix := prefix + 1;
    }
    if kind == PubTopic {
      AddWildItems(bf, hash, segment, prefix, pre, v, done);
      done := done + WildItems(pre);
    }
  }

  /** One turn of the loop: the separator at `tp` and the segment after it. */
  method AddNext(bf: BitVector, hash: Hasher, topic: CString, seps: set<char>, kind: TopicType, wc: int,
                 segment: array<char>, prefix: nat, tp: nat, ghost pre: string, ghost v: Vec, ghost before: set<string>)
    returns (end: nat, ghost done: set<string>)
    requires Fits(hash, 64 * bf.bits.Length)
    requires bf.Valid() && Filled(v, hash, before, bf.Value())
    requires prefix < tp < |topic| && segment.Length == |topic| + 1
    requires segment[..prefix] == pre
    modifies bf, bf.bits, segment
    ensures bf.Valid() && Filled(v, hash, done, bf.Value())
    ensures end == SpanEnd(topic, tp + 1, seps)
    ensures done + LoopItems(topic, seps, kind == PubTopic, wc, end, pre + [topic[tp]])
      == before + LoopItems(topic, seps, kind == PubTopic, wc, tp, pre)
    ensures segment[..prefix + 1] == pre + [topic[tp]]
  {
    done := before;
    segment[prefix] := topic[tp];
    assert segment[..prefix + 1] == pre + [topic[tp]];
    var start := tp + 1;
    if kind == PubTopic {
      Insert(bf, hash, topic[..start], v, done);
      done := done + {topic[..start]};
    }
    end := SpanEnd(topic, start, seps);
    if SegmentCounts(topic, wc, start) {
      AddSegment(bf, hash, topic, segment, prefix + 1, start, end, pre + [topic[tp]], v, done);
      done := done + {SegmentItem(topic, pre + [topic[tp]], start, end)};
    }
  }

  /** Copies one segment behind the separators in the buffer and inserts the item. */
  method AddSegment(bf: BitVector, hash: Hasher, topic: CString, segment: array<char>, prefix: nat, tp: nat, end: nat,
                    ghost pre: string, ghost v: Vec, ghost done: set<string>)
    requires Fits(hash, 64 * bf.bits.Length)
    requires Filled(v, hash, done, bf.Value())
    requires prefix <= tp <= end <= |topic| && segment.Length == |topic| + 1
    requires segment[..prefix] == pre
    modifies bf, bf.bits, segment
    ensures bf.Valid() && Filled(v, hash, done + {SegmentItem(topic, pre, tp, end)}, bf.Value())
    ensures segment[..prefix] == pre
  {
    var len := end - tp;
    var sz := prefix + len;
    for k := 0 to len
      modifies segment
      invariant segment[..prefix] == pre
      invariant segment[prefix..prefix + k] == topic[tp..tp + k]
    {
      segment[prefix + k] := topic[tp + k];
    }
    segment[sz] := At(topic, end);
    if end < |topic| {
      sz := sz + 1;
    }
    assert segment[..sz] == segment[..prefix] + segment[prefix..prefix + len] + segment[prefix + len..sz];
    Insert(bf, hash, segment[..sz], v, done);
  }

  /** The items of the wildcards, made by rewriting the buffer from its end to its start. */
  method AddWildItems(bf: BitVector, hash: Hasher, segment: array<char>, prefix: nat, ghost pre: string,
                      ghost v: Vec, ghost done: set<string>)
    requires Fits(hash, 64 * bf.bits.Length)
    requires Filled(v, hash, done, bf.Value())
    requires prefix < segment.Length && segment[..prefix] == pre
    modifies bf, bf.bits, segment
    ensures bf.Valid() && Filled(v, hash, done + WildItems(pre), bf.Value())
  {
    segment[prefix] := INFIX_WILDC;
    assert segment[..prefix + 1] == pre + [INFIX_WILDC];
    Insert(bf, hash, segment[..prefix + 1], v, done);
    ghost var all := done + {pre + [INFIX_WILDC]};
    var n := prefix as int;
    while n >= 0
      invariant -1 <= n <= prefix
      invariant n >= 0 ==> segment[..n] == pre[..n]
      invariant bf.Valid() && Filled(v, hash, all, bf.Value())
      invariant done + WildItems(pre) == all + (if n >= 0 then FinalItems(pre, n) else {})
    {
      segment[n] := FINAL_WILDC;
      assert segment[..n + 1] == pre[..n] + [FINAL_WILDC];
      Insert(bf, hash, segment[..n + 1], v, all);
      all := all + {pre[..n] + [FINAL_WILDC]};
      n := n - 1;
    }
  }
}
