/** Topics as lists of segments: what matching means, and which items a topic puts in a filter, without following the loops. */
module TopicSegments {
  import opened Options
  import opened Topics
  import opened TopicFilter

  /** A segment, where it starts, and the separator after it, if there is one. */
  datatype Segment = Segment(start: nat, text: string, sep: string)

  /** The segments from `i` on. */
  ghost function Split(t: CString, seps: set<char>, i: nat): (r: seq<Segment>)
    requires i <= |t|
    ensures |r| > 0
    decreases |t| - i
  {
    var e := SpanEnd(t, i, seps);
    if e == |t| then [Segment(i, t[i..], "")] else [Segment(i, t[i..e], [t[e]])] + Split(t, seps, e + 1)
  }

  // ---- matching ----

  /** Segment `k` of a publication matches that of a subscription, and so does the separator. */
  ghost predicate SameSegment(p: seq<Segment>, s: seq<Segment>, k: nat)
    requires k < |p| && k < |s|
  {
    && p[k].sep == s[k].sep
    && (if s[k].text == [INFIX_WILDC] then (k == |s| - 1 ==> p[k].text != "") else p[k].text == s[k].text)
  }

  /** A final `#` matches the rest of a publication whose next segment is not empty; otherwise there are equally many
      segments, and all of them match. */
  ghost predicate SegmentsMatch(p: seq<Segment>, s: seq<Segment>)
    requires |s| > 0
  {
    var n := |s| - 1;
    if s[n].text == [FINAL_WILDC] then
      |p| > n && p[n].text != "" && forall k | 0 <= k < n :: SameSegment(p, s, k)
    else
      |p| == |s| && forall k | 0 <= k <= n :: SameSegment(p, s, k)
  }

  lemma SplitEnds(t: CString, seps: set<char>, i: nat)
    requires i <= |t|
    ensures var r := Split(t, seps, i);
      && (r[0].sep == "" <==> SpanEnd(t, i, seps) == |t|) && (r[0].sep == "" <==> |r| == 1)
      && r[0].start == i && r[0].text == t[i..SpanEnd(t, i, seps)]
      && (r[0].sep != "" ==> r[0].sep == [t[SpanEnd(t, i, seps)]] && r[1..] == Split(t, seps, SpanEnd(t, i, seps) + 1))
  {
  }

  lemma Shifted(p: seq<Segment>, s: seq<Segment>)
    requires |p| > 1 && |s| > 1
    ensures SegmentsMatch(p, s) <==> SameSegment(p, s, 0) && SegmentsMatch(p[1..], s[1..])
  {
    var n := |s| - 1;
    if SameSegment(p, s, 0) && SegmentsMatch(p[1..], s[1..]) {
      forall k | 0 < k < |s| && k < |p| && SameSegment(p[1..], s[1..], k - 1)
        ensures SameSegment(p, s, k)
      {
      }
      assert forall k | 0 < k < |s| && k < |p| :: SameSegment(p[1..], s[1..], k - 1) ==> SameSegment(p, s, k);
    }
    if SegmentsMatch(p, s) {
      assert forall k | 0 <= k < |s| - 1 && k < |p| - 1 :: SameSegment(p, s, k + 1) ==> SameSegment(p[1..], s[1..], k);
    }
  }

  lemma OneSegment(p: seq<Segment>, s: seq<Segment>)
    requires |p| > 0 && |s| > 0
    ensures |s| == 1 ==> (SegmentsMatch(p, s) <==>
      if s[0].text == [FINAL_WILDC] then p[0].text != "" else |p| == 1 && SameSegment(p, s, 0))
    ensures |p| == 1 < |s| ==> !SegmentsMatch(p, s)
  {
  }

  lemma SameEnd(p: CString, s: CString, i: nat, j: nat)
    requires i <= |p| && j <= |s|
    ensures At(p, i) == At(s, j) <==> if j == |s| then i == |p| else i < |p| && p[i] == s[j]
  {
  }

  /** What has to hold of the first segments and the separators after them, if the rest matches or not. */
  ghost predicate HeadMatches(x: string, y: string, last: bool, sameSep: bool, rest: bool) {
    if y == [FINAL_WILDC] && last then x != ""
    else (if y == [INFIX_WILDC] then (last ==> x != "") else x == y) && sameSep && (last || rest)
  }

  lemma SegMatchHead(p: CString, s: CString, seps: set<char>, i: nat, j: nat)
    requires i <= |p| && j <= |s|
    ensures var (pe, se) := (SpanEnd(p, i, seps), SpanEnd(s, j, seps));
      SegMatch(p, s, seps, i, j) == HeadMatches(p[i..pe], s[j..se], se == |s|, At(p, pe) == At(s, se),
        se < |s| && pe < |p| && SegMatch(p, s, seps, pe + 1, se + 1))
  {
    SameEnd(p, s, SpanEnd(p, i, seps), SpanEnd(s, j, seps));
    hide SpanEnd, At;
  }

  lemma SegmentsHead(p: seq<Segment>, s: seq<Segment>)
    requires |p| > 0 && |s| > 0 && (p[0].sep == "" <==> |p| == 1) && (s[0].sep == "" <==> |s| == 1)
    ensures SegmentsMatch(p, s) == HeadMatches(p[0].text, s[0].text, |s| == 1, p[0].sep == s[0].sep,
      |s| > 1 && |p| > 1 && SegmentsMatch(p[1..], s[1..]))
  {
    OneSegment(p, s);
    if |s| > 1 && |p| > 1 {
      Shifted(p, s);
    }
    hide SegmentsMatch;
  }

  /** The relation that the matcher decides, in terms of segments. */
  lemma {:induction false} SegMatchMeans(p: CString, s: CString, seps: set<char>, i: nat, j: nat)
    requires i <= |p| && j <= |s|
    ensures SegMatch(p, s, seps, i, j) <==> SegmentsMatch(Split(p, seps, i), Split(s, seps, j))
    decreases |s| - j
  {
    hide Split, SegmentsMatch, SegMatch, SpanEnd, At, HeadMatches;
    var (pe, se) := (SpanEnd(p, i, seps), SpanEnd(s, j, seps));
    SplitEnds(p, seps, i);
    SplitEnds(s, seps, j);
    SameEnd(p, s, pe, se);
    SegMatchHead(p, s, seps, i, j);
    SegmentsHead(Split(p, seps, i), Split(s, seps, j));
    if se < |s| && pe < |p| {
      SegMatchMeans(p, s, seps, pe + 1, se + 1);
    }
  }

  // ---- items ----

  /** The separators after the first `n` segments. */
  ghost function SepsTo(r: seq<Segment>, n: nat): string
    requires n <= |r|
  {
    if n == 0 then "" else SepsTo(r, n - 1) + r[n - 1].sep
  }

  lemma {:induction false} SepsShifted(r: seq<Segment>, n: nat)
    requires n < |r|
    ensures SepsTo(r, n + 1) == r[0].sep + SepsTo(r[1..], n)
  {
    if n > 0 {
      SepsShifted(r, n - 1);
      assert r[n] == r[1..][n - 1];
    }
  }

  /** The item of segment `k`: the separators up to it, the segment, and the separator after it. */
  ghost function ItemOf(r: seq<Segment>, k: nat): string
    requires k < |r|
  {
    SepsTo(r, k) + r[k].text + r[k].sep
  }

  /** A segment counts if it starts after the first wildcard, and is not a `+` with something after it. */
  ghost predicate Counts(t: CString, wc: int, r: Segment) {
    r.start > wc && (At(t, r.start) != INFIX_WILDC || r.start + 1 >= |t|)
  }

  ghost predicate IsLoopItem(t: CString, pub: bool, wc: int, pre: string, r: seq<Segment>, k: nat, x: string)
    requires k < |r|
  {
    (pub && r[k].start <= |t| && x == t[..r[k].start]) || (Counts(t, wc, r[k]) && x == pre + ItemOf(r, k))
  }

  lemma CountsMeans(t: CString, wc: int, start: nat, text: string, sep: string)
    requires start <= |t|
    ensures SegmentCounts(t, wc, start) <==> Counts(t, wc, Segment(start, text, sep))
  {
    assert forall k | 0 <= k < |t| :: t[k] != NUL;
  }

  ghost predicate IsSomeItem(t: CString, pub: bool, wc: int, pre: string, r: seq<Segment>, x: string) {
    exists k | 0 <= k < |r| :: IsLoopItem(t, pub, wc, pre, r, k, x)
  }

  lemma SomeItemShifted(t: CString, pub: bool, wc: int, pre: string, r: seq<Segment>, x: string)
    requires |r| > 0
    ensures IsSomeItem(t, pub, wc, pre + r[0].sep, r[1..], x)
      <==> exists k | 0 < k < |r| :: IsLoopItem(t, pub, wc, pre, r, k, x)
  {
    hide IsLoopItem;
    if k :| 0 <= k < |r| - 1 && IsLoopItem(t, pub, wc, pre + r[0].sep, r[1..], k, x) {
      NextItem(t, pub, wc, pre, r, k, x);
    }
    if k :| 0 < k < |r| && IsLoopItem(t, pub, wc, pre, r, k, x) {
      NextItem(t, pub, wc, pre, r, k - 1, x);
    }
  }

  /** The items that the loop inserts are those of the segments that follow. */
  lemma {:induction false} LoopItemsAre(t: CString, seps: set<char>, pub: bool, wc: int, tp: nat, pre: string, x: string)
    requires tp < |t|
    ensures x in LoopItems(t, seps, pub, wc, tp, pre)
      <==> IsSomeItem(t, pub, wc, pre + [t[tp]], Split(t, seps, tp + 1), x)
    decreases |t| - tp
  {
    var (r, pre', e) := (Split(t, seps, tp + 1), pre + [t[tp]], SpanEnd(t, tp + 1, seps));
    SplitEnds(t, seps, tp + 1);
    FirstItem(t, seps, pub, wc, tp, pre, x);
    SomeItemShifted(t, pub, wc, pre', r, x);
    hide Split, IsLoopItem, LoopItems;
    if e < |t| {
      LoopItemsAre(t, seps, pub, wc, e, pre', x);
    }
  }

  /** The first item, and the others. */
  lemma FirstItem(t: CString, seps: set<char>, pub: bool, wc: int, tp: nat, pre: string, x: string)
    requires tp < |t|
    ensures var (r, e) := (Split(t, seps, tp + 1), SpanEnd(t, tp + 1, seps));
      x in LoopItems(t, seps, pub, wc, tp, pre)
      <==> (IsLoopItem(t, pub, wc, pre + [t[tp]], r, 0, x)
            || (e < |t| && x in LoopItems(t, seps, pub, wc, e, pre + [t[tp]])))
  {
    var (r, pre', e) := (Split(t, seps, tp + 1), pre + [t[tp]], SpanEnd(t, tp + 1, seps));
    SplitEnds(t, seps, tp + 1);
    CountsMeans(t, wc, tp + 1, r[0].text, r[0].sep);
    hide Split, SegmentCounts, Counts;
    assert ItemOf(r, 0) == r[0].text + r[0].sep;
    assert pre' + (r[0].text + r[0].sep) == SegmentItem(t, pre', tp + 1, e);
    assert r[0] == Segment(tp + 1, r[0].text, r[0].sep);
  }

  lemma NextItem(t: CString, pub: bool, wc: int, pre: string, r: seq<Segment>, k: nat, x: string)
    requires k + 1 < |r|
    ensures IsLoopItem(t, pub, wc, pre, r, k + 1, x) <==> IsLoopItem(t, pub, wc, pre + r[0].sep, r[1..], k, x)
  {
    SepsShifted(r, k);
    assert r[1..][k] == r[k + 1];
    assert pre + ItemOf(r, k + 1) == (pre + r[0].sep) + ItemOf(r[1..], k);
  }

  lemma {:induction false} AllSepsAre(t: CString, seps: set<char>, tp: nat, pre: string)
    requires tp <= |t| && (tp < |t| ==> t[tp] in seps)
    ensures var r := Split(t, seps, tp);
      AllSeps(t, seps, tp, pre) == pre + SepsTo(r, |r|)
    decreases |t| - tp
  {
    hide Split, SpanEnd, SepsTo;
    var r := Split(t, seps, tp);
    SplitEnds(t, seps, tp);
    SpanEndUnique(t, tp, seps, tp);
    SepsShifted(r, |r| - 1);
    if tp < |t| {
      var (e, pre') := (SpanEnd(t, tp + 1, seps), pre + [t[tp]]);
      var rest := SepsTo(Split(t, seps, tp + 1), |r| - 1);
      SkipSegment(t, seps, tp + 1);
      AllSepsAre(t, seps, e, pre');
      assert pre + ([t[tp]] + rest) == pre' + rest;
    } else {
      NoSeps(r[1..]);
    }
  }

  lemma NoSeps(r: seq<Segment>)
    ensures SepsTo(r, 0) == ""
  {
  }

  /** The separators do not depend on the first segment. */
  lemma SkipSegment(t: CString, seps: set<char>, i: nat)
    requires i <= |t|
    ensures var (r, q) := (Split(t, seps, i), Split(t, seps, SpanEnd(t, i, seps)));
      |r| == |q| && SepsTo(r, |r|) == SepsTo(q, |q|)
  {
    var e := SpanEnd(t, i, seps);
    SplitEnds(t, seps, i);
    SplitEnds(t, seps, e);
    SpanEndUnique(t, e, seps, e);
    var (r, q) := (Split(t, seps, i), Split(t, seps, e));
    hide Split;
    SepsShifted(r, |r| - 1);
    SepsShifted(q, |q| - 1);
  }

  lemma {:induction false} FinalItemsAre(f: string, n: nat, x: string)
    requires n <= |f|
    ensures x in FinalItems(f, n) <==> exists k | 0 <= k <= n :: x == f[..k] + [FINAL_WILDC]
  {
    if n > 0 {
      FinalItemsAre(f, n - 1, x);
    }
  }

  /** Where a segment starts, or what its item is. */
  ghost predicate IsSegmentItem(t: CString, r: seq<Segment>, k: nat, x: string)
    requires k < |r|
  {
    (r[k].start <= |t| && x == t[..r[k].start]) || x == ItemOf(r, k)
  }

  /** What a topic without wildcards puts in the filter of a publication: itself, its prefixes that end in a separator, an
      item for each segment but the first, and the items that only wildcards match. */
  ghost predicate IsPubItem(t: CString, r: seq<Segment>, x: string)
    requires |r| > 0
  {
    || x == t
    || (exists k | 0 < k < |r| :: IsSegmentItem(t, r, k, x))
    || x == SepsTo(r, |r|) + [INFIX_WILDC]
    || (exists k | 0 <= k <= |SepsTo(r, |r|)| :: x == SepsTo(r, |r|)[..k] + [FINAL_WILDC])
  }

  /** What a topic with wildcards, the first of them at `wc`, puts in the filter of a subscription: what precedes that, and an
      item for each later segment, save for a `+` with something after it. */
  ghost predicate IsWildItem(t: CString, r: seq<Segment>, wc: nat, x: string) {
    || (0 < wc <= |t| && x == t[..wc])
    || (exists k | 0 < k < |r| :: r[k].start > wc && !(At(t, r[k].start) == INFIX_WILDC && r[k].start + 1 < |t|)
          && x == ItemOf(r, k))
  }

  lemma TailItems(t: CString, seps: set<char>, pub: bool, wc: int, x: string)
    ensures var (r, tp) := (Split(t, seps, 0), SpanEnd(t, 0, seps));
      x in LoopItems(t, seps, pub, wc, tp, "") <==> exists k | 0 < k < |r| :: IsLoopItem(t, pub, wc, "", r, k, x)
  {
    var (r, tp) := (Split(t, seps, 0), SpanEnd(t, 0, seps));
    SplitEnds(t, seps, 0);
    hide Split, Counts, IsLoopItem;
    if tp < |t| {
      LoopItemsAre(t, seps, pub, wc, tp, "", x);
      SomeItemShifted(t, pub, wc, "", r, x);
    }
  }

  lemma PlainLoopItem(t: CString, r: seq<Segment>, k: nat, x: string)
    requires k < |r| && FirstWild(t) == None
    ensures IsLoopItem(t, true, -1, "", r, k, x) <==> IsSegmentItem(t, r, k, x)
  {
    assert "" + ItemOf(r, k) == ItemOf(r, k);
    assert r[k].start < |t| ==> t[r[k].start] != INFIX_WILDC;
  }

  lemma PubItemsAre(t: CString, seps: set<char>, x: string)
    requires FirstWild(t) == None
    ensures x in Items(t, seps, PubTopic) <==> IsPubItem(t, Split(t, seps, 0), x)
  {
    var (r, tp) := (Split(t, seps, 0), SpanEnd(t, 0, seps));
    TailItems(t, seps, true, -1, x);
    AllSepsAre(t, seps, tp, "");
    SkipSegment(t, seps, 0);
    FinalItemsAre(AllSeps(t, seps, tp, ""), |AllSeps(t, seps, tp, "")|, x);
    hide LoopItems, Split, FinalItems, SepsTo, AllSeps, IsLoopItem, IsSegmentItem;
    assert "" + SepsTo(r, |r|) == SepsTo(r, |r|);
    forall k | 0 < k < |r|
      ensures IsLoopItem(t, true, -1, "", r, k, x) <==> IsSegmentItem(t, r, k, x)
    {
      PlainLoopItem(t, r, k, x);
    }
  }

  lemma WildItemsAre(t: CString, seps: set<char>, wc: nat, x: string)
    requires FirstWild(t) == Some(wc)
    ensures x in Items(t, seps, SubTopic) <==> IsWildItem(t, Split(t, seps, 0), wc, x)
  {
    var r := Split(t, seps, 0);
    TailItems(t, seps, false, wc, x);
    hide LoopItems, Split, SepsTo;
    forall k | 0 < k < |r|
      ensures IsLoopItem(t, false, wc, "", r, k, x)
        <==> (r[k].start > wc && !(At(t, r[k].start) == INFIX_WILDC && r[k].start + 1 < |t|) && x == ItemOf(r, k))
    {
      assert "" + ItemOf(r, k) == ItemOf(r, k);
    }
  }

  /** The items of every topic that can be added to a filter. */
  lemma ItemsAre(t: CString, seps: set<char>, kind: TopicType, x: string)
    requires t != "" && Check(t, seps, kind)
    ensures x in Items(t, seps, kind) <==>
      match FirstWild(t)
      case None => if kind == PubTopic then IsPubItem(t, Split(t, seps, 0), x) else x == t
      case Some(wc) => IsWildItem(t, Split(t, seps, 0), wc, x)
  {
    hide IsPubItem, IsWildItem, Split;
    match FirstWild(t) {
      case None => PubItemsAre(t, seps, x);
      case Some(wc) => WildItemsAre(t, seps, wc, x);
    }
  }
}
