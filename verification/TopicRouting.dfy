/** No false negatives: a filter built from publication topics has every item of every matching subscription. */
module TopicRouting {
  import opened Options
  import opened Words
  import opened BitVectors
  import opened Topics
  import opened TopicFilter

  /** No separator is a wildcard character. */
  ghost predicate Sane(seps: set<char>) {
    forall c | c in seps :: !IsWild(c)
  }

  ghost predicate Plain(t: CString) {
    forall k | 0 <= k < |t| :: !IsWild(t[k])
  }

  lemma {:induction false} AllSepsExtends(t: CString, seps: set<char>, tp: nat, pre: string)
    requires tp <= |t|
    ensures pre <= AllSeps(t, seps, tp, pre)
    decreases |t| - tp
  {
    if tp < |t| {
      AllSepsExtends(t, seps, SpanEnd(t, tp + 1, seps), pre + [t[tp]]);
    }
  }

  lemma {:induction false} FinalItemOf(f: string, n: nat, k: nat)
    requires k <= n <= |f|
    ensures f[..k] + [FINAL_WILDC] in FinalItems(f, n)
  {
    if k < n {
      FinalItemOf(f, n - 1, k);
    }
  }

  /** The item of one matched segment of a subscription is an item of the publication. */
  lemma SegmentCovered(p: CString, s: CString, seps: set<char>, wc: int, i: nat, j: nat, pre: string)
    requires Sane(seps) && Plain(p)
    requires i <= |p| && j <= |s| && SegMatch(p, s, seps, i, j) && SegmentCounts(s, wc, j)
    ensures var pe := SpanEnd(p, i, seps); var se := SpanEnd(s, j, seps);
        || SegmentItem(s, pre, j, se) in WildItems(AllSeps(p, seps, pe, pre))
        || (SegmentCounts(p, -1, i) && SegmentItem(s, pre, j, se) == SegmentItem(p, pre, i, pe))
  {
    var pe := SpanEnd(p, i, seps);
    var se := SpanEnd(s, j, seps);
    var f := AllSeps(p, seps, pe, pre);
    if s[j..se] == [FINAL_WILDC] && se == |s| {
      AllSepsExtends(p, seps, pe, pre);
      FinalItemOf(f, |f|, |pre|);
      assert SegmentItem(s, pre, j, se) == f[..|pre|] + [FINAL_WILDC];
    } else if s[j..se] == [INFIX_WILDC] {
      assert s[j] == s[j..se][0];
      assert se == |s|;
      assert SegmentItem(s, pre, j, se) == pre + [INFIX_WILDC];
    } else {
      assert At(p, i) != INFIX_WILDC;
    }
  }

  lemma SegMatchNext(p: CString, s: CString, seps: set<char>, i: nat, j: nat)
    requires i <= |p| && j <= |s| && SegMatch(p, s, seps, i, j)
    ensures Aligned(p, s, seps, SpanEnd(p, i, seps), SpanEnd(s, j, seps))
  {
    var se := SpanEnd(s, j, seps);
    if se < |s| {
      assert s[j..se] == [FINAL_WILDC] ==> se != |s|;
      assert At(p, SpanEnd(p, i, seps)) == At(s, se);
    }
  }

  /** At the end of matching segments: the same separator, and a match after it. */
  ghost predicate Aligned(p: CString, s: CString, seps: set<char>, pe: nat, se: nat)
    requires pe <= |p| && se <= |s|
  {
    se < |s| ==> pe < |p| && p[pe] == s[se] && SegMatch(p, s, seps, pe + 1, se + 1)
  }

  /** From matching separators on, the items of the subscription are items of the publication. */
  lemma {:induction false} LoopCovered(p: CString, s: CString, seps: set<char>, wc: int, pe: nat, se: nat, pre: string)
    requires Sane(seps) && Plain(p)
    requires pe <= |p| && se <= |s| && Aligned(p, s, seps, pe, se)
    ensures LoopItems(s, seps, false, wc, se, pre)
      <= LoopItems(p, seps, true, -1, pe, pre) + WildItems(AllSeps(p, seps, pe, pre))
    decreases |s| - se
  {
    if se < |s| {
      var (i, j, pre') := (pe + 1, se + 1, pre + [s[se]]);
      SegMatchNext(p, s, seps, i, j);
      LoopCovered(p, s, seps, wc, SpanEnd(p, i, seps), SpanEnd(s, j, seps), pre');
      if SegmentCounts(s, wc, j) {
        SegmentCovered(p, s, seps, wc, i, j, pre');
      }
    }
  }

  /** Both strings agree up to `j`, and a match goes on from there. */
  ghost predicate Agree(p: CString, s: CString, seps: set<char>, j: nat) {
    j <= |p| && j <= |s| && p[..j] == s[..j] && SegMatch(p, s, seps, j, j)
  }

  /** A matched segment without wildcards extends a common prefix. */
  lemma LiteralSegment(p: CString, s: CString, seps: set<char>, j: nat)
    requires Agree(p, s, seps, j) && (j < |s| ==> !IsWild(s[j]))
    ensures var se := SpanEnd(s, j, seps);
      && SpanEnd(p, j, seps) == se && p[..se] == s[..se]
      && (se < |s| ==> se < |p| && p[..se + 1] == s[..se + 1] && Agree(p, s, seps, se + 1))
  {
    var pe := SpanEnd(p, j, seps);
    var se := SpanEnd(s, j, seps);
    assert j < se ==> s[j..se][0] == s[j];
    assert p[j..pe] == s[j..se];
    assert |p[j..pe]| == pe - j && |s[j..se]| == se - j;
    assert p[..pe] == p[..j] + p[j..pe];
    assert s[..se] == s[..j] + s[j..se];
  }

  /** What precedes the first wildcard is a prefix of the publication that ends in a separator. */
  lemma {:induction false} PrefixCovered(p: CString, s: CString, seps: set<char>, wc: nat, j: nat, pre: string)
    requires Sane(seps) && j < wc < |s| && Agree(p, s, seps, j)
    requires s[wc - 1] in seps && (forall k | 0 <= k < wc :: !IsWild(s[k]))
    ensures s[..wc] in LoopItems(p, seps, true, -1, SpanEnd(p, j, seps), pre)
    decreases wc - j
  {
    hide SegMatch, SegmentItem, SegmentCounts;
    LiteralSegment(p, s, seps, j);
    var se := SpanEnd(s, j, seps);
    if se + 1 < wc {
      PrefixCovered(p, s, seps, wc, se + 1, pre + [p[se]]);
    }
  }

  lemma WildItemsCovered(p: CString, s: CString, seps: set<char>, wc: nat)
    requires Sane(seps) && Plain(p) && FirstWild(p) == None
    requires FirstWild(s) == Some(wc) && WildcardsFillSegments(s, seps) && SegMatch(p, s, seps, 0, 0)
    ensures Items(s, seps, SubTopic) <= Items(p, seps, PubTopic)
  {
    hide SegMatch, Aligned, LoopItems, AllSeps, FinalItems;
    SegMatchNext(p, s, seps, 0, 0);
    LoopCovered(p, s, seps, wc, SpanEnd(p, 0, seps), SpanEnd(s, 0, seps), "");
    if wc > 0 {
      assert FillsSegment(s, seps, wc);
      assert p[..0] == s[..0];
      PrefixCovered(p, s, seps, wc, 0, "");
    }
  }

  // ---- separators that are wildcard characters ----

  /** With `+` as one of two separators, of which the other one is ordinary, items can be lost. */
  ghost predicate Lossy(seps: set<char>) {
    INFIX_WILDC in seps && exists c | c in seps :: !IsWild(c)
  }

  ghost function WithoutHash(seps: set<char>): set<char> {
    seps - {FINAL_WILDC}
  }

  lemma SpanWithoutHash(p: CString, i: nat, seps: set<char>)
    requires i <= |p| && Plain(p)
    ensures SpanEnd(p, i, WithoutHash(seps)) == SpanEnd(p, i, seps)
  {
    SpanEndUnique(p, i, WithoutHash(seps), SpanEnd(p, i, seps));
  }

  lemma {:induction false} MatchWithoutHash(p: CString, s: CString, seps: set<char>, i: nat, j: nat)
    requires i <= |p| && j <= |s| && Plain(p)
    ensures MatchFrom(p, s, seps, i, j) == MatchFrom(p, s, WithoutHash(seps), i, j)
    decreases |s| - j
  {
    if i < |p| && j < |s| {
      SpanWithoutHash(p, i, seps);
      var i' := SpanEnd(p, i, seps);
      if IsWild(s[j]) {
        if i' < |p| && j + 1 < |s| {
          MatchWithoutHash(p, s, seps, i' + 1, j + 2);
        }
      } else {
        MatchWithoutHash(p, s, seps, i + 1, j + 1);
      }
    }
  }

  lemma {:induction false} LoopItemsWithoutHash(p: CString, seps: set<char>, tp: nat, pre: string)
    requires tp <= |p| && Plain(p)
    ensures LoopItems(p, seps, true, -1, tp, pre) == LoopItems(p, WithoutHash(seps), true, -1, tp, pre)
    decreases |p| - tp
  {
    hide WithoutHash, SegmentItem, SegmentCounts;
    if tp < |p| {
      SpanWithoutHash(p, tp + 1, seps);
      LoopItemsWithoutHash(p, seps, SpanEnd(p, tp + 1, seps), pre + [p[tp]]);
    }
  }

  lemma {:induction false} AllSepsWithoutHash(p: CString, seps: set<char>, tp: nat, pre: string)
    requires tp <= |p| && Plain(p)
    ensures AllSeps(p, seps, tp, pre) == AllSeps(p, WithoutHash(seps), tp, pre)
    decreases |p| - tp
  {
    hide WithoutHash;
    if tp < |p| {
      SpanWithoutHash(p, tp + 1, seps);
      AllSepsWithoutHash(p, seps, SpanEnd(p, tp + 1, seps), pre + [p[tp]]);
    }
  }

  /** A subscription that matches has no `#` as a separator, because a publication has none. */
  lemma {:induction false} CheckWithoutHash(p: CString, s: CString, seps: set<char>, i: nat, j: nat)
    requires i <= |p| && j <= |s| && Plain(p) && (j == 0 || s[j - 1] != FINAL_WILDC)
    requires SpanEnd(s, j, WILDCARDS) < |s| && CheckFrom(s, seps, SpanEnd(s, j, WILDCARDS))
    requires MatchFrom(p, s, seps, i, j)
    ensures CheckFrom(s, WithoutHash(seps), SpanEnd(s, j, WILDCARDS))
    decreases |s| - j
  {
    if j < |s| && i < |p| {
      var i' := SpanEnd(p, i, seps);
      if !IsWild(s[j]) {
        CheckWithoutHash(p, s, seps, i + 1, j + 1);
      } else if j + 1 < |s| {
        assert i' < |p| && p[i'] == s[j + 1];
        if SpanEnd(s, j + 2, WILDCARDS) < |s| {
          CheckWithoutHash(p, s, seps, i' + 1, j + 2);
        }
      }
    }
  }

  ghost predicate EndsInHash(s: CString) {
    s != "" && s[|s| - 1] == FINAL_WILDC
  }

  /** Taking the final `#` for a separator adds one item, the one for `#` in its place. */
  lemma {:induction false} ItemsWithHash(s: CString, seps: set<char>, wc: int, tp: nat, pre: string)
    requires tp <= |s| && INFIX_WILDC !in seps && wc < |s|
    requires WildcardsFillSegments(s, WithoutHash(seps))
    ensures LoopItems(s, seps, false, wc, tp, pre)
      <= LoopItems(s, WithoutHash(seps), false, wc, tp, pre)
       + (if EndsInHash(s) then {AllSeps(s, WithoutHash(seps), tp, pre) + [FINAL_WILDC]} else {})
    decreases |s| - tp
  {
    var cut := WithoutHash(seps);
    if tp < |s| {
      var (start, end, pre') := (tp + 1, SpanEnd(s, tp + 1, cut), pre + [s[tp]]);
      if start <= |s| - 1 < end && EndsInHash(s) && FINAL_WILDC in seps {
        assert FillsSegment(s, cut, |s| - 1);
        assert start == |s| - 1;
        SpanEndUnique(s, start, seps, start);
        assert SegmentItem(s, pre', start, start) == pre' + [FINAL_WILDC];
        assert SegmentItem(s, pre' + [FINAL_WILDC], |s|, |s|) == pre' + [FINAL_WILDC];
        assert LoopItems(s, seps, false, wc, |s|, pre' + [FINAL_WILDC]) == {};
        assert AllSeps(s, cut, tp, pre) == pre';
      } else {
        forall k | start <= k < end
          ensures s[k] !in seps
        {
          assert IsWild(s[k]) ==> FillsSegment(s, cut, k);
        }
        SpanEndUnique(s, start, seps, end);
        ItemsWithHash(s, seps, wc, end, pre');
      }
    }
  }

  /** The separators of a matching subscription are the first ones of the publication. */
  lemma {:induction false} SepsCovered(p: CString, s: CString, seps: set<char>, pe: nat, se: nat, pre: string)
    requires pe <= |p| && se <= |s| && Aligned(p, s, seps, pe, se)
    ensures AllSeps(s, seps, se, pre) <= AllSeps(p, seps, pe, pre)
    decreases |s| - se
  {
    AllSepsExtends(p, seps, pe, pre);
    if se < |s| {
      SegMatchNext(p, s, seps, pe + 1, se + 1);
      SepsCovered(p, s, seps, SpanEnd(p, pe + 1, seps), SpanEnd(s, se + 1, seps), pre + [s[se]]);
    }
  }

  /** Leaving out the separator `#` keeps both topics valid and the match. */
  lemma ValidWithoutHash(p: CString, s: CString, seps: set<char>, wc: nat)
    requires INFIX_WILDC !in seps && Accepted(p, seps, PubTopic) && Accepted(s, seps, SubTopic)
    requires FirstWild(s) == Some(wc) && MatchFrom(p, s, seps, 0, 0)
    ensures Plain(p) && FirstWild(p) == None && Sane(WithoutHash(seps))
    ensures WildcardsFillSegments(s, WithoutHash(seps)) && SegMatch(p, s, WithoutHash(seps), 0, 0)
  {
    hide LoopItems, SegMatch;
    var cut := WithoutHash(seps);
    CheckWithoutHash(p, s, seps, 0, 0);
    CheckMeans(s, cut, SubTopic);
    MatchWithoutHash(p, s, seps, 0, 0);
    MatchIsSegMatch(p, s, cut, 0, 0);
  }

  lemma PubItemsWithoutHash(p: CString, seps: set<char>)
    requires Plain(p) && FirstWild(p) == None
    ensures Items(p, seps, PubTopic) == Items(p, WithoutHash(seps), PubTopic)
  {
    hide LoopItems, AllSeps, WithoutHash;
    SpanWithoutHash(p, 0, seps);
    LoopItemsWithoutHash(p, seps, SpanEnd(p, 0, seps), "");
    AllSepsWithoutHash(p, seps, SpanEnd(p, 0, seps), "");
  }

  /** The item for `#` in the place of the final segment. */
  lemma HashItemCovered(p: CString, s: CString, seps: set<char>)
    requires FirstWild(p) == None && SegMatch(p, s, seps, 0, 0)
    ensures AllSeps(s, seps, SpanEnd(s, 0, seps), "") + [FINAL_WILDC] in Items(p, seps, PubTopic)
  {
    hide LoopItems;
    var pe, se := SpanEnd(p, 0, seps), SpanEnd(s, 0, seps);
    SegMatchNext(p, s, seps, 0, 0);
    SepsCovered(p, s, seps, pe, se, "");
    var f := AllSeps(p, seps, pe, "");
    var g := AllSeps(s, seps, se, "");
    FinalItemOf(f, |f|, |g|);
    assert f[..|g|] + [FINAL_WILDC] == g + [FINAL_WILDC];
  }

  lemma SubItemsWithoutHash(s: CString, seps: set<char>, wc: nat)
    requires INFIX_WILDC !in seps && Accepted(s, seps, SubTopic) && FirstWild(s) == Some(wc)
    requires WildcardsFillSegments(s, WithoutHash(seps))
    ensures var cut := WithoutHash(seps);
      Items(s, seps, SubTopic)
      <= Items(s, cut, SubTopic) + {AllSeps(s, cut, SpanEnd(s, 0, cut), "") + [FINAL_WILDC]}
  {
    var cut := WithoutHash(seps);
    var se := SpanEnd(s, 0, cut);
    forall k | 0 <= k < se
      ensures s[k] !in seps
    {
      assert IsWild(s[k]) ==> FillsSegment(s, cut, k);
    }
    SpanEndUnique(s, 0, seps, se);
    ItemsWithHash(s, seps, wc, se, "");
  }

  /** A subscription with wildcards, and separators without `+`. */
  lemma HashSeparator(p: CString, s: CString, seps: set<char>, wc: nat)
    requires INFIX_WILDC !in seps && Accepted(p, seps, PubTopic) && Accepted(s, seps, SubTopic)
    requires FirstWild(s) == Some(wc) && MatchFrom(p, s, seps, 0, 0)
    ensures Items(s, seps, SubTopic) <= Items(p, seps, PubTopic)
  {
    var cut := WithoutHash(seps);
    ValidWithoutHash(p, s, seps, wc);
    hide *;
    WildItemsCovered(p, s, cut, wc);
    PubItemsWithoutHash(p, seps);
    HashItemCovered(p, s, cut);
    SubItemsWithoutHash(s, seps, wc);
  }

  /** Without wildcards, only an equal topic matches, whatever the separators are. */
  lemma {:induction false} PlainMatch(p: CString, s: CString, seps: set<char>, i: nat, j: nat)
    requires i <= |p| && j <= |s| && Plain(s) && MatchFrom(p, s, seps, i, j)
    ensures p[i..] == s[j..]
    decreases |s| - j
  {
    if i < |p| && j < |s| {
      PlainMatch(p, s, seps, i + 1, j + 1);
      assert p[i..] == [p[i]] + p[i + 1..] && s[j..] == [s[j]] + s[j + 1..];
    }
  }

  /** If all separators are wildcard characters, a subscription with wildcards is a single one and has no items. */
  lemma WildSeparators(s: CString, seps: set<char>, wc: nat)
    requires (forall c | c in seps :: IsWild(c)) && INFIX_WILDC in seps
    requires Accepted(s, seps, SubTopic) && FirstWild(s) == Some(wc)
    ensures Items(s, seps, SubTopic) == {}
  {
    assert wc == 0;
    assert s == [FINAL_WILDC];
    SpanEndUnique(s, 0, seps, 1);
  }

  /** Every item of a matching subscription is an item of the publication. */
  lemma ItemsCovered(p: CString, s: CString, seps: set<char>, pubKind: TopicType, noWild: bool)
    requires !Lossy(seps) && pubKind != SubTopic && (pubKind == PubNoWild ==> noWild)
    requires Accepted(p, seps, pubKind) && Accepted(s, seps, SubTopic)
    requires Matches(p, s, seps, noWild)
    ensures Items(s, seps, SubTopic) <= Items(p, seps, pubKind)
  {
    match FirstWild(s) {
      case None =>
        PlainMatch(p, s, seps, 0, 0);
      case Some(wc) =>
        if INFIX_WILDC in seps {
          WildSeparators(s, seps, wc);
        } else {
          HashSeparator(p, s, seps, wc);
        }
    }
  }

  /** A subscription that matches a publication without having all its items there. */
  ghost predicate LosesItem(p: CString, s: CString, seps: set<char>) {
    && Accepted(p, seps, PubTopic) && Accepted(s, seps, SubTopic) && MatchFrom(p, s, seps, 0, 0)
    && !(Items(s, seps, SubTopic) <= Items(p, seps, PubTopic))
  }

  // ---- lists of topics ----

  ghost function AllItems(topics: seq<CString>, seps: set<char>, kind: TopicType): set<string> {
    set i, x | 0 <= i < |topics| && x in Items(topics[i], seps, kind) :: x
  }

  ghost predicate AllAccepted(topics: seq<CString>, seps: set<char>, kind: TopicType) {
    forall i | 0 <= i < |topics| :: Accepted(topics[i], seps, kind)
  }

  lemma ListItemsCovered(pubs: seq<CString>, subs: seq<CString>, seps: set<char>, pubKind: TopicType, noWild: bool)
    requires !Lossy(seps) && pubKind != SubTopic && (pubKind == PubNoWild ==> noWild)
    requires AllAccepted(pubs, seps, pubKind) && AllAccepted(subs, seps, SubTopic)
    requires ListMatches(pubs, subs, seps, noWild)
    ensures AllItems(subs, seps, SubTopic) <= AllItems(pubs, seps, pubKind)
  {
    forall i, x | 0 <= i < |subs| && x in Items(subs[i], seps, SubTopic)
      ensures x in AllItems(pubs, seps, pubKind)
    {
      assert SomeMatches(pubs, subs[i], seps, noWild);
      var k :| 0 <= k < |pubs| && Matches(pubs[k], subs[i], seps, noWild);
      ItemsCovered(pubs[k], subs[i], seps, pubKind, noWild);
    }
  }

  /** The filter of a publication includes the filter of every subscription that it matches, for any hash. */
  lemma FilterHasNoFalseNegatives(pubs: seq<CString>, subs: seq<CString>, seps: set<char>, pubKind: TopicType,
                                  noWild: bool, hash: Hasher, n: nat, pubFilter: Vec, subFilter: Vec)
    requires !Lossy(seps) && pubKind != SubTopic && (pubKind == PubNoWild ==> noWild)
    requires AllAccepted(pubs, seps, pubKind) && AllAccepted(subs, seps, SubTopic)
    requires ListMatches(pubs, subs, seps, noWild)
    requires Filled(ZeroVec(n), hash, AllItems(pubs, seps, pubKind), pubFilter)
    requires Filled(ZeroVec(n), hash, AllItems(subs, seps, SubTopic), subFilter)
    ensures Words.Includes(pubFilter, subFilter)
  {
    ListItemsCovered(pubs, subs, seps, pubKind, noWild);
    forall i, j | 0 <= i < n && 0 <= j < 64 && subFilter[i][j]
      ensures pubFilter[i][j]
    {
      assert TestAt(subFilter, 64 * i + j);
      assert TestAt(pubFilter, 64 * i + j);
    }
  }

  /** A subscription puts nothing in its filter exactly when it is a single wildcard, whatever the separators are. */
  lemma EmptyFilter(s: CString, seps: set<char>)
    requires Accepted(s, seps, SubTopic)
    ensures Items(s, seps, SubTopic) == {} <==> s == [INFIX_WILDC] || s == [FINAL_WILDC]
  {
    match FirstWild(s) {
      case None => assert s in Items(s, seps, SubTopic);
      case Some(wc) =>
        if wc > 0 {
          assert s[..wc] in Items(s, seps, SubTopic);
        } else if |s| == 1 {
          assert s == [s[0]];
        } else {
          SpanEndUnique(s, 0, seps, 1);
          forall k | 0 < k < |s| - 1 && s[k] == INFIX_WILDC
            ensures s[k + 1] in seps
          {
            InfixMeans(s, seps, 0, k);
          }
          SomeItem(s, seps, 1, "");
        }
    }
  }

  /** A `+` that is not the last character has a separator after it, unless it is a separator itself. */
  lemma {:induction false} InfixMeans(t: CString, seps: set<char>, wc: nat, k: nat)
    requires wc <= k < |t| - 1 && IsWild(t[wc]) && CheckFrom(t, seps, wc)
    requires t[k] == INFIX_WILDC && INFIX_WILDC !in seps
    ensures t[k + 1] in seps
    decreases |t| - wc
  {
    if k != wc {
      InfixMeans(t, seps, SpanEnd(t, wc + 2, WILDCARDS), k);
    }
  }

  /** The last segment of a topic always counts once it follows a wildcard. */
  lemma {:induction false} SomeItem(s: CString, seps: set<char>, tp: nat, pre: string)
    requires 0 < tp < |s| && INFIX_WILDC !in seps
    requires forall k | 0 < k < |s| - 1 && s[k] == INFIX_WILDC :: s[k + 1] in seps
    ensures LoopItems(s, seps, false, 0, tp, pre) != {}
    decreases |s| - tp
  {
    var end := SpanEnd(s, tp + 1, seps);
    if SegmentCounts(s, 0, tp + 1) {
      assert SegmentItem(s, pre + [s[tp]], tp + 1, end) in LoopItems(s, seps, false, 0, tp, pre);
    } else {
      SpanEndUnique(s, tp + 1, seps, tp + 2);
      SomeItem(s, seps, end, pre + [s[tp]]);
      var x :| x in LoopItems(s, seps, false, 0, end, pre + [s[tp]]);
      assert x in LoopItems(s, seps, false, 0, tp, pre);
    }
  }

  /** The publication `xcxcx` and the subscription `xc+cx`. */
  ghost function Between(x: char, c: char, middle: char): CString
    requires x != NUL && c != NUL && middle != NUL
  {
    [x, c, middle, c, x]
  }

  ghost predicate Witnesses(seps: set<char>, x: char, c: char) {
    && INFIX_WILDC in seps && c in seps && !IsWild(c) && c != NUL
    && x !in seps && !IsWild(x) && x != NUL
  }

  lemma LostItemPresent(seps: set<char>, x: char, c: char)
    requires Witnesses(seps, x, c)
    ensures [c, INFIX_WILDC, c] in Items(Between(x, c, INFIX_WILDC), seps, SubTopic)
  {
    var s := Between(x, c, INFIX_WILDC);
    SpanEndUnique(s, 0, WILDCARDS, 2);
    SpanEndUnique(s, 0, seps, 1);
    SpanEndUnique(s, 2, seps, 2);
    SpanEndUnique(s, 3, seps, 3);
    assert "" + [s[1]] == [c] && [c] + [s[2]] == [c, INFIX_WILDC];
    assert SegmentItem(s, [c, INFIX_WILDC], 3, 3) == [c, INFIX_WILDC, c];
    assert [c, INFIX_WILDC, c] in LoopItems(s, seps, false, 2, 2, [c]);
    assert [c, INFIX_WILDC, c] in LoopItems(s, seps, false, 2, 1, "");
  }

  lemma LostItemAbsent(seps: set<char>, x: char, c: char)
    requires Witnesses(seps, x, c)
    ensures [c, INFIX_WILDC, c] !in Items(Between(x, c, x), seps, PubTopic)
  {
    var (p, lost) := (Between(x, c, x), [c, INFIX_WILDC, c]);
    SpanEndUnique(p, 0, WILDCARDS, 5);
    SpanEndUnique(p, 0, seps, 1);
    SpanEndUnique(p, 2, seps, 3);
    SpanEndUnique(p, 4, seps, 5);
    assert "" + [p[1]] == [c] && [c] + [p[3]] == [c, c];
    assert AllSeps(p, seps, 3, [c]) == [c, c] && AllSeps(p, seps, 1, "") == [c, c];
    assert p[..4][0] == x && p[..2][0] == x && p[0] == x;
    assert SegmentItem(p, [c, c], 4, 5)[1] == c && SegmentItem(p, [c], 2, 3)[1] == x;
    assert LoopItems(p, seps, true, -1, 3, [c]) == {p[..4], SegmentItem(p, [c, c], 4, 5)};
    assert LoopItems(p, seps, true, -1, 1, "")
      == {p[..2], SegmentItem(p, [c], 2, 3)} + LoopItems(p, seps, true, -1, 3, [c]);
    assert lost !in LoopItems(p, seps, true, -1, 1, "");
    var f := [c, c];
    assert FinalItems(f, 0) == {f[..0] + "#"} && FinalItems(f, 1) == {f[..1] + "#"} + FinalItems(f, 0);
    assert FinalItems(f, 2) == {f[..2] + "#"} + FinalItems(f, 1);
    assert (f[..0] + "#")[0] == '#' && (f[..1] + "#")[1] == '#' && (f[..2] + "#")[2] == '#';
    assert (f + "+")[2] == '+';
    assert lost !in WildItems(f);
  }

  /** With `+` and an ordinary separator, a subscription loses an item. */
  lemma PlusLosesItem(seps: set<char>, x: char, c: char)
    requires NUL !in seps && Witnesses(seps, x, c)
    ensures LosesItem(Between(x, c, x), Between(x, c, INFIX_WILDC), seps)
  {
    var (p, s) := (Between(x, c, x), Between(x, c, INFIX_WILDC));
    SpanEndUnique(p, 0, WILDCARDS, 5);
    SpanEndUnique(s, 0, WILDCARDS, 2);
    SpanEndUnique(s, 4, WILDCARDS, 5);
    SpanEndUnique(p, 2, seps, 3);
    assert CheckFrom(s, seps, 2);
    assert MatchFrom(p, s, seps, 4, 4);
    assert MatchFrom(p, s, seps, 2, 2);
    assert MatchFrom(p, s, seps, 1, 1);
    LostItemPresent(seps, x, c);
    LostItemAbsent(seps, x, c);
  }

  /** A filter of one chunk that has exactly the bits of some items. */
  ghost function FilterOf(hash: Hasher, items: set<string>): (v: Vec)
    requires Fits(hash, 64)
    ensures Filled(ZeroVec(1), hash, items, v)
  {
    [seq(64, k requires 0 <= k < 64 => exists x | x in items :: k in hash(x))]
  }

  /** A lost item loses the publication: with some hash, the filter lacks a bit. */
  lemma LostItemRejects(p: CString, s: CString, seps: set<char>) returns (hash: Hasher)
    requires LosesItem(p, s, seps)
    ensures Fits(hash, 64)
    ensures !Words.Includes(FilterOf(hash, Items(p, seps, PubTopic)), FilterOf(hash, Items(s, seps, SubTopic)))
  {
    var (pubItems, subItems) := (Items(p, seps, PubTopic), Items(s, seps, SubTopic));
    var lost :| lost in subItems && lost !in pubItems;
    hash := x => if x == lost then [0] else [1];
    var (a, b) := (FilterOf(hash, pubItems), FilterOf(hash, subItems));
    assert 0 in hash(lost);
    assert TestAt(b, 0) && !TestAt(a, 0);
    assert b[0][0] && !a[0][0];
  }

  /** For every list of separators: no item is ever lost, if and only if `+` is not a separator or no ordinary character
      is one. (`x` is some character that is neither a separator nor a wildcard.) */
  lemma NoItemLostExactlyWhen(seps: set<char>, x: char)
    requires NUL !in seps && x !in seps && !IsWild(x) && x != NUL
    ensures (forall p: CString, s: CString :: !LosesItem(p, s, seps)) <==> !Lossy(seps)
  {
    if Lossy(seps) {
      var c :| c in seps && !IsWild(c);
      PlusLosesItem(seps, x, c);
    } else {
      forall p: CString, s: CString
        ensures !LosesItem(p, s, seps)
      {
        if Accepted(p, seps, PubTopic) && Accepted(s, seps, SubTopic) && MatchFrom(p, s, seps, 0, 0) {
          ItemsCovered(p, s, seps, PubTopic, false);
        }
      }
    }
  }
}
