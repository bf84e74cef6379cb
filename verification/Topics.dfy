/** Topic strings: the wildcard checks, the string matcher, and the items a topic puts in a Bloom filter. */
module Topics {
  import opened Options

  const NUL: char := '\0'
  const INFIX_WILDC: char := '+'
  const FINAL_WILDC: char := '#'
  const WILDCARDS: set<char> := {INFIX_WILDC, FINAL_WILDC}
  const MAX_TOPIC_STRLEN: nat := 2048

  /** The contents of a NUL-terminated string. */
  type CString = s: string | forall k | 0 <= k < |s| :: s[k] != NUL witness ""

  datatype TopicType = SubTopic | PubTopic | PubNoWild

  /** The character at a pointer into a string; NUL at its end. */
  function At(s: string, i: nat): char {
    if i < |s| then s[i] else NUL
  }

  predicate IsWild(c: char) {
    c == FINAL_WILDC || c == INFIX_WILDC
  }

  /** What `strchr` answers: the terminator counts as a member of every separator list. */
  predicate IsSep(seps: set<char>, c: char) {
    c == NUL || c in seps
  }

  /** The end of the run of characters from `i` on that are not in `stop`. */
  function SpanEnd(s: string, i: nat, stop: set<char>): (e: nat)
    requires i <= |s|
    ensures i <= e <= |s|
    ensures forall k | i <= k < e :: s[k] !in stop
    ensures e < |s| ==> s[e] in stop
    decreases |s| - i
  {
    if i < |s| && s[i] !in stop then SpanEnd(s, i + 1, stop) else i
  }

  lemma SpanEndUnique(s: string, i: nat, stop: set<char>, e: nat)
    requires i <= e <= |s|
    requires forall k | i <= k < e :: s[k] !in stop
    requires e < |s| ==> s[e] in stop
    ensures SpanEnd(s, i, stop) == e
  {
  }

  // ---- wildcard checks ----

  /** The check of the wildcard at `wc` and of everything after it. */
  predicate CheckFrom(t: CString, seps: set<char>, wc: nat)
    requires wc < |t| && IsWild(t[wc])
    decreases |t| - wc
  {
    if wc != 0 && !IsSep(seps, t[wc - 1]) then false
    else if wc + 1 == |t| then true
    else if t[wc] != INFIX_WILDC then false
    else if !IsSep(seps, t[wc + 1]) then false
    else
      var next := SpanEnd(t, wc + 2, WILDCARDS);
      if next < |t| then CheckFrom(t, seps, next) else !IsSep(seps, t[|t| - 1])
  }

  /** The first wildcard of a topic, if any. */
  function FirstWild(t: CString): Option<nat> {
    var wc := SpanEnd(t, 0, WILDCARDS);
    if wc < |t| then Some(wc) else None
  }

  predicate Check(t: CString, seps: set<char>, kind: TopicType)
    requires t != ""
  {
    match FirstWild(t)
    case Some(wc) =>
      && kind == SubTopic
      && !(wc == 0 && t[0] == FINAL_WILDC && |t| > 1)
      && CheckFrom(t, seps, wc)
    case None => !IsSep(seps, t[|t| - 1])
  }

  /** A wildcard fills a whole segment, and `#` is the last character. */
  ghost predicate WildcardsFillSegments(t: CString, seps: set<char>) {
    forall k | 0 <= k < |t| && IsWild(t[k]) :: FillsSegment(t, seps, k)
  }

  ghost predicate FillsSegment(t: CString, seps: set<char>, k: nat)
    requires k < |t|
  {
    && (k == 0 || t[k - 1] in seps)
    && (k + 1 == |t| || (t[k] == INFIX_WILDC && t[k + 1] in seps))
  }

  lemma {:induction false} CheckFromMeans(t: CString, seps: set<char>, wc: nat, k: nat)
    requires wc < |t| && IsWild(t[wc]) && CheckFrom(t, seps, wc)
    requires wc <= k < |t| && IsWild(t[k]) && (forall c | c in seps :: !IsWild(c))
    ensures FillsSegment(t, seps, k)
    decreases |t| - wc
  {
    if k != wc {
      var next := SpanEnd(t, wc + 2, WILDCARDS);
      assert k != wc + 1;
      assert next <= k;
      CheckFromMeans(t, seps, next, k);
    }
  }

  lemma CheckMeans(t: CString, seps: set<char>, kind: TopicType)
    requires t != "" && Check(t, seps, kind) && (forall c | c in seps :: !IsWild(c))
    ensures WildcardsFillSegments(t, seps)
    ensures kind != SubTopic ==> FirstWild(t) == None
    ensures FirstWild(t) == None ==> forall k | 0 <= k < |t| :: !IsWild(t[k])
  {
    var wc := SpanEnd(t, 0, WILDCARDS);
    forall k | 0 <= k < |t| && IsWild(t[k])
      ensures FillsSegment(t, seps, k)
    {
      CheckFromMeans(t, seps, wc, k);
    }
  }

  lemma {:induction false} CheckFromFinds(t: CString, seps: set<char>, wc: nat)
    requires wc < |t| && IsWild(t[wc]) && (forall c | c in seps :: !IsWild(c))
    requires forall k | wc <= k < |t| && IsWild(t[k]) :: FillsSegment(t, seps, k)
    ensures CheckFrom(t, seps, wc) <==> IsWild(t[|t| - 1]) || t[|t| - 1] !in seps
    decreases |t| - wc
  {
    assert FillsSegment(t, seps, wc);
    if wc + 1 < |t| {
      var next := SpanEnd(t, wc + 2, WILDCARDS);
      if next < |t| {
        CheckFromFinds(t, seps, next);
      }
    }
  }

  /** Every wildcard fills a segment, only subscriptions have any, and the topic does not end in a separator. */
  ghost predicate ValidTopic(t: CString, seps: set<char>, kind: TopicType)
    requires t != ""
  {
    && WildcardsFillSegments(t, seps)
    && (kind == SubTopic || forall k | 0 <= k < |t| :: !IsWild(t[k]))
    && (IsWild(t[|t| - 1]) || t[|t| - 1] !in seps)
  }

  /** Exactly these topics pass the check, if no separator is a wildcard character. */
  lemma CheckExactlyWhen(t: CString, seps: set<char>, kind: TopicType)
    requires t != "" && (forall c | c in seps :: !IsWild(c))
    ensures Check(t, seps, kind) <==> ValidTopic(t, seps, kind)
  {
    if Check(t, seps, kind) {
      CheckMeans(t, seps, kind);
    }
    if WildcardsFillSegments(t, seps) && FirstWild(t).Some? {
      var wc := FirstWild(t).value;
      assert FillsSegment(t, seps, wc);
      CheckFromFinds(t, seps, wc);
    }
  }

  // ---- the string matcher ----

  /** The matcher's loop, from a pointer into each string. */
  predicate MatchFrom(p: CString, s: CString, seps: set<char>, i: nat, j: nat)
    requires i <= |p| && j <= |s|
    decreases |s| - j
  {
    if !(i < |p| && j < |s|) then i == |p| && j == |s|
    else if IsWild(s[j]) then
      var i' := SpanEnd(p, i, seps);
      if i < i' && j + 1 == |s| && (s[j] == FINAL_WILDC || i' == |p|) then true
      else At(p, i') == At(s, j + 1) && MatchFrom(p, s, seps, i' + 1, j + 2)
    else p[i] == s[j] && MatchFrom(p, s, seps, i + 1, j + 1)
  }

  /** The meaning of a match, segment by segment: literal segments are equal, `+` is any segment (not an
      empty last one), a final `#` is the rest of a topic whose next segment is not empty, and the
      separators agree. */
  ghost predicate SegMatch(p: CString, s: CString, seps: set<char>, i: nat, j: nat)
    requires i <= |p| && j <= |s|
    decreases |s| - j
  {
    var pe := SpanEnd(p, i, seps);
    var se := SpanEnd(s, j, seps);
    if s[j..se] == [FINAL_WILDC] && se == |s| then i < pe
    else
      && (if s[j..se] == [INFIX_WILDC] then (se == |s| ==> i < pe) else p[i..pe] == s[j..se])
      && At(p, pe) == At(s, se)
      && (se < |s| ==> SegMatch(p, s, seps, pe + 1, se + 1))
  }

  /** From inside a literal segment, the loop compares the rest of the segment and goes on after it. */
  lemma {:induction false} MatchLiteral(p: CString, s: CString, seps: set<char>, i: nat, j: nat)
    requires i <= |p| && j <= |s|
    requires forall k | j <= k < SpanEnd(s, j, seps) :: !IsWild(s[k])
    requires forall c | c in seps :: !IsWild(c)
    ensures var pe := SpanEnd(p, i, seps); var se := SpanEnd(s, j, seps);
      MatchFrom(p, s, seps, i, j) == (p[i..pe] == s[j..se] && At(p, pe) == At(s, se)
        && (se < |s| ==> MatchFrom(p, s, seps, pe + 1, se + 1)))
    decreases |s| - j
  {
    var pe := SpanEnd(p, i, seps);
    var se := SpanEnd(s, j, seps);
    if j < se && i < |p| && p[i] == s[j] {
      MatchLiteral(p, s, seps, i + 1, j + 1);
      assert p[i..pe] == [p[i]] + p[i + 1..pe];
      assert s[j..se] == [s[j]] + s[j + 1..se];
    } else if j < se {
      assert s[j..se][0] == s[j];
      assert i < pe ==> p[i..pe][0] == p[i];
    } else if i < pe {
      assert p[i..pe] != s[j..se];
      assert At(p, i) != At(s, j);
    }
  }

  /** A wildcard segment is skipped as a whole. */
  lemma MatchWild(p: CString, s: CString, seps: set<char>, i: nat, j: nat)
    requires i <= |p| && j < |s| && IsWild(s[j]) && FillsSegment(s, seps, j)
    requires forall c | c in seps :: !IsWild(c)
    ensures var pe := SpanEnd(p, i, seps); var se := SpanEnd(s, j, seps);
      && se == j + 1
      && MatchFrom(p, s, seps, i, j)
        == (if s[j] == FINAL_WILDC then i < pe
            else ((se == |s| ==> i < pe) && At(p, pe) == At(s, se)
                  && (se < |s| ==> MatchFrom(p, s, seps, pe + 1, se + 1))))
      && SegMatch(p, s, seps, i, j)
        == (if s[j] == FINAL_WILDC then i < pe
            else ((se == |s| ==> i < pe) && At(p, pe) == At(s, se)
                  && (se < |s| ==> SegMatch(p, s, seps, pe + 1, se + 1))))
  {
    SpanEndUnique(s, j, seps, j + 1);
    assert s[j..j + 1] == [s[j]];
  }

  lemma SegMatchLiteral(p: CString, s: CString, seps: set<char>, i: nat, j: nat)
    requires i <= |p| && j <= |s| && (j < |s| ==> !IsWild(s[j]))
    ensures var pe := SpanEnd(p, i, seps); var se := SpanEnd(s, j, seps);
      SegMatch(p, s, seps, i, j) == (p[i..pe] == s[j..se] && At(p, pe) == At(s, se)
        && (se < |s| ==> SegMatch(p, s, seps, pe + 1, se + 1)))
  {
    var se := SpanEnd(s, j, seps);
    assert j < se ==> s[j..se][0] == s[j];
  }

  /** At segment boundaries the loop decides exactly the segment relation. */
  lemma {:induction false} MatchIsSegMatch(p: CString, s: CString, seps: set<char>, i: nat, j: nat)
    requires i <= |p| && j <= |s| && (j == 0 || s[j - 1] in seps)
    requires WildcardsFillSegments(s, seps)
    requires forall c | c in seps :: !IsWild(c)
    ensures MatchFrom(p, s, seps, i, j) == SegMatch(p, s, seps, i, j)
    decreases |s| - j
  {
    var pe := SpanEnd(p, i, seps);
    var se := SpanEnd(s, j, seps);
    if se < |s| && pe < |p| {
      MatchIsSegMatch(p, s, seps, pe + 1, se + 1);
    }
    if j < |s| && IsWild(s[j]) {
      assert FillsSegment(s, seps, j);
      MatchWild(p, s, seps, i, j);
    } else {
      forall k | j <= k < se
        ensures !IsWild(s[k])
      {
        assert k > j ==> s[k - 1] !in seps && !FillsSegment(s, seps, k);
      }
      assert j < |s| && se == j ==> s[j] in seps;
      SegMatchLiteral(p, s, seps, i, j);
      MatchLiteral(p, s, seps, i, j);
    }
  }

  datatype Status<+T> = Ok(value: T) | Invalid

  ghost predicate Matchable(pub: CString, sub: CString, seps: set<char>) {
    && pub != "" && sub != "" && seps != {}
    && Check(pub, seps, PubTopic) && Check(sub, seps, SubTopic)
  }

  /** Whether a publication topic matches a subscription topic. */
  ghost predicate Matches(pub: CString, sub: CString, seps: set<char>, noWild: bool) {
    (noWild ==> FirstWild(sub) == None) && MatchFrom(pub, sub, seps, 0, 0)
  }

  method CheckWildcarding(topic: CString, seps: set<char>, kind: TopicType) returns (ok: bool, wcPos: Option<nat>)
    requires topic != ""
    ensures ok == Check(topic, seps, kind)
    ensures ok ==> wcPos == FirstWild(topic)
    ensures (forall c | c in seps :: !IsWild(c)) ==> (ok <==> ValidTopic(topic, seps, kind))
    ensures ok ==>
      match wcPos
      case None => forall k | 0 <= k < |topic| :: !IsWild(topic[k])
      case Some(wc) => wc < |topic| && IsWild(topic[wc]) && forall k | 0 <= k < wc :: !IsWild(topic[k])
  {
    if forall c | c in seps :: !IsWild(c) {
      CheckExactlyWhen(topic, seps, kind);
    }
    hide ValidTopic;
    wcPos := None;
    var wc := SpanEnd(topic, 0, WILDCARDS);
    if wc < |topic| {
      if kind != SubTopic {
        return false, wcPos;
      }
      if wc == 0 && topic[0] == FINAL_WILDC && |topic| > 1 {
        return false, wcPos;
      }
      wcPos := Some(wc);
      while wc < |topic|
        invariant wc <= |topic| && |topic| > 0
        invariant wc < |topic| ==> IsWild(topic[wc])
        invariant Check(topic, seps, kind)
          == if wc < |topic| then CheckFrom(topic, seps, wc) else !IsSep(seps, topic[|topic| - 1])
      {
        if wc != 0 && !IsSep(seps, topic[wc - 1]) {
          return false, wcPos;
        }
        if wc + 1 == |topic| {
          return IsWild(topic[wc]), wcPos;
        }
        if topic[wc] != INFIX_WILDC {
          return false, wcPos;
        }
        if !IsSep(seps, topic[wc + 1]) {
          return false, wcPos;
        }
        wc := SpanEnd(topic, wc + 2, WILDCARDS);
      }
    }
    return !IsSep(seps, topic[|topic| - 1]), wcPos;
  }

  /** The matcher decides whether two valid topics match; with separators that are not wildcards, this is the segment
      relation. */
  method MatchTopicString(pubTopic: CString, subTopic: CString, seps: set<char>, noWild: bool)
    returns (r: Status<bool>)
    ensures r.Ok? <==> Matchable(pubTopic, subTopic, seps)
    ensures r.Ok? ==> r.value == Matches(pubTopic, subTopic, seps, noWild)
    ensures (forall c | c in seps :: !IsWild(c)) ==>
      (r.Ok? <==> (pubTopic != "" && subTopic != "" && seps != {}
                   && ValidTopic(pubTopic, seps, PubTopic) && ValidTopic(subTopic, seps, SubTopic)))
    ensures r.Ok? && (forall c | c in seps :: !IsWild(c)) ==>
      r.value == ((noWild ==> FirstWild(subTopic) == None) && SegMatch(pubTopic, subTopic, seps, 0, 0))
  {
    if pubTopic == "" || subTopic == "" || seps == {} {
      return Invalid;
    }
    var ok, wc := CheckWildcarding(pubTopic, seps, PubTopic);
    if !ok {
      return Invalid;
    }
    ok, wc := CheckWildcarding(subTopic, seps, SubTopic);
    if !ok {
      return Invalid;
    }
    if forall c | c in seps :: !IsWild(c) {
      CheckMeans(subTopic, seps, SubTopic);
      MatchIsSegMatch(pubTopic, subTopic, seps, 0, 0);
    }
    if noWild && wc.Some? {
      return Ok(false);
    }
    var match_ := true;
    var i, j := 0, 0;
    while i < |pubTopic| && j < |subTopic|
      invariant i <= |pubTopic| && j <= |subTopic|
      invariant match_
      invariant MatchFrom(pubTopic, subTopic, seps, 0, 0) == MatchFrom(pubTopic, subTopic, seps, i, j)
      decreases |subTopic| - j
    {
      var j0 := j;
      if IsWild(subTopic[j]) {
        var e := SpanEnd(pubTopic, i, seps);
        if i < e {
          i := e;
          if j + 1 == |subTopic| {
            if subTopic[j] == FINAL_WILDC {
              return Ok(true);
            }
            if subTopic[j] == INFIX_WILDC && i == |pubTopic| {
              return Ok(true);
            }
          }
        }
        j := j + 1;
      }
      if At(pubTopic, i) != At(subTopic, j) {
        match_ := false;
        break;
      }
      i := i + 1;
      j := j + 1;
    }
    if j < |subTopic| || i < |pubTopic| {
      match_ := false;
    }
    return Ok(match_);
  }

  /** Every subscription topic is matched by some publication topic. */
  ghost predicate ListMatches(pubs: seq<CString>, subs: seq<CString>, seps: set<char>, noWild: bool) {
    forall i | 0 <= i < |subs| :: SomeMatches(pubs, subs[i], seps, noWild)
  }

  ghost predicate SomeMatches(pubs: seq<CString>, sub: CString, seps: set<char>, noWild: bool) {
    exists k | 0 <= k < |pubs| :: Matches(pubs[k], sub, seps, noWild)
  }

  ghost predicate AllMatchable(pubs: seq<CString>, subs: seq<CString>, seps: set<char>) {
    forall i, k | 0 <= i < |subs| && 0 <= k < |pubs| :: Matchable(pubs[k], subs[i], seps)
  }

  /** When it is decided, the answer for the lists is the right one; it is decided whenever neither list is empty
      and all topics are valid. */
  method MatchTopicList(pubs: seq<CString>, subs: seq<CString>, seps: set<char>, noWild: bool)
    returns (r: Status<bool>)
    ensures r.Ok? ==> r.value == ListMatches(pubs, subs, seps, noWild)
    ensures pubs != [] && subs != [] && AllMatchable(pubs, subs, seps) ==> r.Ok?
  {
    hide Matches, Matchable;
    var ret: Status<bool> := Invalid;
    var match_ := true;
    var i := 0;
    while i < |subs|
      invariant i <= |subs| && match_
      invariant forall j | 0 <= j < i :: SomeMatches(pubs, subs[j], seps, noWild)
      invariant i > 0 ==> ret.Ok?
    {
      var ok := false;
      var k := 0;
      while k < |pubs|
        invariant k <= |pubs| && !ok
        invariant forall j | 0 <= j < k :: !Matches(pubs[j], subs[i], seps, noWild)
        invariant i > 0 || k > 0 ==> ret.Ok?
      {
        ret := MatchTopicString(pubs[k], subs[i], seps, noWild);
        if ret.Invalid? {
          return ret;
        }
        ok := ret.value;
        if ok {
          break;
        }
        k := k + 1;
      }
      if !ok {
        assert !SomeMatches(pubs, subs[i], seps, noWild);
        match_ := false;
        break;
      }
      i := i + 1;
    }
    if ret.Ok? {
      return Ok(match_);
    }
    return Invalid;
  }
}
