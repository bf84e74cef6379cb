/** The list of publication histories sorted by expiration: its shape in memory and what each change does to it. */
module HistoryList {
  import opened HistoryTree

  function Ends(prev: PubHistory?, next: PubHistory?): Cell {
    BLANK.(prev := prev, next := next)
  }

  /** The list pointers of some records. */
  type ListPointers = map<PubHistory, Cell>

  ghost function EndsOf(s: set<PubHistory>): ListPointers
    reads s`prev, s`next
  {
    map x | x in s :: if x in s then Ends(x.prev, x.next) else BLANK
  }

  /** What some records hold. */
  type Snapshot = map<PubHistory, Cell>

  ghost function SnapshotOf(s: set<PubHistory>): Snapshot
    reads s`data
  {
    map x | x in s :: if x in s then BLANK.(data := x.data) else BLANK
  }

  ghost function Members(list: seq<PubHistory>): set<PubHistory> {
    set x | x in list
  }

  ghost function Time(e: Snapshot, x: PubHistory): nat
    requires x in e
  {
    e[x].data.expiration
  }

  /** No record expires before one that is in front of it. */
  ghost predicate Sorted(list: seq<PubHistory>, e: Snapshot) {
    && (forall i {:trigger list[i]} | 0 <= i < |list| :: list[i] in e)
    && forall i, j | 0 <= i < j < |list| :: Time(e, list[i]) <= Time(e, list[j])
  }

  ghost function Before(list: seq<PubHistory>, k: nat): PubHistory?
    requires k <= |list|
  {
    if k == 0 then null else list[k - 1]
  }

  ghost function At(list: seq<PubHistory>, k: nat): PubHistory?
    requires k <= |list|
  {
    if k == |list| then null else list[k]
  }

  ghost predicate NoRepeats(list: seq<PubHistory>) {
    forall i, j | 0 <= i < j < |list| :: list[i] != list[j]
  }

  /** The pointers of the record at `i` lead to its neighbours. */
  ghost predicate ChainedAt(list: seq<PubHistory>, i: nat, m: ListPointers)
    requires i < |list|
  {
    list[i] in m && m[list[i]] == Ends(Before(list, i), At(list, i + 1))
  }

  /** The pointers form the list. */
  ghost predicate Chained(list: seq<PubHistory>, m: ListPointers) {
    forall i {:trigger ChainedAt(list, i, m)} | 0 <= i < |list| :: ChainedAt(list, i, m)
  }

  /** The places of a list and its ends. */
  ghost predicate Listed(list: seq<PubHistory>, soonest: PubHistory?, latest: PubHistory?, m: ListPointers) {
    NoRepeats(list) && Chained(list, m) && soonest == At(list, 0) && latest == Before(list, |list|)
  }

  ghost function Put(list: seq<PubHistory>, k: nat, x: PubHistory): seq<PubHistory>
    requires k <= |list|
  {
    list[..k] + [x] + list[k..]
  }

  /** Record `x` is linked between two neighbours. */
  ghost predicate Tied(all: set<PubHistory>, x: PubHistory, before: PubHistory?, after: PubHistory?,
                       m: ListPointers, m': ListPointers)
  {
    && m.Keys == all && m'.Keys == all
    && forall y | y in all ::
         m'[y] == (
           if y == x then Ends(before, after)
           else Ends(if y == after then x else m[y].prev, if y == before then x else m[y].next))
  }

  /** The neighbours of `x` are linked to each other. */
  ghost predicate Untied(all: set<PubHistory>, x: PubHistory, m: ListPointers, m': ListPointers) {
    && x in all && m.Keys == all && m'.Keys == all
    && forall y | y in all && y != x ::
         m'[y] == Ends(if y == m[x].next then m[x].prev else m[y].prev, if y == m[x].prev then m[x].next else m[y].next)
  }

  ghost predicate LinkedIn(list: seq<PubHistory>, k: nat, x: PubHistory, m: ListPointers, m': ListPointers)
    requires k <= |list|
  {
    && x in m' && m'[x] == Ends(Before(list, k), At(list, k))
    && forall i {:trigger list[i]} | 0 <= i < |list| ::
         && list[i] in m && list[i] in m'
         && m'[list[i]] == Ends(if i == k then x else m[list[i]].prev, if i == k - 1 then x else m[list[i]].next)
  }

  lemma TiedListed(list: seq<PubHistory>, k: nat, x: PubHistory, all: set<PubHistory>, s: PubHistory?, l: PubHistory?,
                   m: ListPointers, m': ListPointers)
    requires k <= |list|
    requires Listed(list, s, l, m) && x !in list && (forall y | y in list :: y in all) && x in all
    requires Tied(all, x, Before(list, k), At(list, k), m, m')
    ensures Listed(Put(list, k, x), if k == 0 then x else s, if k == |list| then x else l, m')
  {
    assert LinkedIn(list, k, x, m, m');
    LinkedInListed(list, k, x, s, l, m, m');
  }

  lemma UntiedListed(list: seq<PubHistory>, k: nat, all: set<PubHistory>, s: PubHistory?, l: PubHistory?,
                     m: ListPointers, m': ListPointers)
    requires k < |list|
    requires Listed(list, s, l, m) && (forall y | y in list :: y in all) && Untied(all, list[k], m, m')
    ensures Listed(Drop(list, k), if k == 0 then At(list, 1) else s, if k == |list| - 1 then Before(list, k) else l, m')
  {
    forall i {:trigger list[i]} | 0 <= i < |list| && i != k
      ensures
        && list[i] in m && list[i] in m'
        && m'[list[i]] == Ends(if i == k + 1 then Before(list, k) else m[list[i]].prev,
                               if i == k - 1 then At(list, k + 1) else m[list[i]].next)
    {
      assert ChainedAt(list, i, m) && ChainedAt(list, k, m);
    }
    BridgedListed(list, k, s, l, m, m');
  }

  lemma LinkedInChained(list: seq<PubHistory>, k: nat, x: PubHistory, m: ListPointers, m': ListPointers)
    requires k <= |list|
    requires Chained(list, m) && LinkedIn(list, k, x, m, m')
    ensures Chained(Put(list, k, x), m')
  {
    var r := Put(list, k, x);
    forall i | 0 <= i < |r|
      ensures ChainedAt(r, i, m')
    {
      if i < k {
        assert r[i] == list[i] && ChainedAt(list, i, m);
      } else if i > k {
        assert r[i] == list[i - 1] && ChainedAt(list, i - 1, m);
      }
    }
  }

  lemma LinkedInListed(list: seq<PubHistory>, k: nat, x: PubHistory, s: PubHistory?, l: PubHistory?,
                       m: ListPointers, m': ListPointers)
    requires k <= |list|
    requires Listed(list, s, l, m) && x !in list && LinkedIn(list, k, x, m, m')
    ensures Listed(Put(list, k, x), if k == 0 then x else s, if k == |list| then x else l, m')
  {
    LinkedInChained(list, k, x, m, m');
    NoRepeatsPut(list, k, x);
  }

  lemma NoRepeatsPut(list: seq<PubHistory>, k: nat, x: PubHistory)
    requires k <= |list| && NoRepeats(list) && x !in list
    ensures NoRepeats(Put(list, k, x))
  {
    var r := Put(list, k, x);
    forall i, j | 0 <= i < j < |r|
      ensures r[i] != r[j]
    {
      assert i < k ==> r[i] == list[i];
      assert i > k ==> r[i] == list[i - 1];
      assert j < k ==> r[j] == list[j];
      assert j > k ==> r[j] == list[j - 1];
    }
  }

  ghost function Drop(list: seq<PubHistory>, k: nat): seq<PubHistory>
    requires k < |list|
  {
    list[..k] + list[k + 1..]
  }

  /** The neighbours of the record at `k` are linked to each other. */
  ghost predicate Bridged(list: seq<PubHistory>, k: nat, m: ListPointers, m': ListPointers)
    requires k < |list|
  {
    forall i {:trigger list[i]} | 0 <= i < |list| && i != k ::
      && list[i] in m && list[i] in m'
      && m'[list[i]] == Ends(if i == k + 1 then Before(list, k) else m[list[i]].prev,
                             if i == k - 1 then At(list, k + 1) else m[list[i]].next)
  }

  lemma BridgedChained(list: seq<PubHistory>, k: nat, m: ListPointers, m': ListPointers)
    requires k < |list|
    requires Chained(list, m) && Bridged(list, k, m, m')
    ensures Chained(Drop(list, k), m')
  {
    var r := Drop(list, k);
    forall i | 0 <= i < |r|
      ensures ChainedAt(r, i, m')
    {
      if i < k {
        assert r[i] == list[i] && ChainedAt(list, i, m);
      } else {
        assert r[i] == list[i + 1] && ChainedAt(list, i + 1, m);
      }
    }
  }

  lemma NoRepeatsDrop(list: seq<PubHistory>, k: nat)
    requires k < |list| && NoRepeats(list)
    ensures NoRepeats(Drop(list, k)) && list[k] !in Drop(list, k)
    ensures Members(Drop(list, k)) == Members(list) - {list[k]}
  {
    var r := Drop(list, k);
    forall i | 0 <= i < |list| && i != k
      ensures list[i] in r
    {
      assert list[i] == r[if i < k then i else i - 1];
    }
    forall i | 0 <= i < |r|
      ensures r[i] == list[if i < k then i else i + 1]
    {
    }
  }

  lemma BridgedListed(list: seq<PubHistory>, k: nat, s: PubHistory?, l: PubHistory?, m: ListPointers, m': ListPointers)
    requires k < |list|
    requires Listed(list, s, l, m) && Bridged(list, k, m, m')
    ensures Listed(Drop(list, k), if k == 0 then At(list, 1) else s, if k == |list| - 1 then Before(list, k) else l, m')
  {
    BridgedChained(list, k, m, m');
    NoRepeatsDrop(list, k);
  }

  lemma SortedPut(list: seq<PubHistory>, k: nat, x: PubHistory, e: Snapshot)
    requires k <= |list| && Sorted(list, e) && x in e
    requires forall i | 0 <= i < k :: Time(e, list[i]) <= Time(e, x)
    requires forall i | k <= i < |list| :: Time(e, x) <= Time(e, list[i])
    ensures Sorted(Put(list, k, x), e)
  {
    var r := Put(list, k, x);
    forall i {:trigger r[i]} | 0 <= i < |r|
      ensures r[i] == if i < k then list[i] else if i == k then x else list[i - 1]
    {
    }
  }

  lemma PutContents(list: seq<PubHistory>, k: nat, x: PubHistory)
    requires k <= |list|
    ensures Members(Put(list, k, x)) == Members(list) + {x}
  {
    var r := Put(list, k, x);
    assert r[k] == x;
    forall i | 0 <= i < |list|
      ensures list[i] in r
    {
      assert list[i] == r[if i < k then i else i + 1];
    }
  }

  lemma {:induction false} MembersCount(list: seq<PubHistory>)
    requires NoRepeats(list)
    ensures |Members(list)| == |list|
  {
    if list != [] {
      var front, x := list[..|list| - 1], list[|list| - 1];
      MembersCount(front);
      assert list == Put(front, |front|, x);
      PutContents(front, |front|, x);
    }
  }

  // ---- whole lists ----

  /** The pointers form a list sorted by expiration, entered from both ends. */
  ghost predicate Listing(list: seq<PubHistory>, s: PubHistory?, l: PubHistory?, m: ListPointers, e: Snapshot) {
    Listed(list, s, l, m) && Sorted(list, e)
  }

  lemma ListingAgain(list: seq<PubHistory>, s: PubHistory?, l: PubHistory?, m: ListPointers, m': ListPointers, e: Snapshot, e': Snapshot)
    requires Listing(list, s, l, m, e)
    requires forall y | y in list :: y in m' && y in m && m'[y] == m[y] && y in e && y in e' && e'[y] == e[y]
    ensures Listing(list, s, l, m', e')
  {
    forall i | 0 <= i < |list|
      ensures ChainedAt(list, i, m')
    {
      assert ChainedAt(list, i, m);
    }
  }

  /** The place of a record according to its expiration. */
  ghost predicate Fits(list: seq<PubHistory>, k: nat, x: PubHistory, e: Snapshot) {
    && x !in list && x in e && k <= |list| && (forall i | 0 <= i < |list| :: list[i] in e)
    && (k > 0 ==> Time(e, list[k - 1]) <= Time(e, x)) && (k < |list| ==> Time(e, x) <= Time(e, list[k]))
  }

  lemma PutListing(list: seq<PubHistory>, k: nat, x: PubHistory, all: set<PubHistory>, s: PubHistory?, l: PubHistory?,
                   m: ListPointers, m': ListPointers, e: Snapshot)
    requires Listing(list, s, l, m, e) && Fits(list, k, x, e) && all == Members(list) + {x}
    requires Tied(all, x, Before(list, k), At(list, k), m, m')
    ensures Listing(Put(list, k, x), if k == 0 then x else s, if k == |list| then x else l, m', e)
    ensures Members(Put(list, k, x)) == all
  {
    TiedListed(list, k, x, all, s, l, m, m');
    SortedPut(list, k, x, e);
    PutContents(list, k, x);
  }

  lemma DropListing(list: seq<PubHistory>, k: nat, all: set<PubHistory>, s: PubHistory?, l: PubHistory?,
                    m: ListPointers, m': ListPointers, e: Snapshot)
    requires k < |list|
    requires Listing(list, s, l, m, e) && all == Members(list) && Untied(all, list[k], m, m')
    ensures Listing(Drop(list, k), if k == 0 then At(list, 1) else s, if k == |list| - 1 then Before(list, k) else l, m', e)
    ensures list[k] !in Drop(list, k) && Members(Drop(list, k)) == all - {list[k]}
    ensures m[list[k]] == Ends(Before(list, k), At(list, k + 1))
  {
    UntiedListed(list, k, all, s, l, m, m');
    assert ChainedAt(list, k, m);
    NoRepeatsDrop(list, k);
  }

  /** Where the neighbours of a record are. */
  lemma NeighboursAt(list: seq<PubHistory>, k: nat, s: PubHistory?, l: PubHistory?, m: ListPointers)
    requires k < |list|
    requires Listed(list, s, l, m)
    ensures list[k] in m && m[list[k]].prev == Before(list, k) && m[list[k]].next == At(list, k + 1)
    ensures m[list[k]].prev != list[k] && m[list[k]].next != list[k]
  {
    assert ChainedAt(list, k, m);
  }

  lemma NeighboursIn(list: seq<PubHistory>, k: nat, s: PubHistory?, l: PubHistory?, m: ListPointers, e: Snapshot)
    requires k < |list| && Listing(list, s, l, m, e)
    ensures list[k] in m && m[list[k]].prev == Before(list, k) && m[list[k]].next == At(list, k + 1)
    ensures m[list[k]].prev != list[k] && m[list[k]].next != list[k]
    ensures m[list[k]].prev != null ==> m[list[k]].prev in list
    ensures m[list[k]].next != null ==> m[list[k]].next in list
  {
    NeighboursAt(list, k, s, l, m);
  }
}
