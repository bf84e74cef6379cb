/** The history of publications: records in a search tree and in a list sorted by expiration. */
module PublicationHistory {
  import opened Options
  import opened HistoryTree
  import opened HistoryList
  import opened HistoryModel

  ghost predicate Distinct(s: set<PubHistory>) {
    forall y, z | y in s && z in s && y.id == z.id :: y == z
  }

  ghost function Ids(s: set<PubHistory>): set<Uuid> {
    set x | x in s :: x.id
  }

  /** What records hold, by the id of the publication. */
  ghost function ById(r: Snapshot): Contents {
    if r == map[] then map[] else
      var x :| x in r;
      ById(r - {x})[x.id := r[x].data]
  }

  ghost predicate Means(c: Contents, r: Snapshot) {
    c.Keys == Ids(r.Keys) && forall x | x in r :: x.id in c && c[x.id] == r[x].data
  }

  lemma {:induction false} ByIdMeaning(r: Snapshot)
    requires Distinct(r.Keys)
    ensures Means(ById(r), r)
  {
    if r != map[] {
      var x :| x in r && ById(r) == ById(r - {x})[x.id := r[x].data];
      ByIdMeaning(r - {x});
      MeansUpdated(ById(r - {x}), r - {x}, r, x);
    }
  }

  lemma MeansUpdated(c: Contents, r: Snapshot, r': Snapshot, x: PubHistory)
    requires Distinct(r'.Keys) && r'.Keys == r.Keys + {x} && forall y | y in r && y != x :: r'[y] == r[y]
    requires Means(c, r)
    ensures Means(c[x.id := r'[x].data], r')
  {
    assert Ids(r'.Keys) == Ids(r.Keys) + {x.id};
    forall y | y in r'
      ensures c[x.id := r'[x].data][y.id] == r'[y].data
    {
      if y != x {
        assert y in r && y.id != x.id;
      }
    }
  }

  lemma MeansRemoved(c: Contents, r: Snapshot, r': Snapshot, x: PubHistory)
    requires Distinct(r.Keys) && x in r && r'.Keys == r.Keys - {x} && forall y | y in r' :: r'[y] == r[y]
    requires Means(c, r)
    ensures Means(c - {x.id}, r')
  {
    assert Ids(r'.Keys) == Ids(r.Keys) - {x.id};
    forall y | y in r'
      ensures y.id in c - {x.id}
    {
      assert y in r && y.id != x.id;
    }
  }

  lemma MeansOnce(c: Contents, c': Contents, r: Snapshot)
    requires Means(c, r) && Means(c', r)
    ensures c == c'
  {
  }

  lemma ByIdUpdated(r: Snapshot, r': Snapshot, x: PubHistory)
    requires Distinct(r.Keys) && Distinct(r'.Keys) && r'.Keys == r.Keys + {x}
    requires forall y | y in r && y != x :: r'[y] == r[y]
    ensures ById(r') == ById(r)[x.id := r'[x].data]
  {
    ByIdMeaning(r);
    ByIdMeaning(r');
    MeansUpdated(ById(r), r, r', x);
    MeansOnce(ById(r'), ById(r)[x.id := r'[x].data], r');
  }

  lemma ByIdRemoved(r: Snapshot, r': Snapshot, x: PubHistory)
    requires Distinct(r.Keys) && x in r && r'.Keys == r.Keys - {x} && forall y | y in r' :: r'[y] == r[y]
    ensures Distinct(r'.Keys) && ById(r') == ById(r) - {x.id}
  {
    ByIdMeaning(r);
    ByIdMeaning(r');
    MeansRemoved(ById(r), r, r', x);
    MeansOnce(ById(r'), ById(r) - {x.id}, r');
  }

  /** The record of one publication is updated. */
  lemma UpdatedById(r: Snapshot, r': Snapshot, x: PubHistory, op: Op)
    requires op.Update? && x.id == op.id
    requires Distinct(r.Keys) && Distinct(r'.Keys) && r'.Keys == r.Keys + {x}
    requires forall y | y in r && y != x :: r'[y] == r[y]
    requires r'[x].data == Amended(if x in r then r[x].data else EMPTY, op.sn, op.ackRequested, Expiration(op.now, op.ttl),
                                   op.hopCount, op.addr)
    ensures ById(r') == Apply(ById(r), op)
  {
    ByIdUpdated(r, r', x);
    ByIdMeaning(r);
    if x !in r {
      assert x.id !in Ids(r.Keys);
    }
  }

  lemma {:induction false} IdsCount(s: set<PubHistory>)
    requires Distinct(s)
    ensures |Ids(s)| == |s|
  {
    if s != {} {
      var x :| x in s;
      IdsCount(s - {x});
      assert Ids(s) == Ids(s - {x}) + {x.id};
    }
  }

  lemma ByIdCount(r: Snapshot)
    requires Distinct(r.Keys)
    ensures |ById(r)| == |r|
  {
    IdsCount(r.Keys);
    ByIdMeaning(r);
  }

  class History {
    /** The lowest bit of the last byte of a UUID. */
    const lowBit: Uuid -> bool
    var root: PubHistory?
    var latest: PubHistory?
    var soonest: PubHistory?
    var count: nat

    ghost var tree: Tree
    ghost var list: seq<PubHistory>

    ghost function Records(): set<PubHistory>
      reads `tree
    {
      Nodes(tree)
    }

    ghost predicate TreeValid()
      reads `tree, `root, Nodes(tree)`left, Nodes(tree)`right, Nodes(tree)`parent
    {
      Rooted(tree, root, PointersOf(Nodes(tree)))
    }

    lemma DistinctRecords()
      requires TreeValid()
      ensures Distinct(Records())
    {
      UniqueIds(tree, -1, TOP);
    }

    constructor (lowBit: Uuid -> bool)
      ensures Valid() && Model() == map[]
      ensures this.lowBit == lowBit
    {
      this.lowBit := lowBit;
      root, latest, soonest, count := null, null, null, 0;
      tree, list := Leaf, [];
    }

    // ---- the tree ----

    /** Where the search for an id ends: at the record with that id, or below `parent`. */
    method Search(id: Uuid) returns (curr: PubHistory?, parent: PubHistory?, before: bool)
      requires TreeValid()
      ensures TreeValid()
      ensures curr != null ==> curr in Records() && curr.id == id
      ensures (
        curr == null ==>
          && (forall y | y in Records() :: y.id != id) && parent == InsParent(tree, id, null)
          && (parent != null ==> parent in Records() && before == (id < parent.id))
          && (parent == null ==> tree == Leaf))
    {
      curr, parent, before := root, null, false;
      ghost var sub, lo: int, hi: int := tree, -1, TOP;
      ghost var m := PointersOf(Nodes(tree));
      while curr != null
        invariant Shape(sub, parent, curr, m) && Ordered(sub, lo, hi) && Nodes(sub) <= Nodes(tree)
        invariant forall y | y in Records() && y.id == id :: y in Nodes(sub)
        invariant InsParent(tree, id, null) == InsParent(sub, id, parent)
        invariant parent != null ==> parent in Nodes(tree) && before == (id < parent.id)
        invariant parent == null ==> sub == tree
        decreases sub
      {
        OrderedRange(sub.l, lo, sub.x.id);
        OrderedRange(sub.r, sub.x.id, hi);
        if id == curr.id {
          break;
        }
        before := id < curr.id;
        parent := curr;
        if before {
          hi := curr.id;
          curr := curr.left;
          sub := sub.l;
        } else {
          lo := curr.id;
          curr := curr.right;
          sub := sub.r;
        }
      }
    }

    /** Makes a record the child of a record, or the root. */
    method Attach(add: PubHistory, parent: PubHistory?, before: bool, ghost all: set<PubHistory>)
      requires TreeValid() && all == Nodes(tree) + {add} && add !in Nodes(tree)
      requires parent == InsParent(tree, add.id, null) && (parent == null ==> tree == Leaf)
      requires parent != null ==> parent in Records() && before == (add.id < parent.id)
      requires add.left == null && add.right == null && add.parent == null
      modifies `root, Nodes(tree)`left, Nodes(tree)`right, add`parent
      ensures root == if old(tree) == Leaf then add else old(root)
      ensures Attached(old(tree), add, null, old(PointersOf(all)), PointersOf(all))
    {
      InsParentIn(tree, add.id, null);
      if parent != null {
        if before {
          parent.left := add;
        } else {
          parent.right := add;
        }
        add.parent := parent;
      } else {
        root := add;
      }
    }

    /** Adds a record, or returns the existing one with the same id. */
    method Insert(add: PubHistory) returns (r: PubHistory)
      requires TreeValid() && add !in Records()
      requires add.left == null && add.right == null && add.parent == null
      modifies `root, `tree, Nodes(tree)`left, Nodes(tree)`right, add`parent
      ensures TreeValid()
      ensures r != add ==> r in Records() && r.id == add.id && tree == old(tree)
      ensures r == add ==> Records() == old(Records()) + {add} && forall y | y in old(Records()) :: y.id != add.id
    {
      hide Rooted, Attached, Ins, InsParent;
      var curr, parent, before := Search(add.id);
      if curr != null {
        return curr;
      }
      ghost var t := tree;
      ghost var all := Nodes(t) + {add};
      ghost var m := PointersOf(all);
      RootedAgain(t, root, PointersOf(Nodes(t)), m);
      Attach(add, parent, before, all);
      InsRooted(t, add, old(root), m, PointersOf(all));
      tree := Ins(t, add);
      InsNodes(t, add);
      r := add;
    }

    /** Makes `repl` the child of the parent of `ph`, in the place of `ph`. */
    method Relink(ph: PubHistory, repl: PubHistory?, ghost all: set<PubHistory>)
      requires ph in all && (repl != null ==> repl in all) && (ph.parent != null ==> ph.parent in all)
      modifies `root, all`left, all`right, all`parent
      ensures root == if old(ph.parent) == null then repl else old(root)
      ensures Relinked(all, ph, repl, old(PointersOf(all)), PointersOf(all))
    {
      var parent := ph.parent;
      if repl != null {
        repl.parent := parent;
      }
      if parent != null {
        if parent.left == ph {
          parent.left := repl;
        } else {
          parent.right := repl;
        }
      } else {
        root := repl;
      }
    }

    /** The record that takes the place of one with two children. */
    method FindReplacement(ph: PubHistory) returns (repl: PubHistory)
      requires TreeValid() && ph in Records() && ph.left != null && ph.right != null
      ensures Neighbour(tree, ph, repl) && (repl.left == null || repl.right == null)
      ensures TreeValid()
    {
      ghost var m := PointersOf(Nodes(tree));
      PointersAt(tree, ph, root, m);
      InnerNeighbours(tree, ph, -1, TOP);
      if lowBit(ph.id) {
        repl := ph.left;
        ghost var sub, p := Sub(tree, ph).l, ph;
        while repl.right != null
          invariant Shape(sub, p, repl, m) && Nodes(sub) <= Nodes(tree)
          invariant Rightmost(sub) == Rightmost(Sub(tree, ph).l)
          decreases sub
        {
          p := repl;
          repl := repl.right;
          sub := sub.r;
        }
        PointersAt(tree, repl, root, m);
      } else {
        repl := ph.right;
        ghost var sub, p := Sub(tree, ph).r, ph;
        while repl.left != null
          invariant Shape(sub, p, repl, m) && Nodes(sub) <= Nodes(tree)
          invariant Leftmost(sub) == Leftmost(Sub(tree, ph).r)
          decreases sub
        {
          p := repl;
          repl := repl.left;
          sub := sub.l;
        }
        PointersAt(tree, repl, root, m);
      }
    }

    /** Takes a record with at most one child out of the tree. */
    method RemoveOuter(ph: PubHistory)
      requires TreeValid() && ph in Records() && (ph.left == null || ph.right == null)
      modifies `root, `tree, Nodes(tree)`left, Nodes(tree)`right, Nodes(tree)`parent
      ensures TreeValid()
      ensures Records() == old(Records()) - {ph}
    {
      hide Rooted;
      ghost var all := Nodes(tree);
      ghost var m := PointersOf(all);
      PointersAt(tree, ph, root, m);
      var repl := if ph.left != null then ph.left else ph.right;
      Relink(ph, repl, all);
      RelinkedSpliced(tree, ph, repl, m, PointersOf(all));
      SpliceRooted(tree, ph, old(root), m, PointersOf(all));
      tree := Splice(tree, ph);
      RootedAgain(tree, root, PointersOf(all), PointersOf(Nodes(tree)));
    }

    /** Makes the children of `ph` those of `repl`. */
    method Adopt(ph: PubHistory, repl: PubHistory, ghost all: set<PubHistory>)
      requires ph in all && repl in all
      requires ph != repl && ph.left != repl && ph.right != repl && ph.left != ph && ph.right != ph
      requires ph.left != null ==> ph.left in all
      requires ph.right != null ==> ph.right in all
      modifies all`left, all`right, all`parent
      ensures Adopted(all, ph, repl, old(PointersOf(all)), PointersOf(all))
    {
      repl.left := ph.left;
      repl.right := ph.right;
      if repl.left != null {
        repl.left.parent := repl;
      }
      if repl.right != null {
        repl.right.parent := repl;
      }
    }

    /** Makes all pointers to `ph` point to `repl`, and those of `repl` equal to those of `ph`. */
    method Rewire(ph: PubHistory, repl: PubHistory, ghost all: set<PubHistory>)
      requires TreeValid() && NextTo(tree, ph, repl) && all == Nodes(tree) + {repl}
      modifies `root, all`left, all`right, all`parent
      ensures root == if old(root) == ph then repl else old(root)
      ensures Replaced(old(tree), ph, repl, old(PointersOf(all)), PointersOf(all))
    {
      ghost var m0 := PointersOf(all);
      RootedAgain(tree, root, PointersOf(Nodes(tree)), m0);
      PointersAt(tree, ph, root, m0);
      Adopt(ph, repl, all);
      ghost var m1 := PointersOf(all);
      Relink(ph, repl, all);
      AdoptedAndRelinked(tree, ph, repl, m0, m1, PointersOf(all));
    }

    /** Puts `repl` in the place of `ph`, whose id is next to its own. */
    method Substitute(ph: PubHistory, repl: PubHistory)
      requires TreeValid() && NextTo(tree, ph, repl)
      modifies `root, `tree, Nodes(tree)`left, Nodes(tree)`right, Nodes(tree)`parent, repl`left, repl`right, repl`parent
      ensures TreeValid()
      ensures Records() == old(Records()) - {ph} + {repl}
    {
      hide Rooted;
      ghost var t := tree;
      ghost var all := Nodes(t) + {repl};
      ghost var m := PointersOf(all);
      RootedAgain(t, root, PointersOf(Nodes(t)), m);
      Rewire(ph, repl, all);
      ReplaceRooted(t, ph, repl, old(root), m, PointersOf(all));
      tree := Replace(t, ph, repl);
      RootedAgain(tree, root, PointersOf(all), PointersOf(Nodes(tree)));
    }

    /** Takes a record out of the tree. */
    method Remove(ph: PubHistory)
      requires TreeValid() && ph in Records()
      modifies `root, `tree, Nodes(tree)`left, Nodes(tree)`right, Nodes(tree)`parent
      ensures TreeValid()
      ensures Records() == old(Records()) - {ph}
    {
      hide Rooted;
      if ph.left != null && ph.right != null {
        var repl := FindReplacement(ph);
        DistinctRecords();
        RemoveOuter(repl);
        Substitute(ph, repl);
      } else {
        RemoveOuter(ph);
      }
    }

    // ---- the list ----

    ghost function OnList(): set<PubHistory>
      reads `list
    {
      Members(list)
    }

    ghost predicate Linked()
      reads `list, `soonest, `latest, OnList()`prev, OnList()`next, OnList()`data
    {
      Listing(list, soonest, latest, EndsOf(OnList()), SnapshotOf(OnList()))
    }

    ghost predicate ListValid()
      reads `list, `soonest, `latest, `count, OnList()`prev, OnList()`next, OnList()`data
    {
      Linked() && count == |list|
    }

    /** Links a record before the first in the list. */
    method LinkFirst(ph: PubHistory, ghost all: set<PubHistory>)
      requires ph in all && soonest != null && soonest in all && soonest != ph && ph.next == null && ph.prev == null
      modifies `soonest, all`prev, all`next
      ensures soonest == ph && SnapshotOf(all) == old(SnapshotOf(all))
      ensures Tied(all, ph, null, old(soonest), old(EndsOf(all)), EndsOf(all))
    {
      ph.next := soonest;
      soonest.prev := ph;
      soonest := ph;
    }

    /** Links a record after another one. */
    method LinkAfter(ph: PubHistory, h: PubHistory, ghost all: set<PubHistory>)
      requires ph in all && h in all && h != ph && (h.next != null ==> h.next in all && h.next != ph)
      modifies `latest, all`prev, all`next
      ensures latest == (if old(latest) == h then ph else old(latest)) && SnapshotOf(all) == old(SnapshotOf(all))
      ensures Tied(all, ph, h, old(h.next), old(EndsOf(all)), EndsOf(all))
    {
      ph.prev := h;
      ph.next := h.next;
      if h.next != null {
        h.next.prev := ph;
      }
      h.next := ph;
      if h == latest {
        latest := ph;
      }
    }

    /** The last record that does not expire after `ph`, working back from the latest. */
    method LastBefore(ph: PubHistory) returns (h: PubHistory, ghost k: nat)
      requires ListValid() && list != [] && list[0].data.expiration <= ph.data.expiration
      ensures ListValid() && 0 < k <= |list| && list[k - 1] == h && h.data.expiration <= ph.data.expiration
      ensures forall i | k <= i < |list| :: ph.data.expiration < list[i].data.expiration
    {
      h := latest;
      k := |list|;
      while ph.data.expiration < h.data.expiration
        invariant 0 < k <= |list| && list[k - 1] == h
        invariant forall i | k <= i < |list| :: ph.data.expiration < list[i].data.expiration
        decreases k
      {
        NeighboursAt(list, k - 1, soonest, latest, EndsOf(OnList()));
        h := h.prev;
        k := k - 1;
      }
    }

    /** Links a record after the last one that does not expire later. */
    method LinkLater(ph: PubHistory, ghost all: set<PubHistory>) returns (ghost k: nat)
      requires ListValid() && list != [] && ph !in list && ph.next == null && ph.prev == null && all == OnList() + {ph}
      requires list[0].data.expiration < ph.data.expiration
      modifies `latest, all`prev, all`next
      ensures k > 0 && SnapshotOf(all) == old(SnapshotOf(all)) && Fits(list, k, ph, SnapshotOf(all))
      ensures Tied(all, ph, Before(list, k), At(list, k), old(EndsOf(all)), EndsOf(all))
      ensures latest == if k == |list| then ph else old(latest)
    {
      var h;
      h, k := LastBefore(ph);
      NeighboursAt(list, k - 1, soonest, latest, EndsOf(OnList()));
      LinkAfter(ph, h, all);
    }

    /** Links a record between its neighbours in a list that is not empty. */
    method LinkBetween(ph: PubHistory, ghost all: set<PubHistory>) returns (ghost k: nat)
      requires ListValid() && list != [] && ph !in list && ph.next == null && ph.prev == null && all == OnList() + {ph}
      modifies `soonest, `latest, all`prev, all`next
      ensures SnapshotOf(all) == old(SnapshotOf(all)) && Fits(list, k, ph, SnapshotOf(all))
      ensures Tied(all, ph, Before(list, k), At(list, k), old(EndsOf(all)), EndsOf(all))
      ensures soonest == (if k == 0 then ph else old(soonest)) && latest == if k == |list| then ph else old(latest)
    {
      if ph.data.expiration <= soonest.data.expiration {
        k := 0;
        LinkFirst(ph, all);
      } else {
        k := LinkLater(ph, all);
      }
    }

    ghost method SetList(list': seq<PubHistory>, all: set<PubHistory>)
      requires Members(list') == all && Listing(list', soonest, latest, EndsOf(all), SnapshotOf(all))
      modifies `list
      ensures Linked() && list == list'
    {
      list := list';
    }

    /** Links a record into a list that is not empty. */
    method LinkAmong(ph: PubHistory, ghost all: set<PubHistory>)
      requires ListValid() && list != [] && ph !in list && ph.next == null && ph.prev == null && all == OnList() + {ph}
      modifies `soonest, `latest, `list, all`prev, all`next
      ensures Linked() && OnList() == all && |list| == |old(list)| + 1
    {
      hide Listing;
      ghost var m, e := EndsOf(all), SnapshotOf(all);
      ListingAgain(list, soonest, latest, EndsOf(OnList()), m, SnapshotOf(OnList()), e);
      ghost var k := LinkBetween(ph, all);
      PutListing(list, k, ph, all, old(soonest), old(latest), m, EndsOf(all), e);
      SetList(Put(list, k, ph), all);
    }

    /** Links a record into an empty list. */
    method LinkOnly(ph: PubHistory)
      requires count == 0 && ph.next == null && ph.prev == null
      modifies `soonest, `latest, `count, `list
      ensures ListValid() && list == [ph]
    {
      soonest, latest := ph, ph;
      count := 1;
      list := [ph];
      assert Members(list) == {ph};
    }

    /** Links one more record into a list that is not empty. */
    method LinkMore(ph: PubHistory)
      requires ListValid() && list != [] && ph !in list && ph.next == null && ph.prev == null
      modifies `soonest, `latest, `count, `list, OnList()`prev, OnList()`next, ph`prev, ph`next
      ensures ListValid() && OnList() == old(OnList()) + {ph}
    {
      hide Listing;
      LinkAmong(ph, OnList() + {ph});
      count := count + 1;
    }

    /** Links a record into the list, according to its expiration. */
    method LinkPub(ph: PubHistory)
      requires ListValid() && ph !in list && ph.next == null && ph.prev == null
      modifies `soonest, `latest, `count, `list, OnList()`prev, OnList()`next, ph`prev, ph`next
      ensures ListValid() && OnList() == old(OnList()) + {ph}
    {
      hide Listing;
      if count == 0 {
        LinkOnly(ph);
      } else {
        LinkMore(ph);
      }
    }

    /** Links the neighbours of a record to each other. */
    method Bypass(ph: PubHistory, ghost all: set<PubHistory>)
      requires ph in all && (ph.prev != null ==> ph.prev in all) && (ph.next != null ==> ph.next in all)
      requires ph.prev != ph && ph.next != ph
      modifies `soonest, `latest, all`prev, all`next
      ensures soonest == if old(ph.prev) == null then old(ph.next) else old(soonest)
      ensures latest == if old(ph.next) == null then old(ph.prev) else old(latest)
      ensures ph.prev == ph.next == null && SnapshotOf(all) == old(SnapshotOf(all))
      ensures Untied(all, ph, old(EndsOf(all)), EndsOf(all))
    {
      if ph.prev != null {
        ph.prev.next := ph.next;
      } else {
        soonest := ph.next;
      }
      if ph.next != null {
        ph.next.prev := ph.prev;
      } else {
        latest := ph.prev;
      }
      ph.next := null;
      ph.prev := null;
    }

    /** Takes a record out of the list, but not out of the count. */
    method Extract(ph: PubHistory)
      requires ListValid() && ph in list
      modifies `soonest, `latest, `list, OnList()`prev, OnList()`next
      ensures Linked() && ph !in list && ph.next == null && ph.prev == null
      ensures OnList() == old(OnList()) - {ph} && |list| == |old(list)| - 1
    {
      hide Listing;
      ghost var all := OnList();
      ghost var m, e := EndsOf(all), SnapshotOf(all);
      ghost var k :| 0 <= k < |list| && list[k] == ph;
      NeighboursIn(list, k, soonest, latest, m, e);
      Bypass(ph, all);
      ghost var m' := EndsOf(all);
      DropListing(list, k, all, old(soonest), old(latest), m, m', e);
      ListingAgain(Drop(list, k), soonest, latest, m', EndsOf(all - {ph}), e, SnapshotOf(all - {ph}));
      SetList(Drop(list, k), all - {ph});
    }

    /** Takes a record out of the list. */
    method UnlinkPub(ph: PubHistory)
      requires ListValid() && ph in list
      modifies `soonest, `latest, `count, `list, OnList()`prev, OnList()`next
      ensures ListValid() && ph !in list && ph.next == null && ph.prev == null
      ensures OnList() == old(OnList()) - {ph}
    {
      hide Listing;
      Extract(ph);
      count := count - 1;
    }

    // ---- the history ----

    ghost predicate Valid()
      reads this, Nodes(tree), OnList()
    {
      TreeValid() && ListValid() && OnList() == Records() && Distinct(Records())
    }

    /** What the history stands for. */
    ghost function Model(): Contents
      reads `tree, Nodes(tree)`data
      requires Distinct(Records())
    {
      ById(SnapshotOf(Records()))
    }

    /** Unlinks a record, which stays in the tree. */
    method Unlink(ph: PubHistory, ghost all: set<PubHistory>)
      requires Valid() && ph in Records() && all == Records()
      modifies `soonest, `latest, `count, `list, all`prev, all`next
      ensures TreeValid() && ListValid() && OnList() == all - {ph} && ph.next == null && ph.prev == null
      ensures forall y | y in all :: y.data == old(y.data)
    {
      hide Rooted, Listing;
      UnlinkPub(ph);
    }

    /** Takes an unlinked record out of the tree. */
    method RemoveUnlinked(ph: PubHistory, ghost all: set<PubHistory>)
      requires TreeValid() && ListValid() && OnList() == all - {ph} && ph in all && all == Records()
      modifies `root, `tree, all`left, all`right, all`parent
      ensures TreeValid() && ListValid() && OnList() == Records() == all - {ph}
      ensures forall y | y in all :: y.data == old(y.data)
    {
      hide Rooted, Listing;
      Remove(ph);
    }

    /** Takes a record out of the list and out of the tree. */
    method Detach(ph: PubHistory, ghost all: set<PubHistory>)
      requires Valid() && ph in Records() && all == Records()
      modifies `root, `tree, `soonest, `latest, `count, `list, all`left, all`right, all`parent, all`prev, all`next
      ensures Valid() && Records() == all - {ph}
      ensures forall y | y in all :: y.data == old(y.data)
    {
      hide Rooted, Listing;
      Unlink(ph, all);
      RemoveUnlinked(ph, all);
    }

    /** Takes a record out of the history. */
    method Forget(ph: PubHistory)
      requires Valid() && ph in Records()
      modifies `root, `tree, `soonest, `latest, `count, `list
      modifies Records()`left, Records()`right, Records()`parent, Records()`prev, Records()`next
      ensures Valid() && Records() == old(Records()) - {ph}
      ensures Model() == old(Model()) - {ph.id}
    {
      hide Rooted, Listing;
      ghost var r := SnapshotOf(Records());
      Detach(ph, Records());
      ghost var r' := SnapshotOf(Records());
      assert r'.Keys == r.Keys - {ph} && forall y | y in r' :: r'[y] == r[y];
      ByIdRemoved(r, r', ph);
    }

    method Find(id: Uuid) returns (curr: PubHistory?)
      requires Valid()
      ensures Valid() && Model() == old(Model()) && (curr != null <==> id in Model())
      ensures curr != null ==> curr in Records() && curr.id == id && Model()[id] == curr.data
    {
      curr := root;
      ghost var sub, p: PubHistory?, lo: int, hi: int := tree, null, -1, TOP;
      ghost var m := PointersOf(Nodes(tree));
      while curr != null
        invariant Shape(sub, p, curr, m) && Ordered(sub, lo, hi) && Nodes(sub) <= Nodes(tree)
        invariant forall y | y in Records() && y.id == id :: y in Nodes(sub)
        invariant Valid() && Model() == old(Model())
        decreases sub
      {
        OrderedRange(sub.l, lo, sub.x.id);
        OrderedRange(sub.r, sub.x.id, hi);
        if id == curr.id {
          break;
        }
        p := curr;
        if id < curr.id {
          hi := curr.id;
          curr := curr.left;
          sub := sub.l;
        } else {
          lo := curr.id;
          curr := curr.right;
          sub := sub.r;
        }
      }
      ByIdMeaning(SnapshotOf(Records()));
    }

    method PublicationIsStale(id: Uuid, sn: nat) returns (stale: bool)
      requires Valid()
      ensures stale == IsStale(Model(), id, sn)
    {
      hide Rooted, Listing;
      stale := false;
      var ph := Find(id);
      if ph != null && sn <= ph.data.sn {
        stale := true;
      }
    }

    method PublicationReceivedFrom(id: Uuid, sn: nat, source: nat, destination: nat) returns (received: bool)
      requires Valid()
      ensures received == (source == destination || CameFrom(Model(), id, sn, destination))
    {
      hide Rooted, Listing;
      if source == destination {
        return true;
      }
      received := false;
      var ph := Find(id);
      if ph != null {
        for i := 0 to |ph.data.addrs|
          invariant forall j | 0 <= j < i :: !(sn <= ph.data.addrs[j].sn && ph.data.addrs[j].addr == destination)
        {
          if sn <= ph.data.addrs[i].sn && ph.data.addrs[i].addr == destination {
            return true;
          }
        }
      }
    }

    method DeletePubHistory(id: Uuid) returns (found: bool)
      requires Valid()
      modifies `root, `tree, `soonest, `latest, `count, `list
      modifies Records()`left, Records()`right, Records()`parent, Records()`prev, Records()`next
      ensures Valid() && Model() == Apply(old(Model()), Delete(id))
      ensures found == (id in old(Model()))
    {
      hide Rooted, Listing;
      var ph := Find(id);
      if ph == null {
        assert Model() - {id} == Model();
        return false;
      }
      Forget(ph);
      found := true;
    }

    /** Notes that a publication came from an address. */
    method NoteAddr(ph: PubHistory, addr: nat, sn: nat, hopCount: nat)
      modifies ph`data
      ensures ph.data == old(ph.data).(addrs := Noted(old(ph.data.addrs), addr, sn, hopCount))
    {
      var addrs := ph.data.addrs;
      var i := 0;
      while i < |addrs|
        invariant i <= |addrs| && forall j | 0 <= j < i :: addrs[j].addr != addr
      {
        if addrs[i].addr == addr {
          break;
        }
        i := i + 1;
      }
      NotedFrom(addrs, i, addr, sn, hopCount);
      if i == |addrs| {
        addrs := addrs + [AddrEntry(addr, 0, hopCount)];
      }
      var e := addrs[i];
      addrs := addrs[i := AddrEntry(e.addr, Max(e.sn, sn), Min(e.hopCount, hopCount))];
      ph.data := ph.data.(addrs := addrs);
    }

    lemma CountIsSize()
      requires Valid()
      ensures count == |Model()|
    {
      var r := SnapshotOf(Records());
      MembersCount(list);
      assert r.Keys == Members(list);
      ByIdCount(r);
    }

    /** The first record of the list is the first to expire. */
    lemma SoonestFirst()
      requires Valid()
      ensures soonest == null ==> Model() == map[]
      ensures soonest != null ==> soonest in Records() && soonest.id in Model() && Model()[soonest.id] == soonest.data
      ensures soonest != null ==> forall id | id in Model() :: soonest.data.expiration <= Model()[id].expiration
    {
      var r := SnapshotOf(Records());
      if soonest == null {
        assert r == map[];
      } else {
        ByIdMeaning(r);
        forall y | y in r
          ensures soonest.data.expiration <= r[y].data.expiration
        {
          var i :| 0 <= i < |list| && list[i] == y;
        }
      }
    }

    method FreshenHistory(now: nat)
      requires Valid()
      modifies `root, `tree, `soonest, `latest, `count, `list
      modifies Records()`left, Records()`right, Records()`parent, Records()`prev, Records()`next
      ensures Valid() && Model() == Apply(old(Model()), Freshen(now))
      ensures forall id :: id in Model() <==>
        id in old(Model()) && (|old(Model())| <= 10 || now < old(Model())[id].expiration)
    {
      hide Rooted, Listing;
      CountIsSize();
      if count > HISTORY_THRESHOLD {
        while soonest != null
          invariant Valid() && Records() <= old(Records())
          invariant Unexpired(Model(), now) == Unexpired(old(Model()), now)
          decreases Records()
        {
          SoonestFirst();
          var ph := soonest;
          if now < ph.data.expiration {
            break;
          }
          UnexpiredRemoved(Model(), ph.id, now);
          Forget(ph);
        }
        SoonestFirst();
        NothingExpired(Model(), now);
      }
    }

    /** Adds a record to the tree, or returns the existing one with the same id. */
    method InsertUnlinked(add: PubHistory, ghost all: set<PubHistory>) returns (ph: PubHistory)
      requires Valid() && all == Records() && add !in all && add.left == null && add.right == null && add.parent == null
      modifies `root, `tree, all`left, all`right, add`parent
      ensures TreeValid() && ListValid() && OnList() == all && Records() == all + {ph} && ph.id == add.id
      ensures ph == add || ph in all
      ensures forall y | y in all :: y.data == old(y.data)
    {
      hide Rooted, Listing;
      ph := Insert(add);
    }

    /** Unlinks a record that existed before. */
    method UnlinkOld(ph: PubHistory, isOld: bool, ghost all: set<PubHistory>)
      requires TreeValid() && ListValid() && Records() == all && ph in all && OnList() == if isOld then all else all - {ph}
      requires !isOld ==> ph.next == null && ph.prev == null
      modifies `soonest, `latest, `count, `list, all`prev, all`next
      ensures TreeValid() && ListValid() && OnList() == all - {ph} && ph.next == null && ph.prev == null
      ensures forall y | y in all :: y.data == old(y.data)
    {
      if isOld {
        DistinctRecords();
        Unlink(ph, all);
      }
    }

    /** The record of a publication, new or unlinked from the list. */
    method Enlist(add: PubHistory, ghost all: set<PubHistory>) returns (ph: PubHistory)
      requires Valid() && all == Records() && add !in all && add.left == null && add.right == null && add.parent == null
      requires add.prev == null && add.next == null
      modifies this, all, add
      ensures TreeValid() && ListValid() && OnList() == all + {ph} - {ph} && Records() == all + {ph}
      ensures (ph == add || ph in all) && ph.id == add.id && ph.prev == null && ph.next == null
      ensures forall y | y in all + {add} :: y.data == old(y.data)
    {
      hide Rooted, Listing;
      ph := InsertUnlinked(add, all);
      UnlinkOld(ph, ph != add, all + {ph});
    }

    /** Links the updated record into the list. */
    method Relist(ph: PubHistory, ghost all: set<PubHistory>)
      requires TreeValid() && ListValid() && Distinct(all) && Records() == all && OnList() == all - {ph} && ph in all
      requires ph.prev == null && ph.next == null
      modifies `soonest, `latest, `count, `list, all`prev, all`next
      ensures Valid() && Records() == all
      ensures forall y | y in all :: y.data == old(y.data)
    {
      hide Rooted, Listing;
      LinkPub(ph);
    }

    /** Brings a record up to date. */
    method Amend(ph: PubHistory, sn: nat, ackRequested: bool, expiration: nat, hopCount: nat, addr: Option<nat>,
                 ghost all: set<PubHistory>)
      modifies ph`data
      ensures ph.data == Amended(old(ph.data), sn, ackRequested, expiration, hopCount, addr)
      ensures forall y | y in all && y != ph :: y.data == old(y.data)
    {
      ph.data := ph.data.(sn := Max(ph.data.sn, sn));
      ph.data := ph.data.(ackRequested := ackRequested);
      if addr.Some? {
        NoteAddr(ph, addr.value, sn, hopCount);
      }
      ph.data := ph.data.(expiration := expiration);
    }

    /** Brings a record up to date and links it into the list. */
    method Renew(ph: PubHistory, sn: nat, ackRequested: bool, expiration: nat, hopCount: nat, addr: Option<nat>,
                 ghost all: set<PubHistory>)
      requires TreeValid() && ListValid() && Distinct(all) && Records() == all && OnList() == all - {ph} && ph in all
      requires ph.prev == null && ph.next == null
      modifies `soonest, `latest, `count, `list, all`prev, all`next, ph`data
      ensures Valid() && Records() == all
      ensures ph.data == Amended(old(ph.data), sn, ackRequested, expiration, hopCount, addr)
      ensures forall y | y in all && y != ph :: y.data == old(y.data)
    {
      hide Rooted, Listing;
      Amend(ph, sn, ackRequested, expiration, hopCount, addr, all);
      Relist(ph, all);
    }

    /** Inserts a record or finds the existing one, brings it up to date and links it into the list. */
    method Upsert(add: PubHistory, sn: nat, ackRequested: bool, expiration: nat, hopCount: nat, addr: Option<nat>)
      returns (ph: PubHistory)
      requires Valid() && add !in Records() && add.left == null && add.right == null && add.parent == null
      requires add.prev == null && add.next == null
      modifies this, Records(), add
      ensures Valid() && Records() == old(Records()) + {ph} && ph.id == add.id && (ph == add || ph in old(Records()))
      ensures ph.data == Amended(old(ph.data), sn, ackRequested, expiration, hopCount, addr)
      ensures forall y | y in old(Records()) && y != ph :: y.data == old(y.data)
    {
      hide Rooted, Listing;
      ph := Enlist(add, Records());
      DistinctRecords();
      Renew(ph, sn, ackRequested, expiration, hopCount, addr, Records());
    }

    /** Does an update, with a new record for the case that there is none. */
    method Update(add: PubHistory, sn: nat, ackRequested: bool, ttl: nat, hopCount: nat, addr: Option<nat>, now: nat)
      requires Valid() && add !in Records() && add.left == null && add.right == null && add.parent == null
      requires add.prev == null && add.next == null && add.data == EMPTY
      modifies this, Records(), add
      ensures Valid() && Records() <= old(Records()) + {add}
      ensures Model() == Apply(old(Model()), Op.Update(add.id, sn, ackRequested, ttl, hopCount, addr, now))
    {
      hide Rooted, Listing;
      ghost var r := SnapshotOf(Records());
      var ph := Upsert(add, sn, ackRequested, Expiration(now, ttl), hopCount, addr);
      ghost var r' := SnapshotOf(Records());
      assert r'.Keys == r.Keys + {ph} && forall y | y in r && y != ph :: r'[y] == r[y];
      assert r'[ph].data == Amended(if ph in r then r[ph].data else EMPTY, sn, ackRequested, Expiration(now, ttl), hopCount, addr);
      UpdatedById(r, r', ph, Op.Update(add.id, sn, ackRequested, ttl, hopCount, addr, now));
    }

    method UpdatePubHistory(id: Uuid, sn: nat, ackRequested: bool, ttl: nat, hopCount: nat, addr: Option<nat>, now: nat)
      requires Valid()
      modifies this, Records()
      ensures Valid() && fresh(Records() - old(Records()))
      ensures Model() == Apply(old(Model()), Op.Update(id, sn, ackRequested, ttl, hopCount, addr, now))
      ensures id in Model() && sn <= Model()[id].sn && Model()[id].expiration == now + 1000 * ttl + 10000
    {
      hide Rooted, Listing;
      var add := new PubHistory(id);
      Update(add, sn, ackRequested, ttl, hopCount, addr, now);
    }
  }
}
