/** The binary search tree of publication histories: its shape in memory and what each change does to it. */
module HistoryTree {

  const ID_LIMIT: nat := 0x1_0000_0000_0000_0000_0000_0000_0000_0000

  /** A UUID, by its rank in the order of comparison. */
  type Uuid = n: nat | n < ID_LIMIT

  datatype AddrEntry = AddrEntry(addr: nat, sn: nat, hopCount: nat)

  /** What a history record holds: the sequence number and expiration, and the nodes the publication came from. */
  datatype Rec = Rec(sn: nat, ackRequested: bool, addrs: seq<AddrEntry>, expiration: nat)

  const EMPTY: Rec := Rec(0, false, [], 0)

  /** A history record, linked both into the tree and into the list sorted by expiration. */
  class PubHistory {
    const id: Uuid
    var data: Rec
    var left: PubHistory?
    var right: PubHistory?
    var parent: PubHistory?
    var prev: PubHistory?
    var next: PubHistory?

    constructor (id: Uuid)
      ensures this.id == id && data == EMPTY
      ensures left == null && right == null && parent == null && prev == null && next == null
    {
      this.id, data := id, EMPTY;
      left, right, parent, prev, next := null, null, null, null, null;
    }
  }

  datatype Tree = Leaf | Node(l: Tree, x: PubHistory, r: Tree)

  ghost function Nodes(t: Tree): set<PubHistory> {
    match t
    case Leaf => {}
    case Node(l, x, r) => Nodes(l) + {x} + Nodes(r)
  }

  /** The fields of a record that one view of it shows; the others are blank. */
  datatype Cell = Cell(left: PubHistory?, right: PubHistory?, parent: PubHistory?, prev: PubHistory?, next: PubHistory?, data: Rec)

  const BLANK: Cell := Cell(null, null, null, null, null, EMPTY)

  function Links(left: PubHistory?, right: PubHistory?, parent: PubHistory?): Cell {
    BLANK.(left := left, right := right, parent := parent)
  }

  /** The tree pointers of some records. */
  type Pointers = map<PubHistory, Cell>

  ghost function PointersOf(s: set<PubHistory>): Pointers
    reads s`left, s`right, s`parent
  {
    map x | x in s :: if x in s then Links(x.left, x.right, x.parent) else BLANK
  }

  /** The pointers form tree `t`, entered from `n` with parent `p`. */
  ghost predicate Shape(t: Tree, p: PubHistory?, n: PubHistory?, m: Pointers) {
    match t
    case Leaf => n == null
    case Node(l, x, r) =>
      && n == x && x in m && m[x].parent == p
      && Shape(l, x, m[x].left, m) && Shape(r, x, m[x].right, m)
  }

  /** A search tree with all ids strictly between two bounds. */
  ghost predicate Ordered(t: Tree, lo: int, hi: int) {
    match t
    case Leaf => true
    case Node(l, x, r) => lo < x.id < hi && Ordered(l, lo, x.id) && Ordered(r, x.id, hi)
  }

  lemma {:induction false} OrderedRange(t: Tree, lo: int, hi: int)
    requires Ordered(t, lo, hi)
    ensures forall y | y in Nodes(t) :: lo < y.id < hi
  {
    match t
    case Leaf =>
    case Node(l, x, r) =>
      OrderedRange(l, lo, x.id);
      OrderedRange(r, x.id, hi);
  }

  lemma {:induction false} UniqueIds(t: Tree, lo: int, hi: int)
    requires Ordered(t, lo, hi)
    ensures forall y, z | y in Nodes(t) && z in Nodes(t) && y.id == z.id :: y == z
  {
    match t
    case Leaf =>
    case Node(l, x, r) =>
      OrderedRange(l, lo, x.id);
      OrderedRange(r, x.id, hi);
      UniqueIds(l, lo, x.id);
      UniqueIds(r, x.id, hi);
  }

  // ---- insertion ----

  ghost function Ins(t: Tree, add: PubHistory): Tree {
    match t
    case Leaf => Node(Leaf, add, Leaf)
    case Node(l, x, r) => if add.id < x.id then Node(Ins(l, add), x, r) else Node(l, x, Ins(r, add))
  }

  /** The node below which the search for an id ends. */
  ghost function InsParent(t: Tree, id: nat, p: PubHistory?): PubHistory? {
    match t
    case Leaf => p
    case Node(l, x, r) => if id < x.id then InsParent(l, id, x) else InsParent(r, id, x)
  }

  lemma {:induction false} InsNodes(t: Tree, add: PubHistory)
    ensures Nodes(Ins(t, add)) == Nodes(t) + {add}
  {
    match t
    case Leaf =>
    case Node(l, x, r) =>
      InsNodes(l, add);
      InsNodes(r, add);
  }

  lemma {:induction false} InsOrdered(t: Tree, add: PubHistory, lo: int, hi: int)
    requires Ordered(t, lo, hi) && lo < add.id < hi
    requires forall y | y in Nodes(t) :: y.id != add.id
    ensures Ordered(Ins(t, add), lo, hi)
  {
    match t
    case Leaf =>
    case Node(l, x, r) =>
      if add.id < x.id {
        InsOrdered(l, add, lo, x.id);
      } else {
        InsOrdered(r, add, x.id, hi);
      }
  }

  lemma {:induction false} InsParentIn(t: Tree, id: nat, p: PubHistory?)
    ensures InsParent(t, id, p) == p || InsParent(t, id, p) in Nodes(t)
    ensures t != Leaf ==> InsParent(t, id, p) != null && InsParent(t, id, p) in Nodes(t)
  {
    match t
    case Leaf =>
    case Node(l, x, r) =>
      InsParentIn(l, id, x);
      InsParentIn(r, id, x);
  }

  // ---- removal ----

  /** The subtree at a node. */
  ghost function Sub(t: Tree, x: PubHistory): Tree {
    match t
    case Leaf => Leaf
    case Node(l, y, r) => if y == x then t else if x.id < y.id then Sub(l, x) else Sub(r, x)
  }

  lemma {:induction false} SubAt(t: Tree, x: PubHistory, lo: int, hi: int)
    requires Ordered(t, lo, hi) && x in Nodes(t)
    ensures Sub(t, x).Node? && Sub(t, x).x == x && Nodes(Sub(t, x)) <= Nodes(t)
    ensures Ordered(Sub(t, x), lo, hi)
  {
    var Node(l, y, r) := t;
    if y != x {
      OrderedRange(l, lo, y.id);
      OrderedRange(r, y.id, hi);
      if x.id < y.id {
        SubAt(l, x, lo, y.id);
        Widen(Sub(l, x), lo, y.id, lo, hi);
      } else {
        SubAt(r, x, y.id, hi);
        Widen(Sub(r, x), y.id, hi, lo, hi);
      }
    }
  }

  lemma {:induction false} Widen(t: Tree, lo: int, hi: int, lo': int, hi': int)
    requires Ordered(t, lo, hi) && lo' <= lo && hi <= hi'
    ensures Ordered(t, lo', hi')
  {
    match t
    case Leaf =>
    case Node(l, x, r) =>
      Widen(l, lo, x.id, lo', x.id);
      Widen(r, x.id, hi, x.id, hi');
  }

  /** The pointers of a subtree have the shape of that subtree, and its parent is in the tree. */
  lemma {:induction false} SubShape(t: Tree, x: PubHistory, p: PubHistory?, n: PubHistory?, m: Pointers, lo: int, hi: int)
    requires Ordered(t, lo, hi) && x in Nodes(t) && Shape(t, p, n, m)
    ensures x in m && Shape(Sub(t, x), m[x].parent, x, m)
    ensures x != n ==> m[x].parent != null && m[x].parent in Nodes(t)
    ensures x == n ==> m[x].parent == p
  {
    var Node(l, y, r) := t;
    OrderedRange(l, lo, y.id);
    OrderedRange(r, y.id, hi);
    if y != x {
      if x.id < y.id {
        SubShape(l, x, y, m[y].left, m, lo, y.id);
      } else {
        SubShape(r, x, y, m[y].right, m, y.id, hi);
      }
    }
  }

  ghost predicate AtMostOneChild(t: Tree) {
    t.Node? && (t.l == Leaf || t.r == Leaf)
  }

  ghost function OnlyChild(t: Tree): Tree
    requires AtMostOneChild(t)
  {
    if t.l == Leaf then t.r else t.l
  }

  /** The tree without a node that has at most one child. */
  ghost function Splice(t: Tree, x: PubHistory): Tree {
    match t
    case Leaf => Leaf
    case Node(l, y, r) =>
      if y == x then (if l == Leaf then r else l)
      else if x.id < y.id then Node(Splice(l, x), y, r) else Node(l, y, Splice(r, x))
  }

  lemma {:induction false} SpliceOrdered(t: Tree, x: PubHistory, lo: int, hi: int)
    requires Ordered(t, lo, hi) && x in Nodes(t) && AtMostOneChild(Sub(t, x))
    ensures Ordered(Splice(t, x), lo, hi)
    ensures Nodes(Splice(t, x)) == Nodes(t) - {x}
  {
    var Node(l, y, r) := t;
    OrderedRange(l, lo, y.id);
    OrderedRange(r, y.id, hi);
    if y == x {
      Widen(l, lo, x.id, lo, hi);
      Widen(r, x.id, hi, lo, hi);
    } else if x.id < y.id {
      SpliceOrdered(l, x, lo, y.id);
    } else {
      SpliceOrdered(r, x, y.id, hi);
    }
  }

  /** The tree with another node in the place of `x`. */
  ghost function Replace(t: Tree, x: PubHistory, z: PubHistory): Tree {
    match t
    case Leaf => Leaf
    case Node(l, y, r) =>
      if y == x then Node(l, z, r)
      else if x.id < y.id then Node(Replace(l, x, z), y, r) else Node(l, y, Replace(r, x, z))
  }

  /** A node whose id is next to that of `x` can take its place. */
  lemma {:induction false} ReplaceOrdered(t: Tree, x: PubHistory, z: PubHistory, lo: int, hi: int)
    requires Ordered(t, lo, hi) && x in Nodes(t) && lo < z.id < hi
    requires forall y | y in Nodes(t) :: y.id != z.id && (y != x ==> (y.id < x.id <==> y.id < z.id))
    ensures Ordered(Replace(t, x, z), lo, hi)
    ensures Nodes(Replace(t, x, z)) == Nodes(t) - {x} + {z}
  {
    var Node(l, y, r) := t;
    OrderedRange(l, lo, y.id);
    OrderedRange(r, y.id, hi);
    if y == x {
      Rebound(l, lo, x.id, lo, z.id);
      Rebound(r, x.id, hi, z.id, hi);
    } else if x.id < y.id {
      ReplaceOrdered(l, x, z, lo, y.id);
    } else {
      ReplaceOrdered(r, x, z, y.id, hi);
    }
  }

  lemma {:induction false} Rebound(t: Tree, lo: int, hi: int, lo': int, hi': int)
    requires Ordered(t, lo, hi) && forall y | y in Nodes(t) :: lo' < y.id < hi'
    ensures Ordered(t, lo', hi')
  {
    match t
    case Leaf =>
    case Node(l, x, r) =>
      Rebound(l, lo, x.id, lo', x.id) by { OrderedRange(l, lo, x.id); }
      Rebound(r, x.id, hi, x.id, hi') by { OrderedRange(r, x.id, hi); }
  }

  ghost function Rightmost(t: Tree): PubHistory
    requires t.Node?
  {
    if t.r == Leaf then t.x else Rightmost(t.r)
  }

  ghost function Leftmost(t: Tree): PubHistory
    requires t.Node?
  {
    if t.l == Leaf then t.x else Leftmost(t.l)
  }

  lemma {:induction false} RightmostIsLast(t: Tree, lo: int, hi: int)
    requires t.Node? && Ordered(t, lo, hi)
    ensures Rightmost(t) in Nodes(t) && (forall y | y in Nodes(t) :: y.id <= Rightmost(t).id)
    ensures Sub(t, Rightmost(t)).Node? && Sub(t, Rightmost(t)).r == Leaf
  {
    OrderedRange(t.l, lo, t.x.id);
    if t.r != Leaf {
      RightmostIsLast(t.r, t.x.id, hi);
      OrderedRange(t.r, t.x.id, hi);
    }
  }

  lemma {:induction false} LeftmostIsFirst(t: Tree, lo: int, hi: int)
    requires t.Node? && Ordered(t, lo, hi)
    ensures Leftmost(t) in Nodes(t) && (forall y | y in Nodes(t) :: y.id >= Leftmost(t).id)
    ensures Sub(t, Leftmost(t)).Node? && Sub(t, Leftmost(t)).l == Leaf
  {
    OrderedRange(t.r, t.x.id, hi);
    if t.l != Leaf {
      LeftmostIsFirst(t.l, lo, t.x.id);
      OrderedRange(t.l, lo, t.x.id);
    }
  }

  /** The neighbour of `x` in id order that is chosen to replace it. */
  ghost predicate Neighbour(t: Tree, x: PubHistory, z: PubHistory) {
    && z in Nodes(t) && z != x && AtMostOneChild(Sub(t, z))
    && forall y | y in Nodes(t) && y != x && y != z :: y.id != z.id && (y.id < x.id <==> y.id < z.id)
  }

  lemma RootNeighbours(t: Tree, lo: int, hi: int)
    requires Ordered(t, lo, hi) && t.Node? && t.l != Leaf && t.r != Leaf
    ensures Neighbour(t, t.x, Rightmost(t.l)) && Neighbour(t, t.x, Leftmost(t.r))
  {
    var Node(l, x, r) := t;
    OrderedRange(l, lo, x.id);
    OrderedRange(r, x.id, hi);
    UniqueIds(t, lo, hi);
    RightmostIsLast(l, lo, x.id);
    LeftmostIsFirst(r, x.id, hi);
    SubAt(l, Rightmost(l), lo, x.id);
    SubAt(r, Leftmost(r), x.id, hi);
  }

  /** What lies on the other side of the root does not come between two neighbours. */
  lemma FarNeighbour(t: Tree, x: PubHistory, z: PubHistory, lo: int, hi: int)
    requires Ordered(t, lo, hi) && t.Node? && x != t.x && x in Nodes(t)
    requires Neighbour(if x.id < t.x.id then t.l else t.r, x, z)
    ensures Neighbour(t, x, z)
  {
    OrderedRange(t.l, lo, t.x.id);
    OrderedRange(t.r, t.x.id, hi);
  }

  lemma {:induction false} InnerNeighbours(t: Tree, x: PubHistory, lo: int, hi: int)
    requires Ordered(t, lo, hi) && x in Nodes(t)
    requires Sub(t, x).Node? && Sub(t, x).l != Leaf && Sub(t, x).r != Leaf
    ensures Neighbour(t, x, Rightmost(Sub(t, x).l))
    ensures Neighbour(t, x, Leftmost(Sub(t, x).r))
  {
    hide Rightmost, Leftmost, Neighbour;
    var Node(l, y, r) := t;
    if y == x {
      RootNeighbours(t, lo, hi);
    } else {
      OrderedRange(l, lo, y.id);
      OrderedRange(r, y.id, hi);
      var side := if x.id < y.id then l else r;
      InnerNeighbours(side, x, if x.id < y.id then lo else y.id, if x.id < y.id then y.id else hi);
      FarNeighbour(t, x, Rightmost(Sub(t, x).l), lo, hi);
      FarNeighbour(t, x, Leftmost(Sub(t, x).r), lo, hi);
    }
  }

  // ---- what pointer writes do to the shape ----

  ghost function RootOf(t: Tree): PubHistory? {
    if t == Leaf then null else t.x
  }

  /** All records of a tree have pointers in both of two states. */
  ghost predicate Known(t: Tree, m: Pointers, m': Pointers) {
    Nodes(t) <= m.Keys && Nodes(t) <= m'.Keys
  }

  lemma {:induction false} ShapeKnown(t: Tree, p: PubHistory?, n: PubHistory?, m: Pointers)
    requires Shape(t, p, n, m)
    ensures Nodes(t) <= m.Keys && n == RootOf(t)
  {
    match t
    case Leaf =>
    case Node(l, x, r) =>
      ShapeKnown(l, x, m[x].left, m);
      ShapeKnown(r, x, m[x].right, m);
  }

  /** A tree none of whose pointers changed keeps its shape. */
  lemma {:induction false} Untouched(t: Tree, p: PubHistory?, n: PubHistory?, m: Pointers, m': Pointers)
    requires Shape(t, p, n, m) && Known(t, m, m') && forall y | y in Nodes(t) :: m'[y] == m[y]
    ensures Shape(t, p, n, m')
  {
    match t
    case Leaf =>
    case Node(l, x, r) =>
      Untouched(l, x, m[x].left, m, m');
      Untouched(r, x, m[x].right, m, m');
  }

  /** A tree keeps its shape when only the parent of its root changed. */
  lemma Reparented(t: Tree, p: PubHistory?, p': PubHistory?, n: PubHistory?, m: Pointers, m': Pointers, lo: int, hi: int)
    requires Shape(t, p, n, m) && Ordered(t, lo, hi) && Known(t, m, m')
    requires forall y | y in Nodes(t) :: m'[y] == if y == n then m[y].(parent := p') else m[y]
    ensures Shape(t, p', n, m')
  {
    match t
    case Leaf =>
    case Node(l, x, r) =>
      OrderedRange(l, lo, x.id);
      OrderedRange(r, x.id, hi);
      Untouched(l, x, m[x].left, m, m');
      Untouched(r, x, m[x].right, m, m');
  }

  /** The pointers of a record after a child of it has been exchanged. */
  ghost function WithChild(k: Cell, onLeft: bool, c: PubHistory?): Cell {
    if onLeft then k.(left := c) else k.(right := c)
  }

  /** Attaching a leaf below the record where the search for its id ends. */
  ghost predicate Attached(t: Tree, add: PubHistory, p: PubHistory?, m: Pointers, m': Pointers) {
    && Known(t, m, m') && add in m'
    && m'[add] == Links(null, null, InsParent(t, add.id, p))
    && forall y | y in Nodes(t) ::
         m'[y] == if y == InsParent(t, add.id, p) then WithChild(m[y], add.id < y.id, add) else m[y]
  }

  lemma {:induction false} InsShape(t: Tree, add: PubHistory, p: PubHistory?, n: PubHistory?, m: Pointers, m': Pointers,
                                    lo: int, hi: int)
    requires Shape(t, p, n, m) && Ordered(t, lo, hi)
    requires add !in Nodes(t) && (p == null || p !in Nodes(t)) && Attached(t, add, p, m, m')
    ensures Shape(Ins(t, add), p, if t == Leaf then add else n, m')
  {
    match t
    case Leaf =>
    case Node(l, x, r) =>
      OrderedRange(l, lo, x.id);
      OrderedRange(r, x.id, hi);
      if add.id < x.id {
        InsParentIn(l, add.id, x);
        InsShape(l, add, x, m[x].left, m, m', lo, x.id);
        Untouched(r, x, m[x].right, m, m');
      } else {
        InsParentIn(r, add.id, x);
        InsShape(r, add, x, m[x].right, m, m', x.id, hi);
        Untouched(l, x, m[x].left, m, m');
      }
  }

  /** Moving the only child `c` of `x` up: its parent becomes that of `x`, whose child it becomes. */
  ghost predicate Spliced(t: Tree, x: PubHistory, c: PubHistory?, m: Pointers, m': Pointers)
    requires x in m
  {
    && Known(t, m, m')
    && forall y | y in Nodes(t) ::
         var k := if y == c then m[y].(parent := m[x].parent) else m[y];
         m'[y] == if y == m[x].parent then WithChild(k, m[y].left == x, c) else k
  }

  lemma SpliceRoot(t: Tree, p: PubHistory?, m: Pointers, m': Pointers, lo: int, hi: int)
    requires AtMostOneChild(t) && Shape(t, p, t.x, m) && Ordered(t, lo, hi) && (p == null || p !in Nodes(t))
    requires Spliced(t, t.x, RootOf(OnlyChild(t)), m, m')
    ensures Shape(OnlyChild(t), p, RootOf(OnlyChild(t)), m')
  {
    var Node(l, x, r) := t;
    OrderedRange(l, lo, x.id);
    OrderedRange(r, x.id, hi);
    ShapeKnown(l, x, m[x].left, m);
    ShapeKnown(r, x, m[x].right, m);
    Reparented(l, x, p, m[x].left, m, m', lo, x.id);
    Reparented(r, x, p, m[x].right, m, m', x.id, hi);
  }

  lemma {:induction false} SpliceShape(t: Tree, x: PubHistory, p: PubHistory?, n: PubHistory?, m: Pointers, m': Pointers,
                                       lo: int, hi: int)
    requires Shape(t, p, n, m) && Ordered(t, lo, hi)
    requires x in Nodes(t) && AtMostOneChild(Sub(t, x)) && (p == null || p !in Nodes(t))
    requires x in m && Spliced(t, x, RootOf(OnlyChild(Sub(t, x))), m, m')
    ensures Shape(Splice(t, x), p, if n == x then RootOf(OnlyChild(Sub(t, x))) else n, m')
    decreases t, 1
  {
    hide Spliced;
    if t.x == x {
      SpliceRoot(t, p, m, m', lo, hi);
    } else if x.id < t.x.id {
      SpliceLeft(t, x, p, n, m, m', lo, hi);
    } else {
      SpliceRight(t, x, p, n, m, m', lo, hi);
    }
  }

  lemma {:induction false} SpliceLeft(t: Tree, x: PubHistory, p: PubHistory?, n: PubHistory?, m: Pointers, m': Pointers,
                                      lo: int, hi: int)
    requires Shape(t, p, n, m) && Ordered(t, lo, hi)
    requires x in Nodes(t) && AtMostOneChild(Sub(t, x)) && (p == null || p !in Nodes(t))
    requires x in m && Spliced(t, x, RootOf(OnlyChild(Sub(t, x))), m, m') && x.id < t.x.id
    ensures Shape(Splice(t, x), p, n, m')
    decreases t, 0
  {
    hide Spliced;
    var Node(l, y, r) := t;
    OrderedRange(l, lo, y.id);
    OrderedRange(r, y.id, hi);
    SubAt(l, x, lo, y.id);
    SubShape(l, x, y, m[y].left, m, lo, y.id);
    SubNodes(Sub(l, x), x, m[x].parent, m);
    var c := RootOf(OnlyChild(Sub(l, x)));
    SplicedIn(t, l, x, c, m, m');
    SplicedAt(t, x, c, m, m', y);
    ShapeKnown(l, y, m[y].left, m);
    ShapeKnown(r, y, m[y].right, m);
    SplicedAway(t, r, x, c, m, m');
    SpliceShape(l, x, y, m[y].left, m, m', lo, y.id);
    Untouched(r, y, m[y].right, m, m');
  }

  lemma {:induction false} SpliceRight(t: Tree, x: PubHistory, p: PubHistory?, n: PubHistory?, m: Pointers, m': Pointers,
                                      lo: int, hi: int)
    requires Shape(t, p, n, m) && Ordered(t, lo, hi)
    requires x in Nodes(t) && AtMostOneChild(Sub(t, x)) && (p == null || p !in Nodes(t))
    requires x in m && Spliced(t, x, RootOf(OnlyChild(Sub(t, x))), m, m') && x != t.x && x.id >= t.x.id
    ensures Shape(Splice(t, x), p, n, m')
    decreases t, 0
  {
    hide Spliced;
    var Node(l, y, r) := t;
    OrderedRange(l, lo, y.id);
    OrderedRange(r, y.id, hi);
    SubAt(r, x, y.id, hi);
    SubShape(r, x, y, m[y].right, m, y.id, hi);
    SubNodes(Sub(r, x), x, m[x].parent, m);
    var c := RootOf(OnlyChild(Sub(r, x)));
    SplicedIn(t, r, x, c, m, m');
    SplicedAt(t, x, c, m, m', y);
    ShapeKnown(r, y, m[y].right, m);
    ShapeKnown(l, y, m[y].left, m);
    SplicedAway(t, l, x, c, m, m');
    SpliceShape(r, x, y, m[y].right, m, m', y.id, hi);
    Untouched(l, y, m[y].left, m, m');
  }

  lemma SplicedIn(t: Tree, u: Tree, x: PubHistory, c: PubHistory?, m: Pointers, m': Pointers)
    requires x in m && Spliced(t, x, c, m, m') && Nodes(u) <= Nodes(t)
    ensures Spliced(u, x, c, m, m')
  {
  }

  lemma SplicedAt(t: Tree, x: PubHistory, c: PubHistory?, m: Pointers, m': Pointers, y: PubHistory)
    requires x in m && Spliced(t, x, c, m, m') && y in Nodes(t) && y != c
    ensures y in m && y in m' && m'[y] == if y == m[x].parent then WithChild(m[y], m[y].left == x, c) else m[y]
  {
  }

  lemma SplicedAway(t: Tree, u: Tree, x: PubHistory, c: PubHistory?, m: Pointers, m': Pointers)
    requires x in m && Spliced(t, x, c, m, m') && Nodes(u) <= Nodes(t)
    requires (c == null || c !in Nodes(u)) && (m[x].parent == null || m[x].parent !in Nodes(u))
    ensures Known(u, m, m') && forall y | y in Nodes(u) :: m'[y] == m[y]
  {
  }

  /** The children of a record are in the tree below it. */
  lemma SubNodes(t: Tree, x: PubHistory, p: PubHistory?, m: Pointers)
    requires t.Node? && t.x == x && Shape(t, p, x, m)
    ensures RootOf(t.l) != null ==> RootOf(t.l) in Nodes(t)
    ensures RootOf(t.r) != null ==> RootOf(t.r) in Nodes(t)
  {
  }

  /** Putting `z` in the place of `x`: it takes over all pointers from and to `x`. */
  ghost predicate Replaced(t: Tree, x: PubHistory, z: PubHistory, m: Pointers, m': Pointers)
    requires x in m
  {
    && Known(t, m, m') && z in m' && m'[z] == m[x]
    && forall y | y in Nodes(t) && y != x ::
         var k := if y == m[x].left || y == m[x].right then m[y].(parent := z) else m[y];
         m'[y] == if y == m[x].parent then WithChild(k, m[y].left == x, z) else k
  }

  lemma ReplaceRoot(t: Tree, z: PubHistory, p: PubHistory?, m: Pointers, m': Pointers, lo: int, hi: int)
    requires t.Node? && Shape(t, p, t.x, m) && Ordered(t, lo, hi)
    requires z !in Nodes(t) && (p == null || p !in Nodes(t)) && t.x in m && Replaced(t, t.x, z, m, m')
    ensures Shape(Node(t.l, z, t.r), p, z, m')
  {
    var Node(l, x, r) := t;
    OrderedRange(l, lo, x.id);
    OrderedRange(r, x.id, hi);
    ShapeKnown(l, x, m[x].left, m);
    ShapeKnown(r, x, m[x].right, m);
    Reparented(l, x, z, m[x].left, m, m', lo, x.id);
    Reparented(r, x, z, m[x].right, m, m', x.id, hi);
  }

  lemma {:induction false} ReplaceShape(t: Tree, x: PubHistory, z: PubHistory, p: PubHistory?, n: PubHistory?,
                                        m: Pointers, m': Pointers, lo: int, hi: int)
    requires Shape(t, p, n, m) && Ordered(t, lo, hi)
    requires x in Nodes(t) && z !in Nodes(t) && (p == null || p !in Nodes(t)) && x in m && Replaced(t, x, z, m, m')
    ensures Shape(Replace(t, x, z), p, if n == x then z else n, m')
  {
    var Node(l, y, r) := t;
    SubShape(t, x, p, n, m, lo, hi);
    SubAt(t, x, lo, hi);
    OrderedRange(l, lo, y.id);
    OrderedRange(r, y.id, hi);
    ShapeKnown(l, y, m[y].left, m);
    ShapeKnown(r, y, m[y].right, m);
    if y == x {
      ReplaceRoot(t, z, p, m, m', lo, hi);
    } else if x.id < y.id {
      SubShape(l, x, y, m[y].left, m, lo, y.id);
      ChildrenIn(l, x, y, m[y].left, m, lo, y.id);
      ReplaceShape(l, x, z, y, m[y].left, m, m', lo, y.id);
      Untouched(r, y, m[y].right, m, m');
    } else {
      SubShape(r, x, y, m[y].right, m, y.id, hi);
      ChildrenIn(r, x, y, m[y].right, m, y.id, hi);
      ReplaceShape(r, x, z, y, m[y].right, m, m', y.id, hi);
      Untouched(l, y, m[y].left, m, m');
    }
  }

  lemma ChildrenIn(t: Tree, x: PubHistory, p: PubHistory?, n: PubHistory?, m: Pointers, lo: int, hi: int)
    requires Shape(t, p, n, m) && Ordered(t, lo, hi) && x in Nodes(t)
    ensures x in m && Sub(t, x).Node?
    ensures m[x].left == RootOf(Sub(t, x).l) && m[x].right == RootOf(Sub(t, x).r)
    ensures Nodes(Sub(t, x).l) + Nodes(Sub(t, x).r) <= Nodes(t)
  {
    SubShape(t, x, p, n, m, lo, hi);
    SubAt(t, x, lo, hi);
    ShapeKnown(Sub(t, x).l, x, m[x].left, m);
    ShapeKnown(Sub(t, x).r, x, m[x].right, m);
  }

  // ---- whole trees ----

  const TOP: int := ID_LIMIT as int

  /** The pointers form a search tree entered at `n`. */
  ghost predicate Rooted(t: Tree, n: PubHistory?, m: Pointers) {
    Ordered(t, -1, TOP) && Shape(t, null, n, m)
  }

  lemma RootedAgain(t: Tree, n: PubHistory?, m: Pointers, m': Pointers)
    requires Rooted(t, n, m) && Nodes(t) <= m'.Keys && (forall y | y in Nodes(t) :: y in m && m'[y] == m[y])
    ensures Rooted(t, n, m')
  {
    ShapeKnown(t, null, n, m);
    Untouched(t, null, n, m, m');
  }

  lemma InsRooted(t: Tree, add: PubHistory, n: PubHistory?, m: Pointers, m': Pointers)
    requires Rooted(t, n, m) && (forall y | y in Nodes(t) :: y.id != add.id) && Attached(t, add, null, m, m')
    ensures Rooted(Ins(t, add), if t == Leaf then add else n, m')
  {
    InsOrdered(t, add, -1, TOP);
    InsShape(t, add, null, n, m, m', -1, TOP);
  }

  ghost predicate Outer(t: Tree, x: PubHistory) {
    x in Nodes(t) && AtMostOneChild(Sub(t, x))
  }

  lemma SpliceRooted(t: Tree, x: PubHistory, n: PubHistory?, m: Pointers, m': Pointers)
    requires Rooted(t, n, m) && Outer(t, x) && x in m && Spliced(t, x, RootOf(OnlyChild(Sub(t, x))), m, m')
    ensures Rooted(Splice(t, x), if n == x then RootOf(OnlyChild(Sub(t, x))) else n, m')
    ensures Nodes(Splice(t, x)) == Nodes(t) - {x}
  {
    SpliceOrdered(t, x, -1, TOP);
    SpliceShape(t, x, null, n, m, m', -1, TOP);
  }

  /** No record of the tree lies between `x` and `z`, which is not in the tree. */
  ghost predicate NextTo(t: Tree, x: PubHistory, z: PubHistory) {
    && x in Nodes(t) && z !in Nodes(t)
    && forall y | y in Nodes(t) :: y.id != z.id && (y != x ==> (y.id < x.id <==> y.id < z.id))
  }

  lemma ReplaceRooted(t: Tree, x: PubHistory, z: PubHistory, n: PubHistory?, m: Pointers, m': Pointers)
    requires Rooted(t, n, m) && NextTo(t, x, z) && x in m && Replaced(t, x, z, m, m')
    ensures Rooted(Replace(t, x, z), if n == x then z else n, m')
    ensures Nodes(Replace(t, x, z)) == Nodes(t) - {x} + {z}
  {
    ReplaceOrdered(t, x, z, -1, TOP);
    ReplaceShape(t, x, z, null, n, m, m', -1, TOP);
  }

  /** Record `z` takes over the children of `x`. */
  ghost predicate Adopted(all: set<PubHistory>, x: PubHistory, z: PubHistory, m: Pointers, m': Pointers) {
    && x in m && z in m && m.Keys == all && m'.Keys == all
    && forall y | y in all ::
         m'[y] == (
           if y == z then m[x].(parent := m[z].parent)
           else if y == m[x].left || y == m[x].right then m[y].(parent := z) else m[y])
  }

  /** The parent of `x` becomes the parent of `c` and has it as child in the place of `x`. */
  ghost predicate Relinked(all: set<PubHistory>, x: PubHistory, c: PubHistory?, m: Pointers, m': Pointers) {
    && x in m && m.Keys == all && m'.Keys == all
    && forall y | y in all ::
         var k := if y == c then m[y].(parent := m[x].parent) else m[y];
         m'[y] == if y == m[x].parent then WithChild(k, m[y].left == x, c) else k
  }

  /** A record whose child is its parent would make the tree circular. */
  ghost predicate NoLoop(x: PubHistory, m: Pointers) {
    && x in m && m[x].left != x && m[x].right != x
    && (m[x].parent != null ==> m[x].parent != m[x].left && m[x].parent != m[x].right && m[x].parent != x)
  }

  lemma AdoptedAndRelinked(t: Tree, x: PubHistory, z: PubHistory, m0: Pointers, m1: Pointers, m2: Pointers)
    requires x in Nodes(t) && z !in Nodes(t) && NoLoop(x, m0) && m0[x].parent != z
    requires Adopted(Nodes(t) + {z}, x, z, m0, m1) && Relinked(Nodes(t) + {z}, x, z, m1, m2)
    ensures Replaced(t, x, z, m0, m2)
  {
  }

  lemma RelinkedSpliced(t: Tree, x: PubHistory, c: PubHistory?, m: Pointers, m': Pointers)
    requires Relinked(Nodes(t), x, c, m, m')
    ensures Spliced(t, x, c, m, m')
  {
  }

  /** The parent of a record is not below it. */
  lemma {:induction false} ParentOutside(t: Tree, x: PubHistory, p: PubHistory?, n: PubHistory?, m: Pointers, lo: int, hi: int)
    requires Shape(t, p, n, m) && Ordered(t, lo, hi) && x in Nodes(t) && (p == null || p !in Nodes(t))
    ensures x in m && (m[x].parent == null || m[x].parent !in Nodes(Sub(t, x)))
  {
    var Node(l, y, r) := t;
    OrderedRange(l, lo, y.id);
    OrderedRange(r, y.id, hi);
    if y != x {
      if x.id < y.id {
        ParentOutside(l, x, y, m[y].left, m, lo, y.id);
      } else {
        ParentOutside(r, x, y, m[y].right, m, y.id, hi);
      }
    }
  }

  /** What the pointers of a record in the tree are. */
  lemma PointersAt(t: Tree, x: PubHistory, n: PubHistory?, m: Pointers)
    requires Rooted(t, n, m) && x in Nodes(t)
    ensures x in m && Nodes(t) <= m.Keys && Sub(t, x).Node? && Sub(t, x).x == x
    ensures m[x].left == RootOf(Sub(t, x).l) && m[x].right == RootOf(Sub(t, x).r)
    ensures Shape(Sub(t, x).l, x, m[x].left, m) && Shape(Sub(t, x).r, x, m[x].right, m)
    ensures Nodes(Sub(t, x).l) + Nodes(Sub(t, x).r) <= Nodes(t) && (m[x].parent == null <==> x == n)
    ensures (m[x].parent != null ==> m[x].parent in Nodes(t)) && NoLoop(x, m)
  {
    SubAt(t, x, -1, TOP);
    SubShape(t, x, null, n, m, -1, TOP);
    ChildrenIn(t, x, null, n, m, -1, TOP);
    ShapeKnown(t, null, n, m);
    ParentOutside(t, x, null, n, m, -1, TOP);
    OrderedRange(Sub(t, x).l, -1, x.id);
    OrderedRange(Sub(t, x).r, x.id, TOP);
  }
}
