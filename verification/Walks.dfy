/** Walks over the links of a mesh, and the cycles they reveal. */
module Walks {

  type Links = set<(nat, nat)>

  ghost predicate Symmetric(links: Links) {
    forall a, b :: (a, b) in links ==> (b, a) in links
  }

  ghost predicate IsWalk(links: Links, w: seq<nat>) {
    && |w| >= 1
    && forall i | 0 <= i < |w| - 1 :: (w[i], w[i + 1]) in links
  }

  /** No hop of the walk immediately undoes the hop before it. */
  ghost predicate NonBacktracking(w: seq<nat>) {
    forall i | 0 <= i < |w| - 2 :: w[i] != w[i + 2]
  }

  ghost predicate Distinct(c: seq<nat>) {
    forall i, j | 0 <= i < j < |c| :: c[i] != c[j]
  }

  /** At least three different nodes, each linked to the next and the last to the first. */
  ghost predicate IsCycle(links: Links, c: seq<nat>) {
    && |c| >= 3
    && Distinct(c)
    && IsWalk(links, c)
    && (c[|c| - 1], c[0]) in links
  }

  /** The undirected link graph is a forest. */
  ghost predicate Acyclic(links: Links) {
    && (forall a :: (a, a) !in links)
    && (forall c :: !IsCycle(links, c))
  }

  /** A non-backtracking walk that visits some node twice goes around a cycle. */
  lemma {:induction false} RevisitMeansCycle(links: Links, w: seq<nat>, i: nat, j: nat)
    requires IsWalk(links, w) && NonBacktracking(w)
    requires i < j < |w| && w[i] == w[j]
    ensures !Acyclic(links)
    decreases j - i
  {
    if a, b :| i <= a < b <= j && b - a < j - i && w[a] == w[b] {
      RevisitMeansCycle(links, w, a, b);
    } else {
      var c := w[i..j];
      assert (w[i], w[i + 1]) in links;
      assert i + 2 < |w| ==> w[i] != w[i + 2];
      if j > i + 1 {
        assert (w[j - 1], w[j]) in links;
        assert IsCycle(links, c);
      }
    }
  }

  function Reverse(w: seq<nat>): (r: seq<nat>)
    ensures |r| == |w|
    ensures forall k | 0 <= k < |w| :: r[k] == w[|w| - 1 - k]
  {
    seq(|w|, k requires 0 <= k < |w| => w[|w| - 1 - k])
  }

  /** Two non-backtracking walks between the same ends whose last hops differ prove a cycle. */
  lemma TwoWalksMeanCycle(links: Links, p: seq<nat>, q: seq<nat>)
    requires Symmetric(links)
    requires IsWalk(links, p) && NonBacktracking(p)
    requires IsWalk(links, q) && NonBacktracking(q)
    requires |p| >= 2 && p[0] == q[0] && p[|p| - 1] == q[|q| - 1]
    requires |q| == 1 || p[|p| - 2] != q[|q| - 2]
    ensures !Acyclic(links)
  {
    var w := p + Reverse(q)[1..];
    forall i | 0 <= i < |w| - 1
      ensures (w[i], w[i + 1]) in links
    {
      if i < |p| - 1 {
        assert (p[i], p[i + 1]) in links;
      } else {
        var k := |q| - 1 - (i - (|p| - 1));
        assert w[i] == q[k] && w[i + 1] == q[k - 1];
        assert (q[k - 1], q[k - 1 + 1]) in links;
      }
    }
    forall i | 0 <= i < |w| - 2
      ensures w[i] != w[i + 2]
    {
      if i < |p| - 2 {
        assert p[i] != p[i + 2];
      } else if i > |p| - 2 {
        var k := |q| - 1 - (i - (|p| - 1));
        assert w[i] == q[k] && w[i + 2] == q[k - 2];
        assert q[k - 2] != q[k - 2 + 2];
      }
    }
    RevisitMeansCycle(links, w, 0, |w| - 1);
  }
}
