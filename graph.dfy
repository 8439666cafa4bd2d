/**
  The undirected graph that an edge list describes. Edges arrive as pairs of
  1-based node numbers; node ids inside are 0-based. An edge with an endpoint
  outside 1..n is ignored everywhere, and a self-loop never makes two distinct
  nodes adjacent. Walks over this relation are the reference against which the
  union-find labelling and the breadth-first search are proved.
 */
module Graph {

  /** One row of the edge matrix: (from, to), 1-based. */
  type Edge = (int, int)

  /** Both endpoints name one of the n nodes. */
  predicate InRange(e: Edge, n: int) {
    1 <= e.0 <= n && 1 <= e.1 <= n
  }

  /** An in-range edge that is not a self-loop: the edges that enter the
      adjacency lists and the degree counts. */
  predicate Usable(e: Edge, n: int) {
    InRange(e, n) && e.0 != e.1
  }

  /** e joins the 0-based nodes a and b, in either direction. */
  predicate Joins(e: Edge, n: int, a: int, b: int) {
    Usable(e, n) && ((e.0 - 1 == a && e.1 - 1 == b) || (e.0 - 1 == b && e.1 - 1 == a))
  }

  /** Some edge of the list joins a and b. */
  ghost predicate Adjacent(edges: seq<Edge>, n: int, a: int, b: int) {
    exists i :: 0 <= i < |edges| && Joins(edges[i], n, a, b)
  }

  /** A non-empty sequence of nodes, each adjacent to the next. */
  ghost predicate IsWalk(edges: seq<Edge>, n: int, w: seq<int>) {
    && |w| >= 1
    && (forall i :: 0 <= i < |w| ==> 0 <= w[i] < n)
    && (forall i :: 0 <= i < |w| - 1 ==> Adjacent(edges, n, w[i], w[i + 1]))
  }

  /** There is a walk of exactly k edges from a to b. */
  ghost predicate HasWalk(edges: seq<Edge>, n: int, a: int, b: int, k: nat) {
    exists w :: IsWalk(edges, n, w) && |w| == k + 1 && w[0] == a && w[k] == b
  }

  /** a and b are joined by a chain of usable edges (or are the same node). */
  ghost predicate Reachable(edges: seq<Edge>, n: int, a: int, b: int) {
    exists k: nat :: HasWalk(edges, n, a, b, k)
  }

  lemma {:induction false} AdjacentInRange(edges: seq<Edge>, n: int, a: int, b: int)
    requires Adjacent(edges, n, a, b)
    ensures 0 <= a < n && 0 <= b < n && a != b && Adjacent(edges, n, b, a)
  {
  }

  lemma {:induction false} WalkStart(edges: seq<Edge>, n: int, a: int)
    requires 0 <= a < n
    ensures HasWalk(edges, n, a, a, 0)
  {
    assert IsWalk(edges, n, [a]);
  }

  /** A walk to b followed by an edge b-c is a walk to c one edge longer. */
  lemma {:induction false} WalkExtend(edges: seq<Edge>, n: int, a: int, b: int, c: int, k: nat)
    requires HasWalk(edges, n, a, b, k) && Adjacent(edges, n, b, c)
    ensures HasWalk(edges, n, a, c, k + 1)
  {
    var w :| IsWalk(edges, n, w) && |w| == k + 1 && w[0] == a && w[k] == b;
    var w' := w + [c];
    assert IsWalk(edges, n, w');
  }

  /** The last edge of a walk of k > 0 edges leaves a walk of k - 1 edges. */
  lemma {:induction false} WalkLastStep(edges: seq<Edge>, n: int, a: int, b: int, k: nat) returns (c: int)
    requires HasWalk(edges, n, a, b, k) && k > 0
    ensures HasWalk(edges, n, a, c, k - 1) && Adjacent(edges, n, c, b)
  {
    var w :| IsWalk(edges, n, w) && |w| == k + 1 && w[0] == a && w[k] == b;
    c := w[k - 1];
    assert IsWalk(edges, n, w[..k]);
  }

  /** Walks glue end to start. */
  lemma {:induction false} WalkConcat(edges: seq<Edge>, n: int, a: int, b: int, c: int, k1: nat, k2: nat)
    requires HasWalk(edges, n, a, b, k1) && HasWalk(edges, n, b, c, k2)
    ensures HasWalk(edges, n, a, c, k1 + k2)
  {
    var w1 :| IsWalk(edges, n, w1) && |w1| == k1 + 1 && w1[0] == a && w1[k1] == b;
    var w2 :| IsWalk(edges, n, w2) && |w2| == k2 + 1 && w2[0] == b && w2[k2] == c;
    var w := w1 + w2[1..];
    forall i | 0 <= i < |w| - 1
      ensures Adjacent(edges, n, w[i], w[i + 1])
    {
      if i < k1 {
        assert w[i] == w1[i] && w[i + 1] == w1[i + 1];
      } else {
        assert w[i] == w2[i - k1] && w[i + 1] == w2[i - k1 + 1];
      }
    }
    assert IsWalk(edges, n, w);
  }

  /** Edges are undirected, so every walk can be run backwards. */
  lemma {:induction false} WalkReverse(edges: seq<Edge>, n: int, a: int, b: int, k: nat)
    requires HasWalk(edges, n, a, b, k)
    ensures HasWalk(edges, n, b, a, k)
  {
    var w :| IsWalk(edges, n, w) && |w| == k + 1 && w[0] == a && w[k] == b;
    var r := seq(k + 1, i requires 0 <= i <= k => w[k - i]);
    forall i | 0 <= i < |r| - 1
      ensures Adjacent(edges, n, r[i], r[i + 1])
    {
      AdjacentInRange(edges, n, w[k - i - 1], w[k - i]);
    }
    assert IsWalk(edges, n, r);
  }

  lemma {:induction false} ReachableRefl(edges: seq<Edge>, n: int, a: int)
    requires 0 <= a < n
    ensures Reachable(edges, n, a, a)
  {
    WalkStart(edges, n, a);
  }

  lemma {:induction false} ReachableSym(edges: seq<Edge>, n: int, a: int, b: int)
    requires Reachable(edges, n, a, b)
    ensures Reachable(edges, n, b, a)
  {
    var k: nat :| HasWalk(edges, n, a, b, k);
    WalkReverse(edges, n, a, b, k);
  }

  lemma {:induction false} ReachableTrans(edges: seq<Edge>, n: int, a: int, b: int, c: int)
    requires Reachable(edges, n, a, b) && Reachable(edges, n, b, c)
    ensures Reachable(edges, n, a, c)
  {
    var k1: nat :| HasWalk(edges, n, a, b, k1);
    var k2: nat :| HasWalk(edges, n, b, c, k2);
    WalkConcat(edges, n, a, b, c, k1, k2);
  }

  lemma {:induction false} ReachableStep(edges: seq<Edge>, n: int, a: int, b: int, c: int)
    requires Reachable(edges, n, a, b) && Adjacent(edges, n, b, c)
    ensures Reachable(edges, n, a, c)
  {
    var k: nat :| HasWalk(edges, n, a, b, k);
    WalkExtend(edges, n, a, b, c, k);
  }

  /** A walk ends in the node range it started from. */
  lemma {:induction false} ReachableInRange(edges: seq<Edge>, n: int, a: int, b: int)
    requires Reachable(edges, n, a, b)
    ensures 0 <= a < n && 0 <= b < n
  {
    var k: nat :| HasWalk(edges, n, a, b, k);
    var w :| IsWalk(edges, n, w) && |w| == k + 1 && w[0] == a && w[k] == b;
  }

  /** With no edges, a node reaches only itself. */
  lemma {:induction false} NoEdgesReachSelf(n: int, a: int, b: int)
    requires Reachable([], n, a, b)
    ensures a == b
  {
    var k: nat :| HasWalk([], n, a, b, k);
    if k > 0 {
      var c := WalkLastStep([], n, a, b, k);
      assert false;
    }
  }

  /** Appending one edge adds exactly the adjacency that edge provides. */
  lemma {:induction false} AdjacentAppend(edges: seq<Edge>, e: Edge, n: int, a: int, b: int)
    ensures Adjacent(edges + [e], n, a, b) <==> Adjacent(edges, n, a, b) || Joins(e, n, a, b)
  {
    var es := edges + [e];
    if Adjacent(es, n, a, b) && !Joins(e, n, a, b) {
      var i :| 0 <= i < |es| && Joins(es[i], n, a, b);
      assert i < |edges| && es[i] == edges[i];
    }
    if Adjacent(edges, n, a, b) {
      var i :| 0 <= i < |edges| && Joins(edges[i], n, a, b);
      assert es[i] == edges[i];
    }
    if Joins(e, n, a, b) {
      assert es[|edges|] == e;
    }
  }

  /** Every walk over a list is still a walk once an edge is appended. */
  lemma {:induction false} WalkGrows(edges: seq<Edge>, e: Edge, n: int, a: int, b: int, k: nat)
    requires HasWalk(edges, n, a, b, k)
    ensures HasWalk(edges + [e], n, a, b, k)
  {
    var w :| IsWalk(edges, n, w) && |w| == k + 1 && w[0] == a && w[k] == b;
    forall i | 0 <= i < |w| - 1
      ensures Adjacent(edges + [e], n, w[i], w[i + 1])
    {
      AdjacentAppend(edges, e, n, w[i], w[i + 1]);
    }
    assert IsWalk(edges + [e], n, w);
  }

  /** The nodes one edge e = (u, v) newly reaches from a, as seen over the old list. */
  ghost predicate ReachedVia(edges: seq<Edge>, e: Edge, n: int, a: int, c: int) {
    || Reachable(edges, n, a, c)
    || (Usable(e, n) && Reachable(edges, n, a, e.0 - 1) && Reachable(edges, n, e.1 - 1, c))
    || (Usable(e, n) && Reachable(edges, n, a, e.1 - 1) && Reachable(edges, n, e.0 - 1, c))
  }

  /** Whatever a walk over edges + [e] reaches, the old list reaches directly or
      through e. */
  lemma {:induction false} ReachedViaWalk(edges: seq<Edge>, e: Edge, n: int, a: int, c: int, k: nat)
    requires 0 <= a < n
    requires HasWalk(edges + [e], n, a, c, k)
    ensures ReachedVia(edges, e, n, a, c)
    decreases k
  {
    var es := edges + [e];
    if k == 0 {
      var w :| IsWalk(es, n, w) && |w| == 1 && w[0] == a && w[0] == c;
      ReachableRefl(edges, n, a);
    } else {
      var b := WalkLastStep(es, n, a, c, k);
      ReachedViaWalk(edges, e, n, a, b, k - 1);
      AdjacentAppend(edges, e, n, b, c);
      AdjacentInRange(es, n, b, c);
      var u, v := e.0 - 1, e.1 - 1;
      if Adjacent(edges, n, b, c) {
        if Reachable(edges, n, a, b) {
          ReachableStep(edges, n, a, b, c);
        } else if Usable(e, n) && Reachable(edges, n, a, u) && Reachable(edges, n, v, b) {
          ReachableStep(edges, n, v, b, c);
        } else {
          ReachableStep(edges, n, u, b, c);
        }
      } else {
        assert Joins(e, n, b, c);
        ReachableRefl(edges, n, c);
        if b == u {
          if !Reachable(edges, n, a, u) {
            assert Reachable(edges, n, a, v);
          }
        } else {
          if !Reachable(edges, n, a, v) {
            assert Reachable(edges, n, a, u);
          }
        }
      }
    }
  }

  /** Reachability over edges + [e]: the old relation, plus every pair that goes
      to one end of e over the old edges and leaves from the other end. */
  lemma {:induction false} ReachableAppend(edges: seq<Edge>, e: Edge, n: int, a: int, c: int)
    requires 0 <= a < n && 0 <= c < n
    ensures Reachable(edges + [e], n, a, c) <==> ReachedVia(edges, e, n, a, c)
  {
    var es := edges + [e];
    var u, v := e.0 - 1, e.1 - 1;
    if Reachable(es, n, a, c) {
      var k: nat :| HasWalk(es, n, a, c, k);
      ReachedViaWalk(edges, e, n, a, c, k);
    }
    if Reachable(edges, n, a, c) {
      var k: nat :| HasWalk(edges, n, a, c, k);
      WalkGrows(edges, e, n, a, c, k);
    }
    if Usable(e, n) {
      AdjacentAppend(edges, e, n, u, v);
      AdjacentAppend(edges, e, n, v, u);
      if Reachable(edges, n, a, u) && Reachable(edges, n, v, c) {
        ReachAcross(edges, e, n, a, u, v, c);
      }
      if Reachable(edges, n, a, v) && Reachable(edges, n, u, c) {
        ReachAcross(edges, e, n, a, v, u, c);
      }
    }
  }

  /** a - x over the old edges, then the new edge x - y, then y - c. */
  lemma {:induction false} ReachAcross(edges: seq<Edge>, e: Edge, n: int, a: int, x: int, y: int, c: int)
    requires Reachable(edges, n, a, x) && Reachable(edges, n, y, c)
    requires Adjacent(edges + [e], n, x, y)
    ensures Reachable(edges + [e], n, a, c)
  {
    var k1: nat :| HasWalk(edges, n, a, x, k1);
    var k2: nat :| HasWalk(edges, n, y, c, k2);
    WalkGrows(edges, e, n, a, x, k1);
    WalkGrows(edges, e, n, y, c, k2);
    WalkExtend(edges + [e], n, a, x, y, k1);
    WalkConcat(edges + [e], n, a, y, c, k1 + 1, k2);
  }
}
