/**
  Value-level model of the disjoint-set (union-find) engine: a forest given by
  one parent pointer and one rank per node. Every operation of the engine is a
  function from forest to forest here; the class in union_find.dfy is proved to
  follow these functions step by step.
 */
module DisjointSet {

  /** Parent pointer and rank of every node 0..n-1. */
  datatype Forest = Forest(parent: seq<int>, rank: seq<int>)

  /** The structure's invariant: pointers stay inside the node range, ranks are
      non-negative, and every non-root has a parent of strictly larger rank
      (which also makes every parent chain finite). */
  predicate WellFormed(f: Forest) {
    && |f.parent| == |f.rank|
    && (forall x :: 0 <= x < |f.parent| ==> 0 <= f.parent[x] < |f.parent|)
    && (forall x :: 0 <= x < |f.rank| ==> 0 <= f.rank[x])
    && (forall x :: 0 <= x < |f.parent| && f.parent[x] != x ==> f.rank[x] < f.rank[f.parent[x]])
  }

  /** Largest rank; the ceiling of the termination measure of Root. */
  function MaxRank(rk: seq<int>): (m: int)
    requires |rk| > 0
    ensures forall i :: 0 <= i < |rk| ==> rk[i] <= m
  {
    if |rk| == 1 then rk[0]
    else
      var m := MaxRank(rk[1..]);
      if rk[0] >= m then rk[0] else m
  }

  /** The engine after construction: every node its own root, every rank 0. */
  function Init(n: nat): (f: Forest)
    ensures WellFormed(f) && |f.parent| == n
    ensures forall x :: 0 <= x < n ==> f.parent[x] == x && f.rank[x] == 0
  {
    Forest(seq(n, i => i), seq(n, i => 0))
  }

  /** The root reached from x by following parent pointers. */
  function Root(f: Forest, x: int): (r: int)
    requires WellFormed(f) && 0 <= x < |f.parent|
    ensures 0 <= r < |f.parent| && f.parent[r] == r
    ensures f.parent[x] != x ==> f.rank[x] < f.rank[r]
    decreases MaxRank(f.rank) - f.rank[x]
  {
    if f.parent[x] == x then x else Root(f, f.parent[x])
  }

  /** x and y belong to the same set. */
  ghost predicate SameSet(f: Forest, x: int, y: int)
    requires WellFormed(f) && 0 <= x < |f.parent| && 0 <= y < |f.parent|
  {
    Root(f, x) == Root(f, y)
  }

  /** The nodes visited from x up to and including its root. */
  ghost function Path(f: Forest, x: int): (p: seq<int>)
    requires WellFormed(f) && 0 <= x < |f.parent|
    ensures |p| >= 1 && p[0] == x && p[|p| - 1] == Root(f, x)
    ensures forall i :: 0 <= i < |p| ==> 0 <= p[i] < |f.parent| && Root(f, p[i]) == Root(f, x)
    ensures forall i :: 0 <= i < |p| - 1 ==> f.parent[p[i]] == p[i + 1]
    decreases MaxRank(f.rank) - f.rank[x]
  {
    if f.parent[x] == x then [x] else [x] + Path(f, f.parent[x])
  }

  /** The forest after find(x): find recurses to the root and then re-points x
      at it, so each node of x's path ends up pointing at the root. */
  function Compress(f: Forest, x: int): (g: Forest)
    requires WellFormed(f) && 0 <= x < |f.parent|
    ensures g.rank == f.rank && |g.parent| == |f.parent|
    decreases MaxRank(f.rank) - f.rank[x]
  {
    if f.parent[x] == x then f
    else
      var g := Compress(f, f.parent[x]);
      Forest(g.parent[x := Root(f, x)], f.rank)
  }

  /** find(x) changes exactly the parent pointers on x's path, each to the root. */
  lemma {:induction false} CompressRedirectsPath(f: Forest, x: int)
    requires WellFormed(f) && 0 <= x < |f.parent|
    ensures forall y :: 0 <= y < |f.parent| ==>
      Compress(f, x).parent[y] == if y in Path(f, x) then Root(f, x) else f.parent[y]
    decreases MaxRank(f.rank) - f.rank[x]
  {
    if f.parent[x] != x {
      var p := f.parent[x];
      CompressRedirectsPath(f, p);
      var g := Compress(f, p);
      assert Compress(f, x).parent == g.parent[x := Root(f, x)];
      assert Path(f, x) == [x] + Path(f, p);
      assert Root(f, x) == Root(f, p);
      forall y | 0 <= y < |f.parent|
        ensures Compress(f, x).parent[y] == if y in Path(f, x) then Root(f, x) else f.parent[y]
      {
        if y != x {
          assert (y in Path(f, x)) == (y in Path(f, p));
        }
      }
    }
  }

  /** Re-pointing any nodes straight at their own roots keeps every node's root. */
  lemma {:induction false} RedirectKeepsRoots(f: Forest, g: Forest, y: int)
    requires WellFormed(f) && WellFormed(g) && |g.parent| == |f.parent|
    requires forall z :: 0 <= z < |f.parent| ==> g.parent[z] == f.parent[z] || g.parent[z] == Root(f, z)
    requires 0 <= y < |f.parent|
    ensures Root(g, y) == Root(f, y)
    decreases MaxRank(g.rank) - g.rank[y]
  {
    if g.parent[y] != y {
      RedirectKeepsRoots(f, g, g.parent[y]);
    }
  }

  /** Every node on x's path has x's root. */
  lemma {:induction false} PathShareRoot(f: Forest, x: int, y: int)
    requires WellFormed(f) && 0 <= x < |f.parent|
    requires y in Path(f, x)
    ensures 0 <= y < |f.parent| && Root(f, y) == Root(f, x)
  {
    var p := Path(f, x);
    var i :| 0 <= i < |p| && p[i] == y;
  }

  /** After find(x) every pointer is either unchanged or aimed at the node's own root. */
  lemma {:induction false} CompressAimsAtRoots(f: Forest, x: int)
    requires WellFormed(f) && 0 <= x < |f.parent|
    ensures forall z :: 0 <= z < |f.parent| ==>
      Compress(f, x).parent[z] == f.parent[z] || Compress(f, x).parent[z] == Root(f, z)
  {
    CompressRedirectsPath(f, x);
    forall z | 0 <= z < |f.parent|
      ensures Compress(f, x).parent[z] == f.parent[z] || Compress(f, x).parent[z] == Root(f, z)
    {
      if z in Path(f, x) {
        PathShareRoot(f, x, z);
      }
    }
  }

  /** find(x) keeps the invariant and leaves x pointing at its root. */
  lemma {:induction false} CompressWellFormed(f: Forest, x: int)
    requires WellFormed(f) && 0 <= x < |f.parent|
    ensures WellFormed(Compress(f, x))
    ensures Compress(f, x).parent[x] == Root(f, x)
  {
    var g := Compress(f, x);
    CompressAimsAtRoots(f, x);
    CompressRedirectsPath(f, x);
    assert x in Path(f, x);
    forall y | 0 <= y < |f.parent| && g.parent[y] != y
      ensures f.rank[y] < f.rank[g.parent[y]]
    {
      if g.parent[y] != f.parent[y] {
        assert g.parent[y] == Root(f, y);
      }
    }
  }

  /** find(x) keeps the invariant, leaves x pointing at its root and does not
      change which root any node reaches. */
  lemma {:induction false} CompressPreserves(f: Forest, x: int)
    requires WellFormed(f) && 0 <= x < |f.parent|
    ensures WellFormed(Compress(f, x))
    ensures Compress(f, x).parent[x] == Root(f, x)
    ensures forall y :: 0 <= y < |f.parent| ==> Root(Compress(f, x), y) == Root(f, y)
  {
    CompressWellFormed(f, x);
    CompressAimsAtRoots(f, x);
    forall y | 0 <= y < |f.parent|
      ensures Root(Compress(f, x), y) == Root(f, y)
    {
      RedirectKeepsRoots(f, Compress(f, x), y);
    }
  }

  /** union_sets(x, y): find both roots (compressing both paths); if they
      differ, hang the lower-ranked root under the higher-ranked one, and on a
      tie hang y's root under x's root and raise x's root's rank by one. The
      boolean says whether two sets were merged. */
  function Merge(f: Forest, x: int, y: int): (res: (Forest, bool))
    requires WellFormed(f) && 0 <= x < |f.parent| && 0 <= y < |f.parent|
    ensures WellFormed(res.0) && |res.0.parent| == |f.parent|
  {
    CompressPreserves(f, x);
    var g := Compress(f, x);
    CompressPreserves(g, y);
    var h := Compress(g, y);
    var px := Root(f, x);
    var py := Root(g, y);
    if px == py then (h, false)
    else if h.rank[px] < h.rank[py] then (Link(h, px, py, false), true)
    else if h.rank[px] > h.rank[py] then (Link(h, py, px, false), true)
    else (Link(h, py, px, true), true)
  }

  /** Hangs root c under root d; `bump` raises d's rank by one (the tie case). */
  function Link(f: Forest, c: int, d: int, bump: bool): (g: Forest)
    requires WellFormed(f) && 0 <= c < |f.parent| && 0 <= d < |f.parent| && c != d
    requires f.parent[c] == c && f.parent[d] == d
    requires if bump then f.rank[c] == f.rank[d] else f.rank[c] < f.rank[d]
    ensures WellFormed(g) && |g.parent| == |f.parent|
  {
    var g := Forest(f.parent[c := d], if bump then f.rank[d := f.rank[d] + 1] else f.rank);
    assert forall x :: 0 <= x < |g.parent| && g.parent[x] != x ==> g.rank[x] < g.rank[g.parent[x]] by {
      forall x | 0 <= x < |g.parent| && g.parent[x] != x
        ensures g.rank[x] < g.rank[g.parent[x]]
      {
        if x != c {
          assert g.parent[x] == f.parent[x] && x != d;
        }
      }
    }
    g
  }

  /** connected(x, y): find both roots (compressing both paths) and compare them. */
  function Connect(f: Forest, x: int, y: int): (res: (Forest, bool))
    requires WellFormed(f) && 0 <= x < |f.parent| && 0 <= y < |f.parent|
    ensures WellFormed(res.0) && |res.0.parent| == |f.parent|
    ensures res.1 <==> SameSet(f, x, y)
    ensures forall z :: 0 <= z < |f.parent| ==> Root(res.0, z) == Root(f, z)
  {
    CompressPreserves(f, x);
    var g := Compress(f, x);
    CompressPreserves(g, y);
    (Compress(g, y), Root(f, x) == Root(g, y))
  }

  /** The root that survives union_sets(x, y). */
  function Survivor(f: Forest, x: int, y: int): (r: int)
    requires WellFormed(f) && 0 <= x < |f.parent| && 0 <= y < |f.parent|
  {
    if f.rank[Root(f, x)] < f.rank[Root(f, y)] then Root(f, y) else Root(f, x)
  }

  /** Hanging root c under root d re-roots exactly c's set at d. */
  lemma {:induction false} LinkRoots(f: Forest, g: Forest, c: int, d: int, z: int)
    requires WellFormed(f) && WellFormed(g) && |g.parent| == |f.parent|
    requires 0 <= c < |f.parent| && 0 <= d < |f.parent| && c != d
    requires f.parent[c] == c && f.parent[d] == d
    requires g.parent == f.parent[c := d]
    requires 0 <= z < |f.parent|
    ensures Root(g, z) == if Root(f, z) == c then d else Root(f, z)
    decreases MaxRank(g.rank) - g.rank[z]
  {
    if z != c && f.parent[z] != z {
      assert g.parent[z] == f.parent[z];
      LinkRoots(f, g, c, d, f.parent[z]);
    }
  }

  /** union_sets(x, y) sends the two sets of x and y to the surviving root and
      leaves every other node's root where it was; it merges iff the roots differ. */
  lemma {:induction false} MergeRoots(f: Forest, x: int, y: int)
    requires WellFormed(f) && 0 <= x < |f.parent| && 0 <= y < |f.parent|
    ensures Merge(f, x, y).1 <==> Root(f, x) != Root(f, y)
    ensures forall z :: 0 <= z < |f.parent| ==>
      Root(Merge(f, x, y).0, z) ==
        if Root(f, z) == Root(f, x) || Root(f, z) == Root(f, y) then Survivor(f, x, y) else Root(f, z)
  {
    CompressPreserves(f, x);
    var g := Compress(f, x);
    CompressPreserves(g, y);
    var h := Compress(g, y);
    var px, py := Root(f, x), Root(f, y);
    var m := Merge(f, x, y).0;
    forall z | 0 <= z < |f.parent|
      ensures Root(m, z) ==
        if Root(f, z) == px || Root(f, z) == py then Survivor(f, x, y) else Root(f, z)
    {
      assert Root(h, z) == Root(f, z);
      if px != py {
        if h.rank[px] < h.rank[py] {
          LinkRoots(h, m, px, py, z);
        } else {
          LinkRoots(h, m, py, px, z);
        }
      }
    }
  }

  /** union_sets(x, y) merges exactly the sets of x and y: two nodes share a set
      afterwards iff they did before or one was with x and the other with y. */
  lemma {:induction false} MergeSameSet(f: Forest, x: int, y: int)
    requires WellFormed(f) && 0 <= x < |f.parent| && 0 <= y < |f.parent|
    ensures forall a, b :: 0 <= a < |f.parent| && 0 <= b < |f.parent| ==>
      (SameSet(Merge(f, x, y).0, a, b) <==>
        SameSet(f, a, b) || (SameSet(f, a, x) && SameSet(f, b, y)) || (SameSet(f, a, y) && SameSet(f, b, x)))
  {
    MergeRoots(f, x, y);
    var m := Merge(f, x, y).0;
    var s := Survivor(f, x, y);
    var px, py := Root(f, x), Root(f, y);
    forall a, b | 0 <= a < |f.parent| && 0 <= b < |f.parent|
      ensures SameSet(m, a, b) <==>
        SameSet(f, a, b) || (SameSet(f, a, x) && SameSet(f, b, y)) || (SameSet(f, a, y) && SameSet(f, b, x))
    {
      var ra, rb := Root(f, a), Root(f, b);
      if ra != px && ra != py && (rb == px || rb == py) {
        // a keeps its root, b moves to the survivor, which is px or py.
        assert Root(m, a) == ra && Root(m, b) == s;
      }
      if rb != px && rb != py && (ra == px || ra == py) {
        assert Root(m, b) == rb && Root(m, a) == s;
      }
    }
  }

  /** The ranks of a forest never decrease under union_sets, and a tie is the
      only case in which the surviving root's rank rises. */
  lemma {:induction false} MergeRanks(f: Forest, x: int, y: int)
    requires WellFormed(f) && 0 <= x < |f.parent| && 0 <= y < |f.parent|
    ensures forall z :: 0 <= z < |f.parent| ==>
      Merge(f, x, y).0.rank[z] ==
        if Merge(f, x, y).1 && z == Root(f, x) && f.rank[Root(f, x)] == f.rank[Root(f, y)]
        then f.rank[z] + 1 else f.rank[z]
  {
    CompressPreserves(f, x);
    CompressPreserves(Compress(f, x), y);
  }
}
