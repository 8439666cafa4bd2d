/**
  Connected components (find_components_cpp, get_edge_components_cpp) and
  batched connectivity queries (are_connected_cpp). The union-find engine is
  fed every in-range edge in order; the forest it ends with is `Build`, whose
  sets are proved to be exactly the reachability classes of the graph. The
  node labelling is the first-seen scan of Labels over that forest's roots.
 */
module Components {
  import opened Graph
  import opened DisjointSet
  import opened UnionFindEngine
  import opened Labels
  import opened Sums

  /** The forest after union_sets(u, v) on every in-range edge, in list order. */
  function Build(edges: seq<Edge>, n: nat): (f: Forest)
    ensures WellFormed(f) && |f.parent| == n
  {
    if |edges| == 0 then Init(n)
    else
      var f := Build(edges[..|edges| - 1], n);
      var e := edges[|edges| - 1];
      if InRange(e, n) then Merge(f, e.0 - 1, e.1 - 1).0 else f
  }

  /** One more edge keeps "same set iff reachable" for the pair (a, b), given
      it over the shorter list for the pairs the merge can join. */
  lemma {:induction false} BuildStep(pre: seq<Edge>, e: Edge, n: nat, a: int, b: int)
    requires 0 <= a < n && 0 <= b < n
    requires SameSet(Build(pre, n), a, b) <==> Reachable(pre, n, a, b)
    requires Usable(e, n) ==>
      && (SameSet(Build(pre, n), a, e.0 - 1) <==> Reachable(pre, n, a, e.0 - 1))
      && (SameSet(Build(pre, n), a, e.1 - 1) <==> Reachable(pre, n, a, e.1 - 1))
      && (SameSet(Build(pre, n), e.1 - 1, b) <==> Reachable(pre, n, e.1 - 1, b))
      && (SameSet(Build(pre, n), e.0 - 1, b) <==> Reachable(pre, n, e.0 - 1, b))
    ensures SameSet(Build(pre + [e], n), a, b) <==> Reachable(pre + [e], n, a, b)
  {
    BuildAppend(pre, e, n);
    MergedSets(Build(pre, n), Build(pre + [e], n), e, n, a, b);
    ReachableAppend(pre, e, n, a, b);
  }

  /** Build over one more edge. */
  lemma {:induction false} BuildAppend(pre: seq<Edge>, e: Edge, n: nat)
    ensures Build(pre + [e], n) ==
      if InRange(e, n) then Merge(Build(pre, n), e.0 - 1, e.1 - 1).0 else Build(pre, n)
  {
    assert (pre + [e])[..|pre|] == pre;
  }

  /** The sets after the union loop handles edge e: union_sets on a usable
      edge joins the sets of its two endpoints and nothing else; any other row
      changes no set. */
  lemma {:induction false} MergedSets(f: Forest, g: Forest, e: Edge, n: nat, a: int, b: int)
    requires WellFormed(f) && |f.parent| == n && 0 <= a < n && 0 <= b < n
    requires g == if InRange(e, n) then Merge(f, e.0 - 1, e.1 - 1).0 else f
    ensures WellFormed(g) && |g.parent| == n
    ensures SameSet(g, a, b) <==>
      || SameSet(f, a, b)
      || (Usable(e, n) && SameSet(f, a, e.0 - 1) && SameSet(f, e.1 - 1, b))
      || (Usable(e, n) && SameSet(f, a, e.1 - 1) && SameSet(f, e.0 - 1, b))
  {
    if InRange(e, n) {
      MergeSameSet(f, e.0 - 1, e.1 - 1);
    }
  }

  /** The sets of the built forest are the reachability classes: two nodes end
      in the same set iff a chain of usable edges joins them. */
  lemma {:induction false} BuildConnectsReachable(edges: seq<Edge>, n: nat)
    ensures forall a, b :: 0 <= a < n && 0 <= b < n ==>
      (SameSet(Build(edges, n), a, b) <==> Reachable(edges, n, a, b))
  {
    if |edges| == 0 {
      forall a, b | 0 <= a < n && 0 <= b < n
        ensures SameSet(Build(edges, n), a, b) <==> Reachable(edges, n, a, b)
      {
        if Reachable(edges, n, a, b) {
          NoEdgesReachSelf(n, a, b);
        }
        if a == b {
          ReachableRefl(edges, n, a);
        }
      }
    } else {
      var pre := edges[..|edges| - 1];
      var e := edges[|edges| - 1];
      assert edges == pre + [e];
      BuildConnectsReachable(pre, n);
      forall a, b | 0 <= a < n && 0 <= b < n
        ensures SameSet(Build(edges, n), a, b) <==> Reachable(edges, n, a, b)
      {
        BuildStep(pre, e, n, a, b);
      }
    }
  }

  /** BuildConnectsReachable at one pair of nodes. */
  lemma {:induction false} SameRootIffReachable(edges: seq<Edge>, n: nat, u: int, v: int)
    requires 0 <= u < n && 0 <= v < n
    ensures Root(Build(edges, n), u) == Root(Build(edges, n), v) <==> Reachable(edges, n, u, v)
  {
    BuildConnectsReachable(edges, n);
    assert SameSet(Build(edges, n), u, v) <==> Reachable(edges, n, u, v);
  }

  /** The root of every node, in node order. */
  function Roots(f: Forest): (r: seq<int>)
    requires WellFormed(f)
    ensures |r| == |f.parent|
  {
    seq(|f.parent|, i requires 0 <= i < |f.parent| => Root(f, i))
  }

  /** The result of find_components_cpp: one id per node, the component sizes
      and the number of components. */
  datatype Labelling = Labelling(ids: seq<int>, sizes: seq<int>, count: int)

  /** What find_components_cpp computes: with `compress`, 1-based dense ids with
      a size per id; without it, the raw root of each node, no sizes, count 0. */
  function ComponentsOf(edges: seq<Edge>, n: nat, compress: bool): (c: Labelling)
    ensures |c.ids| == n
  {
    LabellingOf(Build(edges, n), compress)
  }

  /** The labelling read off a forest: the first-seen scan over its roots. */
  function LabellingOf(f: Forest, compress: bool): (c: Labelling)
    requires WellFormed(f)
    ensures |c.ids| == |f.parent|
  {
    var s := LabelScan(Roots(f), compress);
    if compress then Labelling(Shift(s.ids), Sizes(s.ids, s.next), s.next)
    else Labelling(s.ids, [], 0)
  }

  /** Two nodes get the same id iff they are connected, in both modes. */
  lemma {:induction false} ComponentIdsMatchReachability(edges: seq<Edge>, n: nat, compress: bool)
    ensures forall a, b :: 0 <= a < n && 0 <= b < n ==>
      ((ComponentsOf(edges, n, compress).ids[a] == ComponentsOf(edges, n, compress).ids[b])
        <==> Reachable(edges, n, a, b))
  {
    var f := Build(edges, n);
    var roots := Roots(f);
    BuildConnectsReachable(edges, n);
    if compress {
      DenseLabels(roots, LabelScan(roots, true));
    } else {
      RawLabelsAreRoots(roots);
    }
    forall a, b | 0 <= a < n && 0 <= b < n
      ensures (ComponentsOf(edges, n, compress).ids[a] == ComponentsOf(edges, n, compress).ids[b])
        <==> Reachable(edges, n, a, b)
    {
      assert roots[a] == Root(f, a) && roots[b] == Root(f, b);
    }
  }

  /** With `compress`: ids run over exactly 1..count, are handed out in the
      order components are first met scanning nodes 0..n-1, and node 0 gets 1. */
  lemma {:induction false} CompressedIdsAreFirstSeen(edges: seq<Edge>, n: nat, c: Labelling)
    requires c == ComponentsOf(edges, n, true)
    ensures FirstSeen(c.ids, 1)
    ensures c.count == Top(c.ids, 0)
    ensures forall i :: 0 <= i < n ==> 1 <= c.ids[i] <= c.count
    ensures forall v :: 1 <= v <= c.count ==> v in c.ids
    ensures n > 0 ==> c.ids[0] == 1
  {
    var roots := Roots(Build(edges, n));
    var s := LabelScan(roots, true);
    DenseShifted(roots, s, Shift(s.ids));
    DenseShiftedRange(roots, s, Shift(s.ids));
  }

  /** The compressed ids are the only first-seen labelling of the components:
      any 1-based labelling that groups nodes by connectivity and numbers the
      groups in first-met order equals it. */
  lemma {:induction false} CompressedIdsDetermined(edges: seq<Edge>, n: nat, other: seq<int>)
    requires |other| == n && FirstSeen(other, 1)
    requires forall a, b :: 0 <= a < n && 0 <= b < n ==> (other[a] == other[b] <==> Reachable(edges, n, a, b))
    ensures other == ComponentsOf(edges, n, true).ids
  {
    var c := ComponentsOf(edges, n, true).ids;
    CompressedIdsAreFirstSeen(edges, n, ComponentsOf(edges, n, true));
    ComponentIdsMatchReachability(edges, n, true);
    forall a, b | 0 <= a < n && 0 <= b < n
      ensures other[a] == other[b] <==> c[a] == c[b]
    {
      assert other[a] == other[b] <==> Reachable(edges, n, a, b);
      assert c[a] == c[b] <==> Reachable(edges, n, a, b);
    }
    FirstSeenUnique(other, c, 1);
  }

  /** With `compress`: one size per component, each the number of nodes with
      that id, none empty, adding up to n. */
  lemma {:induction false} ComponentSizes(edges: seq<Edge>, n: nat, c: Labelling)
    requires c == ComponentsOf(edges, n, true)
    ensures |c.sizes| == c.count
    ensures forall k :: 0 <= k < c.count ==> c.sizes[k] == multiset(c.ids)[k + 1]
    ensures forall k :: 0 <= k < c.count ==> c.sizes[k] >= 1
    ensures Sum(c.sizes) == n
  {
    var roots := Roots(Build(edges, n));
    var s := LabelScan(roots, true);
    assert |roots| == n;
    assert c == Labelling(Shift(s.ids), Sizes(s.ids, s.next), s.next);
    DenseSizes(roots, s, c.ids, c.sizes);
  }

  /** Without `compress`: each id is a node of the same component that is its
      own id (the set's root), sizes are empty and the count is 0. */
  lemma {:induction false} RawIdsAreRoots(edges: seq<Edge>, n: nat, c: Labelling)
    requires c == ComponentsOf(edges, n, false)
    ensures c.sizes == [] && c.count == 0
    ensures forall i :: 0 <= i < n ==> 0 <= c.ids[i] < n && c.ids[c.ids[i]] == c.ids[i]
    ensures forall i :: 0 <= i < n ==> Reachable(edges, n, i, c.ids[i])
  {
    var f := Build(edges, n);
    var roots := Roots(f);
    RawLabelsAreRoots(roots);
    BuildConnectsReachable(edges, n);
    forall i | 0 <= i < n
      ensures 0 <= roots[i] < n && roots[roots[i]] == roots[i] && Reachable(edges, n, i, roots[i])
    {
      var r := Root(f, i);
      assert roots[i] == r && roots[r] == Root(f, r);
      assert SameSet(f, i, r);
    }
  }

  /** The id get_edge_components_cpp writes for an edge with an out-of-range endpoint. */
  function Invalid(compress: bool): (marker: int) {
    if compress then 0 else -1
  }

  /** The out-of-range marker can never be mistaken for a node's id. */
  lemma {:induction false} InvalidIsNoId(edges: seq<Edge>, n: nat, compress: bool)
    ensures forall i :: 0 <= i < n ==> ComponentsOf(edges, n, compress).ids[i] != Invalid(compress)
  {
    if compress {
      CompressedIdsAreFirstSeen(edges, n, ComponentsOf(edges, n, compress));
    } else {
      RawIdsAreRoots(edges, n, ComponentsOf(edges, n, compress));
    }
  }

  /** The two endpoints of an in-range edge always carry the same id. */
  lemma {:induction false} EdgeEndsShareId(edges: seq<Edge>, n: nat, compress: bool, i: int)
    requires 0 <= i < |edges| && InRange(edges[i], n)
    ensures ComponentsOf(edges, n, compress).ids[edges[i].0 - 1] == ComponentsOf(edges, n, compress).ids[edges[i].1 - 1]
  {
    var u, v := edges[i].0 - 1, edges[i].1 - 1;
    ComponentIdsMatchReachability(edges, n, compress);
    ReachableRefl(edges, n, u);
    if u != v {
      assert Joins(edges[i], n, u, v);
      ReachableStep(edges, n, u, u, v);
    }
  }

  /** One round of the union loop: union_sets(u, v) when both endpoints of edge
      i are in range, nothing otherwise. */
  method UnionEdge(uf: UnionFind, edges: seq<Edge>, n: nat, i: int)
    requires 0 <= i < |edges|
    requires uf.Valid() && uf.parent.Length == n && uf.Model() == Build(edges[..i], n)
    modifies uf.parent, uf.rank
    ensures uf.Valid() && uf.Model() == Build(edges[..i + 1], n)
  {
    assert edges[..i + 1] == edges[..i] + [edges[i]];
    BuildAppend(edges[..i], edges[i], n);
    var u := edges[i].0 - 1;
    var v := edges[i].1 - 1;
    if 0 <= u < n && 0 <= v < n {
      var merged := uf.UnionSets(u, v);
    }
  }

  /** The union loop shared by the three entry points: a fresh engine over n
      nodes, then union_sets on every in-range edge. */
  method BuildUnionFind(edges: seq<Edge>, n: nat) returns (uf: UnionFind)
    ensures uf.Valid() && fresh(uf.parent) && fresh(uf.rank)
    ensures uf.Model() == Build(edges, n)
  {
    uf := new UnionFind(n);
    var i := 0;
    while i < |edges|
      invariant 0 <= i <= |edges|
      invariant uf.Valid() && fresh(uf.parent) && fresh(uf.rank)
      invariant uf.parent.Length == n
      invariant uf.Model() == Build(edges[..i], n)
    {
      UnionEdge(uf, edges, n, i);
      i := i + 1;
    }
    assert edges[..i] == edges;
  }

  /** The labelling loop: find(i) for every node in order, handing each new root
      its id (the next dense id, or the root itself) through a root-to-id map. */
  method LabelNodes(uf: UnionFind, compress: bool) returns (ids: array<int>, count: int)
    requires uf.Valid()
    modifies uf.parent
    ensures uf.Valid() && fresh(ids)
    ensures Roots(uf.Model()) == Roots(old(uf.Model()))
    ensures ids[..] == LabelScan(Roots(old(uf.Model())), compress).ids
    ensures count == LabelScan(Roots(old(uf.Model())), compress).next
  {
    ghost var roots := Roots(uf.Model());
    var n := uf.parent.Length;
    ids := new int[n];
    var componentMap: map<int, int> := map[];
    count := 0;
    var i := 0;
    while i < n
      invariant 0 <= i <= n && ids.Length == n && |roots| == n
      invariant ids != uf.parent && ids != uf.rank
      invariant uf.Valid() && Roots(uf.Model()) == roots
      invariant Scan(ids[..i], componentMap, count) == LabelScan(roots[..i], compress)
    {
      componentMap, count := LabelStep(uf, compress, roots, i, ids, componentMap, count);
      i := i + 1;
    }
    ghost var final := LabelScan(roots, compress);
    assert roots[..n] == roots;
    assert ids[..n] == ids[..];
    assert ids[..] == final.ids && count == final.next;
  }

  /** One round of the labelling loop: node i gets the id of its root, and a
      root met for the first time is entered in the map. */
  method LabelStep(uf: UnionFind, compress: bool, ghost roots: seq<int>, i: int, ids: array<int>,
                   componentMap: map<int, int>, count: int)
    returns (componentMap': map<int, int>, count': int)
    requires uf.Valid() && Roots(uf.Model()) == roots
    requires 0 <= i < ids.Length == |roots| && ids != uf.parent && ids != uf.rank
    requires Scan(ids[..i], componentMap, count) == LabelScan(roots[..i], compress)
    modifies uf.parent, ids
    ensures uf.Valid() && Roots(uf.Model()) == roots
    ensures Scan(ids[..i + 1], componentMap', count') == LabelScan(roots[..i + 1], compress)
  {
    var root := FindRoot(uf, i);
    ScanSnoc(roots, i, compress);
    componentMap', count' := componentMap, count;
    if root !in componentMap {
      if compress {
        componentMap' := componentMap[root := count];
        count' := count + 1;
      } else {
        componentMap' := componentMap[root := root];
      }
    }
    ids[i] := componentMap'[root];
    assert ids[..i + 1] == ids[..i] + [ids[i]];
  }

  /** find(x) as the labelling and query loops use it: the root of x, with
      every node's root left where it was. */
  method FindRoot(uf: UnionFind, x: int) returns (r: int)
    requires uf.Valid() && 0 <= x < uf.parent.Length
    modifies uf.parent
    ensures uf.Valid() && r == Root(old(uf.Model()), x)
    ensures Roots(uf.Model()) == Roots(old(uf.Model()))
  {
    r := uf.Find(x);
    assert Roots(uf.Model()) == Roots(old(uf.Model()));
  }

  /** The in-place conversion to 1-based ids. */
  method ShiftIds(a: array<int>)
    modifies a
    ensures a[..] == Shift(old(a[..]))
  {
    var i := 0;
    while i < a.Length
      invariant 0 <= i <= a.Length
      invariant forall j :: 0 <= j < i ==> a[j] == old(a[j]) + 1
      invariant forall j :: i <= j < a.Length ==> a[j] == old(a[j])
    {
      a[i] := a[i] + 1;
      i := i + 1;
    }
  }

  /** The part of find_components_cpp after the union loop: label, count
      sizes (compressed only), shift to 1-based ids (compressed only). */
  method LabelComponents(uf: UnionFind, compress: bool) returns (c: Labelling)
    requires uf.Valid()
    modifies uf.parent
    ensures c == LabellingOf(old(uf.Model()), compress)
  {
    ghost var roots := Roots(uf.Model());
    var components, next := LabelNodes(uf, compress);
    ScanBounds(roots, compress);
    var sizes := CountSizes(components, next, compress);
    if compress {
      ShiftIds(components);
    }
    c := Labelling(components[..], sizes[..], next);
  }

  /** The size loop: one count per id below next, raised for each node when
      compressing (without compression next is 0 and nothing is counted). */
  method CountSizes(components: array<int>, next: nat, compress: bool) returns (sizes: array<int>)
    requires compress ==> forall i :: 0 <= i < components.Length ==> 0 <= components[i] < next
    requires !compress ==> next == 0
    ensures fresh(sizes) && sizes[..] == Sizes(components[..], next)
  {
    sizes := new int[next](k => 0);
    assert sizes[..] == Sizes([], next);
    var i := 0;
    while i < components.Length
      invariant 0 <= i <= components.Length
      invariant sizes[..] == Sizes(components[..i], next)
    {
      if compress {
        SizesSnoc(components[..i], components[i], next);
        sizes[components[i]] := sizes[components[i]] + 1;
      }
      assert components[..i + 1] == components[..i] + [components[i]];
      i := i + 1;
    }
    assert components[..i] == components[..];
  }

  /** find_components_cpp. */
  method FindComponents(edges: seq<Edge>, n: nat, compress: bool) returns (c: Labelling)
    ensures c == ComponentsOf(edges, n, compress)
  {
    var uf := BuildUnionFind(edges, n);
    c := LabelComponents(uf, compress);
  }

  /** The node ids of get_edge_components_cpp: the same labelling pass, shifted
      to 1-based ids when compressing. */
  method NodeIds(uf: UnionFind, compress: bool) returns (ids: array<int>, count: int)
    requires uf.Valid()
    modifies uf.parent
    ensures fresh(ids)
    ensures ids[..] == LabellingOf(old(uf.Model()), compress).ids
    ensures count == LabellingOf(old(uf.Model()), compress).count
  {
    ids, count := LabelNodes(uf, compress);
    if compress {
      ShiftIds(ids);
    } else {
      RawLabelsAreRoots(Roots(old(uf.Model())));
    }
  }

  /** get_edge_components_cpp: the labelling, then each edge stamped with the
      ids of its endpoints, or with the invalid marker on both sides. */
  method GetEdgeComponents(edges: seq<Edge>, n: nat, compress: bool)
    returns (from: seq<int>, to: seq<int>, count: int)
    ensures |from| == |edges| && |to| == |edges|
    ensures count == ComponentsOf(edges, n, compress).count
    ensures forall i :: 0 <= i < |edges| && InRange(edges[i], n) ==>
      from[i] == ComponentsOf(edges, n, compress).ids[edges[i].0 - 1] &&
      to[i] == ComponentsOf(edges, n, compress).ids[edges[i].1 - 1]
    ensures forall i :: 0 <= i < |edges| && !InRange(edges[i], n) ==>
      from[i] == Invalid(compress) && to[i] == Invalid(compress)
  {
    var uf := BuildUnionFind(edges, n);
    var nodeIds;
    nodeIds, count := NodeIds(uf, compress);
    from, to := StampEdges(edges, nodeIds, compress);
  }

  /** The edge loop of get_edge_components_cpp over the node ids. */
  method StampEdges(edges: seq<Edge>, nodeIds: array<int>, compress: bool) returns (from: seq<int>, to: seq<int>)
    ensures |from| == |edges| && |to| == |edges|
    ensures forall i :: 0 <= i < |edges| && InRange(edges[i], nodeIds.Length) ==>
      from[i] == nodeIds[edges[i].0 - 1] && to[i] == nodeIds[edges[i].1 - 1]
    ensures forall i :: 0 <= i < |edges| && !InRange(edges[i], nodeIds.Length) ==>
      from[i] == Invalid(compress) && to[i] == Invalid(compress)
  {
    var n := nodeIds.Length;
    var fromIds := new int[|edges|];
    var toIds := new int[|edges|];
    var i := 0;
    while i < |edges|
      invariant 0 <= i <= |edges|
      invariant forall j :: 0 <= j < i && InRange(edges[j], n) ==>
        fromIds[j] == nodeIds[edges[j].0 - 1] && toIds[j] == nodeIds[edges[j].1 - 1]
      invariant forall j :: 0 <= j < i && !InRange(edges[j], n) ==>
        fromIds[j] == Invalid(compress) && toIds[j] == Invalid(compress)
      modifies fromIds, toIds
    {
      var u := edges[i].0 - 1;
      var v := edges[i].1 - 1;
      if 0 <= u < n && 0 <= v < n {
        fromIds[i] := nodeIds[u];
        toIds[i] := nodeIds[v];
      } else {
        fromIds[i] := if compress then 0 else -1;
        toIds[i] := if compress then 0 else -1;
      }
      i := i + 1;
    }
    from, to := fromIds[..], toIds[..];
  }

  /** One query of are_connected_cpp: connected(u, v) when both endpoints are
      in range, false otherwise. */
  method Answer(uf: UnionFind, q: Edge) returns (b: bool)
    requires uf.Valid()
    modifies uf.parent
    ensures uf.Valid() && Roots(uf.Model()) == Roots(old(uf.Model()))
    ensures b <==> InRange(q, uf.parent.Length) && Roots(old(uf.Model()))[q.0 - 1] == Roots(old(uf.Model()))[q.1 - 1]
  {
    var n := uf.parent.Length;
    var u := q.0 - 1;
    var v := q.1 - 1;
    if 0 <= u < n && 0 <= v < n {
      b := uf.Connected(u, v);
    } else {
      b := false;
    }
    assert Roots(uf.Model()) == Roots(old(uf.Model()));
  }

  /** are_connected_cpp: one answer per query, in order; true iff both endpoints
      are in range and a chain of usable edges joins them. */
  method AreConnected(edges: seq<Edge>, queries: seq<Edge>, n: nat) returns (answers: seq<bool>)
    ensures |answers| == |queries|
    ensures forall i :: 0 <= i < |queries| ==>
      (answers[i] <==> InRange(queries[i], n) && Reachable(edges, n, queries[i].0 - 1, queries[i].1 - 1))
  {
    var uf := BuildUnionFind(edges, n);
    answers := AnswerAll(uf, queries);
    AnswersAreReachability(edges, queries, n, answers);
  }

  /** The answers the query loop owes, given the root of every node. */
  function Expected(roots: seq<int>, queries: seq<Edge>): (r: seq<bool>)
    ensures |r| == |queries|
  {
    seq(|queries|, j requires 0 <= j < |queries| =>
      InRange(queries[j], |roots|) && roots[queries[j].0 - 1] == roots[queries[j].1 - 1])
  }

  /** The query loop of are_connected_cpp over an engine already built. */
  method AnswerAll(uf: UnionFind, queries: seq<Edge>) returns (answers: seq<bool>)
    requires uf.Valid()
    modifies uf.parent
    ensures answers == Expected(Roots(old(uf.Model())), queries)
  {
    ghost var roots := Roots(uf.Model());
    ghost var expected := Expected(roots, queries);
    var result := new bool[|queries|];
    var i := 0;
    while i < |queries|
      invariant 0 <= i <= |queries|
      invariant uf.Valid() && Roots(uf.Model()) == roots
      invariant result[..i] == expected[..i]
    {
      var b := Answer(uf, queries[i]);
      result[i] := b;
      assert result[..i + 1] == result[..i] + [b];
      i := i + 1;
    }
    answers := result[..];
    assert result[..] == result[..i];
  }

  /** Answers given by the built forest's sets are answers about reachability. */
  lemma {:induction false} AnswersAreReachability(edges: seq<Edge>, queries: seq<Edge>, n: nat, answers: seq<bool>)
    requires answers == Expected(Roots(Build(edges, n)), queries)
    ensures forall j :: 0 <= j < |queries| ==>
      (answers[j] <==> InRange(queries[j], n) && Reachable(edges, n, queries[j].0 - 1, queries[j].1 - 1))
  {
    var f := Build(edges, n);
    forall j | 0 <= j < |queries| && InRange(queries[j], n)
      ensures answers[j] <==> Reachable(edges, n, queries[j].0 - 1, queries[j].1 - 1)
    {
      var u, v := queries[j].0 - 1, queries[j].1 - 1;
      SameRootIffReachable(edges, n, u, v);
      assert Roots(f)[u] == Root(f, u) && Roots(f)[v] == Root(f, v);
    }
  }
}
