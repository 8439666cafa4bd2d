/**
  The integer part of graph_stats_cpp: the degree of every node over the
  usable edges, the smallest and largest degree, the degree total (the
  numerator of the mean degree) and the raw number of edge rows.
 */
module DegreeStats {
  import opened Graph
  import opened Sums

  /** The degrees after the counting loop: each usable edge adds one to each
      of its two endpoints; other rows change nothing. */
  function Degrees(edges: seq<Edge>, n: nat): (d: seq<int>)
    ensures |d| == n
  {
    if |edges| == 0 then seq(n, x => 0)
    else
      var d := Degrees(edges[..|edges| - 1], n);
      var e := edges[|edges| - 1];
      if Usable(e, n) then
        var u, v := e.0 - 1, e.1 - 1;
        d[u := d[u] + 1][v := d[v] + 1]
      else d
  }

  /** Reference definition of a degree: the number of usable edges that have
      x as an endpoint. */
  function Incidences(edges: seq<Edge>, n: nat, x: int): (k: nat) {
    if |edges| == 0 then 0
    else
      var e := edges[|edges| - 1];
      Incidences(edges[..|edges| - 1], n, x) + (if Usable(e, n) && (e.0 - 1 == x || e.1 - 1 == x) then 1 else 0)
  }

  /** The number of usable edge rows. */
  function UsableCount(edges: seq<Edge>, n: nat): (k: nat) {
    if |edges| == 0 then 0
    else UsableCount(edges[..|edges| - 1], n) + (if Usable(edges[|edges| - 1], n) then 1 else 0)
  }

  /** Every node's degree is the number of usable edges it is an endpoint of;
      in particular no degree is negative. */
  lemma {:induction false} DegreesCountIncidences(edges: seq<Edge>, n: nat)
    ensures forall x :: 0 <= x < n ==> Degrees(edges, n)[x] == Incidences(edges, n, x)
  {
    if |edges| > 0 {
      DegreesCountIncidences(edges[..|edges| - 1], n);
    }
  }

  /** Handshake: the degrees add up to twice the number of usable edges. */
  lemma {:induction false} DegreeSum(edges: seq<Edge>, n: nat)
    ensures Sum(Degrees(edges, n)) == 2 * UsableCount(edges, n)
  {
    if |edges| == 0 {
      ZeroSum(n);
    } else {
      var d := Degrees(edges[..|edges| - 1], n);
      DegreeSum(edges[..|edges| - 1], n);
      var e := edges[|edges| - 1];
      if Usable(e, n) {
        var u, v := e.0 - 1, e.1 - 1;
        SumBumpAt(d, u, 1);
        SumBumpAt(d[u := d[u] + 1], v, 1);
      }
    }
  }

  /** The counting loop over a degree vector of n zeros. */
  method CountDegrees(edges: seq<Edge>, n: nat) returns (degree: array<int>)
    ensures fresh(degree) && degree[..] == Degrees(edges, n)
  {
    degree := new int[n](x => 0);
    var i := 0;
    while i < |edges|
      invariant 0 <= i <= |edges|
      invariant degree[..] == Degrees(edges[..i], n)
    {
      assert edges[..i + 1][..i] == edges[..i];
      var u := edges[i].0 - 1;
      var v := edges[i].1 - 1;
      if 0 <= u < n && 0 <= v < n && u != v {
        degree[u] := degree[u] + 1;
        degree[v] := degree[v] + 1;
      }
      i := i + 1;
    }
    assert edges[..i] == edges;
  }

  /** std::min_element: a smallest entry of a non-empty array. */
  method MinElement(a: array<int>) returns (m: int)
    requires a.Length > 0
    ensures m in a[..] && forall i :: 0 <= i < a.Length ==> m <= a[i]
  {
    m := a[0];
    var i := 1;
    while i < a.Length
      invariant 1 <= i <= a.Length
      invariant m in a[..i] && forall j :: 0 <= j < i ==> m <= a[j]
    {
      if a[i] < m {
        m := a[i];
      }
      i := i + 1;
    }
    assert a[..i] == a[..];
  }

  /** std::max_element: a largest entry of a non-empty array. */
  method MaxElement(a: array<int>) returns (m: int)
    requires a.Length > 0
    ensures m in a[..] && forall i :: 0 <= i < a.Length ==> a[i] <= m
  {
    m := a[0];
    var i := 1;
    while i < a.Length
      invariant 1 <= i <= a.Length
      invariant m in a[..i] && forall j :: 0 <= j < i ==> a[j] <= m
    {
      if m < a[i] {
        m := a[i];
      }
      i := i + 1;
    }
    assert a[..i] == a[..];
  }

  /** The accumulation loop behind the mean degree, in integers. */
  method Total(a: array<int>) returns (total: int)
    ensures total == Sum(a[..])
  {
    total := 0;
    var i := 0;
    while i < a.Length
      invariant 0 <= i <= a.Length
      invariant total == Sum(a[..i])
    {
      assert a[..i + 1][..i] == a[..i];
      total := total + a[i];
      i := i + 1;
    }
    assert a[..i] == a[..];
  }

  /** The integer fields of graph_stats_cpp's result. The mean degree is
      degreeTotal / nNodes and the density nEdges / possibleEdges (0 when
      possibleEdges is 0). */
  datatype Stats = Stats(nEdges: int, nNodes: int, minDegree: int, maxDegree: int, degreeTotal: int,
                         possibleEdges: int)

  /** graph_stats_cpp for at least one node. */
  method GraphStats(edges: seq<Edge>, n: nat) returns (st: Stats)
    requires n >= 1
    ensures st.nEdges == |edges| && st.nNodes == n
    ensures 0 <= st.minDegree <= st.maxDegree
    ensures st.minDegree in Degrees(edges, n) && st.maxDegree in Degrees(edges, n)
    ensures forall x :: 0 <= x < n ==> st.minDegree <= Incidences(edges, n, x) <= st.maxDegree
    ensures st.degreeTotal == 2 * UsableCount(edges, n)
    ensures st.possibleEdges == n * (n - 1) / 2
  {
    var degree := CountDegrees(edges, n);
    var minDegree := MinElement(degree);
    var maxDegree := MaxElement(degree);
    var total := Total(degree);
    DegreesCountIncidences(edges, n);
    DegreeSum(edges, n);
    st := Stats(|edges|, n, minDegree, maxDegree, total, n * (n - 1) / 2);
  }
}
