/**
  shortest_paths_cpp: adjacency lists built once from the usable edges, then
  one breadth-first search per query, with a fresh distance array, a FIFO
  queue, termination as soon as the target is discovered, and an optional
  cutoff once the search reaches max_distance.
 */
module ShortestPaths {
  import opened Graph

  /** The adjacency lists after the build loop: for each usable edge (u, v), in
      list order, v is pushed onto u's list and u onto v's. */
  function AdjLists(edges: seq<Edge>, n: nat): (adj: seq<seq<int>>)
    ensures |adj| == n
  {
    if |edges| == 0 then seq(n, u => [])
    else
      var adj := AdjLists(edges[..|edges| - 1], n);
      var e := edges[|edges| - 1];
      if Usable(e, n) then
        var u, v := e.0 - 1, e.1 - 1;
        adj[u := adj[u] + [v]][v := adj[v] + [u]]
      else adj
  }

  /** v is on u's list exactly when some usable edge joins u and v. */
  lemma {:induction false} AdjListsMatch(edges: seq<Edge>, n: nat)
    ensures forall u, v :: 0 <= u < n ==> (v in AdjLists(edges, n)[u] <==> Adjacent(edges, n, u, v))
  {
    if |edges| > 0 {
      var pre := edges[..|edges| - 1];
      var e := edges[|edges| - 1];
      assert edges == pre + [e];
      AdjListsMatch(pre, n);
      forall u, v | 0 <= u < n
        ensures v in AdjLists(edges, n)[u] <==> Adjacent(edges, n, u, v)
      {
        AdjacentAppend(pre, e, n, u, v);
      }
    }
  }

  /** Every list entry names a node. */
  lemma {:induction false} AdjListsInRange(edges: seq<Edge>, n: nat)
    ensures forall u, v :: 0 <= u < n && v in AdjLists(edges, n)[u] ==> 0 <= v < n
  {
    AdjListsMatch(edges, n);
    forall u, v | 0 <= u < n && v in AdjLists(edges, n)[u]
      ensures 0 <= v < n
    {
      AdjacentInRange(edges, n, u, v);
    }
  }

  /** The build loop, with push_back on a vector of vectors. */
  method BuildAdjacency(edges: seq<Edge>, n: nat) returns (adj: array<seq<int>>)
    ensures fresh(adj) && adj[..] == AdjLists(edges, n)
  {
    adj := new seq<int>[n](u => []);
    var i := 0;
    while i < |edges|
      invariant 0 <= i <= |edges|
      invariant adj[..] == AdjLists(edges[..i], n)
    {
      assert edges[..i + 1][..i] == edges[..i];
      var u := edges[i].0 - 1;
      var v := edges[i].1 - 1;
      if 0 <= u < n && 0 <= v < n && u != v {
        adj[u] := adj[u] + [v];
        adj[v] := adj[v] + [u];
      }
      i := i + 1;
    }
    assert edges[..i] == edges;
  }

  /** d is the length of a shortest walk from s to v. */
  ghost predicate Exact(edges: seq<Edge>, n: nat, s: int, v: int, d: int) {
    && d >= 0
    && HasWalk(edges, n, s, v, d)
    && (forall k: nat :: k < d ==> !HasWalk(edges, n, s, v, k))
  }

  /** The answer shortest_paths_cpp owes for the query q: -1 for an endpoint out
      of range, 0 when both endpoints are the same node, otherwise the length of
      a shortest walk if one exists within the cutoff (no cutoff when
      maxDistance <= 0), and -1 if none does. */
  ghost predicate Answers(edges: seq<Edge>, n: nat, maxDistance: int, q: Edge, r: int) {
    var s, t := q.0 - 1, q.1 - 1;
    if !InRange(q, n) then r == -1
    else if s == t then r == 0
    else if r == -1 then forall d: nat :: HasWalk(edges, n, s, t, d) ==> maxDistance > 0 && d > maxDistance
    else r > 0 && Exact(edges, n, s, t, r) && (maxDistance > 0 ==> r <= maxDistance)
  }

  /** At most one answer fits a query: the specification determines the result. */
  lemma {:induction false} AnswerUnique(edges: seq<Edge>, n: nat, maxDistance: int, q: Edge, r1: int, r2: int)
    requires Answers(edges, n, maxDistance, q, r1) && Answers(edges, n, maxDistance, q, r2)
    ensures r1 == r2
  {
  }

  /** Without a cutoff, -1 for two distinct in-range nodes means exactly that
      they are not connected. */
  lemma {:induction false} UnboundedMeansUnreachable(edges: seq<Edge>, n: nat, maxDistance: int, q: Edge, r: int)
    requires Answers(edges, n, maxDistance, q, r) && maxDistance <= 0
    requires InRange(q, n) && q.0 != q.1
    ensures r == -1 <==> !Reachable(edges, n, q.0 - 1, q.1 - 1)
  {
  }

  /** Every discovered node's distance is exact. */
  ghost predicate Sound(edges: seq<Edge>, n: nat, s: int, dist: seq<int>) {
    && |dist| == n
    && (forall v :: 0 <= v < n && dist[v] != -1 ==> Exact(edges, n, s, v, dist[v]))
  }

  /** The queue holds discovered nodes in order of distance, spanning at most
      two consecutive distances. */
  ghost predicate Layered(dist: seq<int>, queue: seq<int>) {
    && (forall i :: 0 <= i < |queue| ==> 0 <= queue[i] < |dist| && dist[queue[i]] >= 0)
    && (forall i, j :: 0 <= i <= j < |queue| ==> dist[queue[i]] <= dist[queue[j]])
    && (forall i :: 0 <= i < |queue| ==> dist[queue[i]] <= dist[queue[0]] + 1)
  }

  /** A discovered node outside the queue (and other than `busy`, the node whose
      list is being scanned) has all its neighbours discovered. */
  ghost predicate Closed(adj: seq<seq<int>>, dist: seq<int>, queue: seq<int>, busy: int) {
    forall x :: 0 <= x < |dist| && x < |adj| && dist[x] != -1 && x !in queue && x != busy ==> AllFound(adj[x], dist)
  }

  /** Every node in `nbrs` has been discovered. */
  ghost predicate AllFound(nbrs: seq<int>, dist: seq<int>) {
    forall y :: y in nbrs ==> 0 <= y < |dist| && dist[y] != -1
  }

  /** A walk of length 0 stays where it started. */
  lemma {:induction false} WalkZero(edges: seq<Edge>, n: nat, a: int, b: int)
    requires HasWalk(edges, n, a, b, 0)
    ensures a == b
  {
    var w :| IsWalk(edges, n, w) && |w| == 1 && w[0] == a && w[0] == b;
  }

  /** The heart of breadth-first search: a walk to an undiscovered node must
      leave the discovered region through a node still in the queue, so it is
      longer than the distance at the front of the queue; with an empty queue
      no undiscovered node can be reached at all. */
  lemma {:induction false} Frontier(edges: seq<Edge>, n: nat, s: int, dist: seq<int>, queue: seq<int>, v: int, k: nat)
    requires Sound(edges, n, s, dist) && Layered(dist, queue)
    requires Closed(AdjLists(edges, n), dist, queue, -1)
    requires 0 <= s < n && dist[s] != -1
    requires 0 <= v < n && dist[v] == -1 && HasWalk(edges, n, s, v, k)
    ensures |queue| > 0 && k > dist[queue[0]]
    decreases k
  {
    if k == 0 {
      WalkZero(edges, n, s, v);
    } else {
      var c := WalkLastStep(edges, n, s, v, k);
      AdjacentInRange(edges, n, c, v);
      if dist[c] == -1 {
        Frontier(edges, n, s, dist, queue, c, k - 1);
      } else {
        AdjListsMatch(edges, n);
        assert v in AdjLists(edges, n)[c];
        assert c in queue;
        var i :| 0 <= i < |queue| && queue[i] == c;
        assert dist[queue[0]] <= dist[c];
        assert Exact(edges, n, s, c, dist[c]);
      }
    }
  }

  /** Recording one more exact distance keeps the distances sound. */
  lemma {:induction false} SoundUpdate(edges: seq<Edge>, n: nat, s: int, dist: seq<int>, v: int, d: int)
    requires Sound(edges, n, s, dist) && 0 <= v < n && Exact(edges, n, s, v, d)
    ensures Sound(edges, n, s, dist[v := d])
  {
  }

  /** No walk to an undiscovered node is shorter than `level` + 1. */
  ghost predicate Beyond(edges: seq<Edge>, n: nat, s: int, dist: seq<int>, level: int) {
    forall v, k: nat :: 0 <= v < n && v < |dist| && dist[v] == -1 && HasWalk(edges, n, s, v, k) ==> k > level
  }

  /** The state of a pass over one node's list: `d` grows `d0` by nodes at
      distance `level` + 1, each of them queued unless it is the target, and
      `unseen` is still the set of undiscovered nodes. */
  ghost predicate Scanning(edges: seq<Edge>, n: nat, s: int, t: int, d0: seq<int>, d: seq<int>, level: int,
                           queue: seq<int>, next: seq<int>, unseen0: set<int>, unseen: set<int>) {
    && |d0| == |d| == n
    && Sound(edges, n, s, d)
    && (forall v :: 0 <= v < n && d0[v] != -1 ==> d[v] == d0[v])
    && (forall v :: 0 <= v < n && d0[v] == -1 && d[v] != -1 ==> d[v] == level + 1 && (v in next || v == t))
    && (forall i :: 0 <= i < |next| ==> 0 <= next[i] < n && level <= d[next[i]] <= level + 1)
    && (forall i, j :: 0 <= i <= j < |next| ==> d[next[i]] <= d[next[j]])
    && queue <= next
    && (forall v :: v in unseen <==> 0 <= v < n && d[v] == -1)
    && |unseen| + |next| <= |unseen0| + |queue|
  }

  /** Look at one neighbour of the node at distance `level`: if it is still
      undiscovered it gets distance `level` + 1 and, unless it is the target,
      joins the back of the queue. */
  method Visit(distance: array<int>, ghost edges: seq<Edge>, n: nat, s: int, t: int, ghost d0: seq<int>,
               level: int, ghost queue: seq<int>, next: seq<int>, ghost unseen0: set<int>, ghost unseen: set<int>,
               current: int, neighbor: int)
    returns (next': seq<int>, found: bool, ghost unseen': set<int>)
    requires distance.Length == n && 0 <= t < n && 0 <= current < n && 0 <= neighbor < n
    requires Scanning(edges, n, s, t, d0, distance[..], level, queue, next, unseen0, unseen)
    requires Exact(edges, n, s, current, level) && Adjacent(edges, n, current, neighbor)
    requires Beyond(edges, n, s, d0, level) && distance[t] == -1
    modifies distance
    ensures Scanning(edges, n, s, t, d0, distance[..], level, queue, next', unseen0, unseen')
    ensures distance[neighbor] != -1
    ensures forall v :: 0 <= v < n && old(distance[v]) != -1 ==> distance[v] == old(distance[v])
    ensures forall v :: 0 <= v < n && v != neighbor ==> distance[v] == old(distance[v])
    ensures old(distance[neighbor]) == -1 ==> distance[neighbor] == level + 1
    ensures found ==> neighbor == t && distance[t] == level + 1
    ensures !found ==> distance[t] == -1
  {
    next', found, unseen' := next, false, unseen;
    if distance[neighbor] == -1 {
      WalkExtend(edges, n, s, current, neighbor, level);
      assert Exact(edges, n, s, neighbor, level + 1);
      SoundUpdate(edges, n, s, distance[..], neighbor, level + 1);
      distance[neighbor] := level + 1;
      assert unseen == (unseen - {neighbor}) + {neighbor};
      unseen' := unseen - {neighbor};
      if neighbor == t {
        found := true;
      } else {
        next' := next + [neighbor];
      }
    }
  }

  /** The loop over current's list, stopping at the target. */
  method Scan(distance: array<int>, ghost edges: seq<Edge>, n: nat, s: int, t: int, ghost d0: seq<int>,
              level: int, queue: seq<int>, ghost unseen: set<int>, current: int, nbrs: seq<int>)
    returns (next: seq<int>, found: bool, ghost unseen': set<int>)
    requires distance.Length == n && 0 <= t < n && 0 <= current < n
    requires Scanning(edges, n, s, t, d0, distance[..], level, queue, queue, unseen, unseen)
    requires Exact(edges, n, s, current, level) && Beyond(edges, n, s, d0, level) && distance[t] == -1
    requires forall j :: 0 <= j < |nbrs| ==> (0 <= nbrs[j] < n && Adjacent(edges, n, current, nbrs[j]))
    modifies distance
    ensures Scanning(edges, n, s, t, d0, distance[..], level, queue, next, unseen, unseen')
    ensures found ==> distance[t] == level + 1
    ensures !found ==> distance[t] == -1 && forall j :: 0 <= j < |nbrs| ==> distance[nbrs[j]] != -1
  {
    next, found, unseen' := queue, false, unseen;
    var k := 0;
    while k < |nbrs|
      invariant 0 <= k <= |nbrs|
      invariant Scanning(edges, n, s, t, d0, distance[..], level, queue, next, unseen, unseen')
      invariant forall j :: 0 <= j < k ==> distance[nbrs[j]] != -1
      invariant distance[t] == -1
    {
      next, found, unseen' := Visit(distance, edges, n, s, t, d0, level, queue, next, unseen, unseen',
                                    current, nbrs[k]);
      if found {
        break;
      }
      k := k + 1;
    }
  }

  /** Every entry of a node's list is an in-range node adjacent to it. */
  lemma {:induction false} Neighbours(edges: seq<Edge>, n: nat, u: int)
    requires 0 <= u < n
    ensures forall j :: 0 <= j < |AdjLists(edges, n)[u]| ==>
      (0 <= AdjLists(edges, n)[u][j] < n && Adjacent(edges, n, u, AdjLists(edges, n)[u][j]))
  {
    AdjListsInRange(edges, n);
    AdjListsMatch(edges, n);
    forall j | 0 <= j < |AdjLists(edges, n)[u]|
      ensures 0 <= AdjLists(edges, n)[u][j] < n && Adjacent(edges, n, u, AdjLists(edges, n)[u][j])
    {
      assert AdjLists(edges, n)[u][j] in AdjLists(edges, n)[u];
    }
  }

  /** Once current's whole list has been discovered, every discovered node
      outside the new queue has its neighbours discovered. */
  lemma {:induction false} ScanCloses(adj: seq<seq<int>>, d0: seq<int>, d1: seq<int>, queue: seq<int>, next: seq<int>, current: int)
    requires |d0| == |d1| == |adj| && 0 <= current < |adj|
    requires Closed(adj, d0, queue, current) && queue <= next
    requires forall v :: 0 <= v < |d0| && d0[v] != -1 ==> d1[v] == d0[v]
    requires forall v :: 0 <= v < |d0| && d0[v] == -1 && d1[v] != -1 ==> v in next
    requires forall j :: 0 <= j < |adj[current]| ==> 0 <= adj[current][j] < |d1| && d1[adj[current][j]] != -1
    ensures Closed(adj, d1, next, -1)
  {
    forall x | 0 <= x < |d1| && x < |adj| && d1[x] != -1 && x !in next
      ensures AllFound(adj[x], d1)
    {
      if x == current {
        forall y | y in adj[x]
          ensures 0 <= y < |d1| && d1[y] != -1
        {
          var j :| 0 <= j < |adj[current]| && adj[current][j] == y;
        }
      } else {
        assert x !in queue;
        assert AllFound(adj[x], d0);
      }
    }
  }

  /** No undiscovered node is closer than the front of the queue. */
  lemma {:induction false} Cutoff(edges: seq<Edge>, n: nat, s: int, dist: seq<int>, queue: seq<int>)
    requires Sound(edges, n, s, dist) && Layered(dist, queue) && |queue| > 0
    requires Closed(AdjLists(edges, n), dist, queue, -1)
    requires 0 <= s < n && dist[s] != -1
    ensures Beyond(edges, n, s, dist, dist[queue[0]])
  {
    forall v, k: nat | 0 <= v < n && v < |dist| && dist[v] == -1 && HasWalk(edges, n, s, v, k)
      ensures k > dist[queue[0]]
    {
      Frontier(edges, n, s, dist, queue, v, k);
    }
  }

  /** Once the queue is empty, no undiscovered node is reachable at all. */
  lemma {:induction false} Exhausted(edges: seq<Edge>, n: nat, s: int, dist: seq<int>, v: int)
    requires Sound(edges, n, s, dist) && Closed(AdjLists(edges, n), dist, [], -1)
    requires 0 <= s < n && dist[s] != -1 && 0 <= v < n && dist[v] == -1
    ensures forall k: nat :: !HasWalk(edges, n, s, v, k)
  {
    forall k: nat | HasWalk(edges, n, s, v, k)
      ensures false
    {
      Frontier(edges, n, s, dist, [], v, k);
    }
  }

  /** Popping the front of a layered queue leaves the rest layered around it,
      and closed except for the popped node. */
  lemma {:induction false} Pop(adj: seq<seq<int>>, dist: seq<int>, queue: seq<int>)
    requires Layered(dist, queue) && Closed(adj, dist, queue, -1) && |queue| > 0
    ensures forall i :: 0 <= i < |queue[1..]| ==>
      (0 <= queue[1..][i] < |dist| && dist[queue[0]] <= dist[queue[1..][i]] <= dist[queue[0]] + 1)
    ensures forall i, j :: 0 <= i <= j < |queue[1..]| ==> dist[queue[1..][i]] <= dist[queue[1..][j]]
    ensures Closed(adj, dist, queue[1..], queue[0])
  {
    forall x | 0 <= x < |dist| && x < |adj| && dist[x] != -1 && x !in queue[1..] && x != queue[0]
      ensures AllFound(adj[x], dist)
    {
      assert queue == [queue[0]] + queue[1..];
    }
  }

  /** The state between two rounds of the search for t: sound distances,
      `unseen` the undiscovered nodes, and either a layered, closed queue with
      t still undiscovered, or t found at distance r within the cutoff. */
  ghost predicate Searching(edges: seq<Edge>, n: nat, s: int, t: int, maxDistance: int, dist: seq<int>,
                            queue: seq<int>, unseen: set<int>, found: bool, r: int) {
    && |dist| == n && 0 <= s < n && 0 <= t < n
    && Sound(edges, n, s, dist) && dist[s] != -1
    && (forall v :: v in unseen <==> 0 <= v < n && dist[v] == -1)
    && (!found ==> Layered(dist, queue) && Closed(AdjLists(edges, n), dist, queue, -1) && dist[t] == -1)
    && (found ==> r > 0 && Exact(edges, n, s, t, r) && (maxDistance > 0 ==> r <= maxDistance))
  }

  /** Taking the front off the queue: the rest of the queue lies within one
      distance of it, no undiscovered node is closer, and nothing has been
      discovered yet by scanning its list. */
  lemma {:induction false} RoundStart(edges: seq<Edge>, n: nat, s: int, t: int, maxDistance: int, dist: seq<int>,
                   queue: seq<int>, unseen: set<int>)
    requires Searching(edges, n, s, t, maxDistance, dist, queue, unseen, false, -1) && queue != []
    ensures 0 <= queue[0] < n && dist[queue[0]] >= 0 && dist[t] == -1
    ensures Exact(edges, n, s, queue[0], dist[queue[0]]) && Beyond(edges, n, s, dist, dist[queue[0]])
    ensures Closed(AdjLists(edges, n), dist, queue[1..], queue[0])
    ensures Scanning(edges, n, s, t, dist, dist, dist[queue[0]], queue[1..], queue[1..], unseen, unseen)
  {
    Cutoff(edges, n, s, dist, queue);
    Pop(AdjLists(edges, n), dist, queue);
  }

  /** After the scan of current's list the search is again in a consistent
      state, and it has made progress. */
  lemma {:induction false} RoundEnd(edges: seq<Edge>, n: nat, s: int, t: int, maxDistance: int, d0: seq<int>, d: seq<int>,
                 level: int, queue: seq<int>, next: seq<int>, unseen0: set<int>, unseen: set<int>,
                 current: int, found: bool, r: int)
    requires Scanning(edges, n, s, t, d0, d, level, queue, next, unseen0, unseen)
    requires 0 <= current < n && 0 <= s < n && 0 <= t < n && d0[s] != -1 && d0[current] == level >= 0
    requires Closed(AdjLists(edges, n), d0, queue, current)
    requires !found ==> d[t] == -1 && forall j :: 0 <= j < |AdjLists(edges, n)[current]| ==>
      (0 <= AdjLists(edges, n)[current][j] < n && d[AdjLists(edges, n)[current][j]] != -1)
    requires found ==> d[t] == level + 1 == r && (maxDistance > 0 ==> level < maxDistance)
    ensures Searching(edges, n, s, t, maxDistance, d, next, unseen, found, r)
    ensures |unseen| + |next| <= |unseen0| + |queue|
  {
    if !found {
      assert forall v :: 0 <= v < n && d0[v] == -1 && d[v] != -1 ==> v in next;
      ScanCloses(AdjLists(edges, n), d0, d, queue, next, current);
    }
  }

  /** One round of the search: take the front of the queue; stop (`cut`) if it
      is already at the cutoff distance, otherwise scan its neighbours. */
  method Round(adj: array<seq<int>>, distance: array<int>, ghost edges: seq<Edge>, n: nat, s: int, t: int,
               maxDistance: int, queue: seq<int>, ghost unseen: set<int>)
    returns (next: seq<int>, found: bool, r: int, cut: bool, ghost unseen': set<int>)
    requires adj.Length == n && distance.Length == n && adj[..] == AdjLists(edges, n)
    requires Searching(edges, n, s, t, maxDistance, distance[..], queue, unseen, false, -1) && queue != []
    modifies distance
    ensures !cut ==> Searching(edges, n, s, t, maxDistance, distance[..], next, unseen', found, r)
    ensures !cut ==> |unseen'| + |next| < |unseen| + |queue|
    ensures cut ==> forall d: nat :: HasWalk(edges, n, s, t, d) ==> maxDistance > 0 && d > maxDistance
  {
    var current := queue[0];
    RoundStart(edges, n, s, t, maxDistance, distance[..], queue, unseen);
    next, found, r, cut, unseen' := queue[1..], false, -1, false, unseen;
    if maxDistance > 0 && distance[current] >= maxDistance {
      cut := true;
      return;
    }
    ghost var d0 := distance[..];
    var level := distance[current];
    var nbrs := adj[current];
    assert nbrs == AdjLists(edges, n)[current] by { assert nbrs == adj[..][current]; }
    Neighbours(edges, n, current);
    next, found, unseen' := Scan(distance, edges, n, s, t, d0, level, next, unseen, current, nbrs);
    r := if found then level + 1 else -1;
    RoundEnd(edges, n, s, t, maxDistance, d0, distance[..], level, queue[1..], next, unseen, unseen',
             current, found, r);
  }

  /** The search starts with only s discovered, at distance 0, and queued. */
  lemma {:induction false} SearchStart(edges: seq<Edge>, n: nat, s: int, t: int, maxDistance: int, dist: seq<int>, unseen: set<int>)
    requires 0 <= s < n && 0 <= t < n && s != t && |dist| == n
    requires forall v :: 0 <= v < n ==> dist[v] == if v == s then 0 else -1
    requires forall v :: v in unseen <==> 0 <= v < n && dist[v] == -1
    ensures Searching(edges, n, s, t, maxDistance, dist, [s], unseen, false, -1)
  {
    WalkStart(edges, n, s);
    assert Exact(edges, n, s, s, 0);
  }

  /** When the search ends without a cut, its answer is the one the query owes. */
  lemma {:induction false} SearchEnd(edges: seq<Edge>, n: nat, s: int, t: int, maxDistance: int, dist: seq<int>,
                  queue: seq<int>, unseen: set<int>, found: bool, r: int)
    requires Searching(edges, n, s, t, maxDistance, dist, queue, unseen, found, r) && s != t
    requires found || queue == []
    ensures Answers(edges, n, maxDistance, (s + 1, t + 1), if found then r else -1)
  {
    if !found {
      Exhausted(edges, n, s, dist, t);
    }
  }

  /** One query of shortest_paths_cpp for two distinct in-range nodes: a
      breadth-first search from s that stops when t is discovered, or when the
      node taken from the queue is already at the cutoff distance. */
  method Bfs(adj: array<seq<int>>, ghost edges: seq<Edge>, n: nat, s: int, t: int, maxDistance: int)
    returns (r: int)
    requires adj.Length == n && adj[..] == AdjLists(edges, n)
    requires 0 <= s < n && 0 <= t < n && s != t
    ensures Answers(edges, n, maxDistance, (s + 1, t + 1), r)
  {
    var distance := new int[n](v => -1);
    distance[s] := 0;
    var queue := [s];
    ghost var unseen := set v | 0 <= v < n && distance[v] == -1;
    SearchStart(edges, n, s, t, maxDistance, distance[..], unseen);
    var found := false;
    r := -1;
    var cut := false;
    while queue != [] && !found
      invariant distance.Length == n
      invariant Searching(edges, n, s, t, maxDistance, distance[..], queue, unseen, found, r)
      decreases |unseen| + |queue|
    {
      queue, found, r, cut, unseen := Round(adj, distance, edges, n, s, t, maxDistance, queue, unseen);
      if cut {
        break;
      }
    }
    if cut {
      r := -1;
    } else {
      SearchEnd(edges, n, s, t, maxDistance, distance[..], queue, unseen, found, r);
      if !found {
        r := -1;
      }
    }
  }

  /** shortest_paths_cpp: the adjacency lists are built once, then each query
      gets -1 for an endpoint out of range, 0 for a node with itself, and
      otherwise the result of a breadth-first search. */
  method ShortestPaths(edges: seq<Edge>, queries: seq<Edge>, n: nat, maxDistance: int) returns (result: array<int>)
    ensures fresh(result) && result.Length == |queries|
    ensures forall i :: 0 <= i < |queries| ==> Answers(edges, n, maxDistance, queries[i], result[i])
  {
    var adj := BuildAdjacency(edges, n);
    result := new int[|queries|];
    var q := 0;
    while q < |queries|
      invariant 0 <= q <= |queries|
      invariant forall i :: 0 <= i < q ==> Answers(edges, n, maxDistance, queries[i], result[i])
      modifies result
    {
      var source := queries[q].0 - 1;
      var target := queries[q].1 - 1;
      if source < 0 || source >= n || target < 0 || target >= n {
        result[q] := -1;
      } else if source == target {
        result[q] := 0;
      } else {
        var r := Bfs(adj, edges, n, source, target, maxDistance);
        result[q] := r;
      }
      q := q + 1;
    }
  }
}
