/**
  The disjoint-set engine as an object: two arrays, `parent` and `rank`, updated
  in place by find (path compression) and union_sets (union by rank). Each
  method is proved to move the arrays from Model() to the forest that the
  matching function of DisjointSet computes.
 */
module UnionFindEngine {
  import opened DisjointSet

  class UnionFind {
    const parent: array<int>
    const rank: array<int>

    /** The forest the two arrays currently hold. */
    ghost function Model(): Forest
      reads parent, rank
    {
      Forest(parent[..], rank[..])
    }

    /** Object invariant: two separate arrays holding a well-formed forest. */
    ghost predicate Valid()
      reads parent, rank
    {
      parent != rank && WellFormed(Model())
    }

    /** UnionFind(n): n singleton sets, each node its own parent, all ranks 0. */
    constructor (n: nat)
      ensures Valid() && fresh(parent) && fresh(rank)
      ensures Model() == Init(n)
    {
      parent := new int[n];
      rank := new int[n](i => 0);
      new;
      var i := 0;
      while i < n
        invariant 0 <= i <= n
        invariant forall j :: 0 <= j < i ==> parent[j] == j
        invariant forall j :: 0 <= j < n ==> rank[j] == 0
      {
        parent[i] := i;
        i := i + 1;
      }
      assert parent[..] == Init(n).parent;
      assert rank[..] == Init(n).rank;
    }

    /** find(x): the root of x; on the way back every node of x's path is
        re-pointed at that root. */
    method Find(x: int) returns (r: int)
      requires Valid() && 0 <= x < parent.Length
      modifies parent
      ensures Valid()
      ensures r == Root(old(Model()), x)
      ensures Model() == Compress(old(Model()), x)
      ensures forall z :: 0 <= z < parent.Length ==> Root(Model(), z) == Root(old(Model()), z)
      decreases MaxRank(rank[..]) - rank[x]
    {
      ghost var before := Model();
      if parent[x] != x {
        var root := Find(parent[x]);
        parent[x] := root;
      }
      r := parent[x];
      assert parent[..] == Compress(before, x).parent;
      CompressPreserves(before, x);
    }

    /** union_sets(x, y): merges the sets of x and y by rank; false when they
        already share a root. */
    method UnionSets(x: int, y: int) returns (merged: bool)
      requires Valid() && 0 <= x < parent.Length && 0 <= y < parent.Length
      modifies parent, rank
      ensures Valid()
      ensures (Model(), merged) == Merge(old(Model()), x, y)
    {
      var px := Find(x);
      var py := Find(y);
      if px == py {
        return false;
      }
      LinkByRank(px, py);
      return true;
    }

    /** The linking step of union_sets on two distinct roots: the root of lower
        rank goes under the other; on a tie py goes under px and px's rank
        grows by one. */
    method LinkByRank(px: int, py: int)
      requires Valid() && 0 <= px < parent.Length && 0 <= py < parent.Length && px != py
      requires parent[px] == px && parent[py] == py
      modifies parent, rank
      ensures Valid()
      ensures Model() ==
        if old(rank[px]) < old(rank[py]) then Link(old(Model()), px, py, false)
        else if old(rank[px]) > old(rank[py]) then Link(old(Model()), py, px, false)
        else Link(old(Model()), py, px, true)
    {
      if rank[px] < rank[py] {
        parent[px] := py;
        assert Model() == Link(old(Model()), px, py, false);
      } else if rank[px] > rank[py] {
        parent[py] := px;
        assert Model() == Link(old(Model()), py, px, false);
      } else {
        parent[py] := px;
        rank[px] := rank[px] + 1;
        assert Model() == Link(old(Model()), py, px, true);
      }
    }

    /** connected(x, y): whether x and y share a root (both paths get compressed). */
    method Connected(x: int, y: int) returns (b: bool)
      requires Valid() && 0 <= x < parent.Length && 0 <= y < parent.Length
      modifies parent
      ensures Valid()
      ensures (Model(), b) == Connect(old(Model()), x, y)
    {
      var rx := Find(x);
      var ry := Find(y);
      b := rx == ry;
    }
  }
}
