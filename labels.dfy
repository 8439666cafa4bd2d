/**
  First-seen relabelling of roots, the step shared by find_components_cpp and
  get_edge_components_cpp: nodes are scanned in order 0..n-1 and each root gets
  an id the first time it is met, either the next dense id (compress) or the
  root itself. This module states that scan as a function and proves what its
  result means, independently of any graph.
 */
module Labels {
  import opened Sums

  /** The state of the scan: ids given so far, the root-to-id map, the next dense id. */
  datatype Scan = Scan(ids: seq<int>, seen: map<int, int>, next: int)

  /** The scan over `roots` (roots[i] is the root of node i). */
  function LabelScan(roots: seq<int>, compress: bool): (s: Scan)
    ensures |s.ids| == |roots| && s.next >= 0
  {
    if |roots| == 0 then Scan([], map[], 0)
    else
      var s := LabelScan(roots[..|roots| - 1], compress);
      var r := roots[|roots| - 1];
      if r in s.seen then Scan(s.ids + [s.seen[r]], s.seen, s.next)
      else if compress then Scan(s.ids + [s.next], s.seen[r := s.next], s.next + 1)
      else Scan(s.ids + [r], s.seen[r := r], s.next)
  }

  /** The scan over one more root. */
  lemma {:induction false} ScanSnoc(roots: seq<int>, i: int, compress: bool)
    requires 0 <= i < |roots|
    ensures var s := LabelScan(roots[..i], compress);
      var r := roots[i];
      LabelScan(roots[..i + 1], compress) ==
        if r in s.seen then Scan(s.ids + [s.seen[r]], s.seen, s.next)
        else if compress then Scan(s.ids + [s.next], s.seen[r := s.next], s.next + 1)
        else Scan(s.ids + [r], s.seen[r := r], s.next)
  {
    assert roots[..i + 1][..i] == roots[..i];
  }

  /** The largest element of s, or `floor` if that is larger (or s is empty). */
  function Top(s: seq<int>, floor: int): (t: int)
    ensures t >= floor
  {
    if |s| == 0 then floor
    else
      var t := Top(s[..|s| - 1], floor);
      if s[|s| - 1] > t then s[|s| - 1] else t
  }

  /** Top bounds every element and is either the floor or an element. */
  lemma {:induction false} TopBounds(s: seq<int>, floor: int)
    ensures forall i :: 0 <= i < |s| ==> s[i] <= Top(s, floor)
    ensures Top(s, floor) == floor || Top(s, floor) in s
  {
    if |s| > 0 {
      TopBounds(s[..|s| - 1], floor);
      assert s == s[..|s| - 1] + [s[|s| - 1]];
    }
  }

  /** Top of a sequence grown by one element. */
  lemma {:induction false} TopSnoc(s: seq<int>, x: int, floor: int)
    ensures Top(s + [x], floor) == if x > Top(s, floor) then x else Top(s, floor)
  {
    assert (s + [x])[..|s|] == s;
  }

  /** Ids start at `base` and each one is either already used or exactly one
      more than the largest id used before it: ids appear in the order their
      components are first met, with no gaps. */
  ghost predicate FirstSeen(c: seq<int>, base: int) {
    forall i :: 0 <= i < |c| ==> FirstSeenAt(c, base, i)
  }

  /** The first-seen condition at position i. */
  ghost predicate FirstSeenAt(c: seq<int>, base: int, i: int)
    requires 0 <= i < |c|
  {
    base <= c[i] <= Top(c[..i], base - 1) + 1
  }

  /** c[i] == c[j] exactly when roots[i] == roots[j]. */
  ghost predicate SamePartition(c: seq<int>, roots: seq<int>) {
    |c| == |roots| &&
    forall i, j :: 0 <= i < |c| && 0 <= j < |c| ==> (c[i] == c[j] <==> roots[i] == roots[j])
  }

  /** 1-based ids: every id shifted up by one. */
  function Shift(s: seq<int>): (t: seq<int>)
    ensures |t| == |s| && forall i :: 0 <= i < |s| ==> t[i] == s[i] + 1
  {
    seq(|s|, i requires 0 <= i < |s| => s[i] + 1)
  }

  /** Number of nodes per 0-based id k < count. */
  function Sizes(ids: seq<int>, count: nat): (sizes: seq<int>)
    ensures |sizes| == count && forall k :: 0 <= k < count ==> sizes[k] == multiset(ids)[k]
  {
    seq(count, k requires 0 <= k < count => multiset(ids)[k])
  }

  /** Without compression each node's id is its own root, and no dense id is used. */
  lemma {:induction false} RawLabelsAreRoots(roots: seq<int>)
    ensures LabelScan(roots, false).ids == roots && LabelScan(roots, false).next == 0
    ensures forall r :: r in LabelScan(roots, false).seen ==> LabelScan(roots, false).seen[r] == r
  {
    if |roots| > 0 {
      RawLabelsAreRoots(roots[..|roots| - 1]);
      assert roots == roots[..|roots| - 1] + [roots[|roots| - 1]];
    }
  }

  /** The map of the compressing scan is a bijection from the roots met so far
      onto 0..next-1, and every id is the map's value for its root. */
  lemma {:induction false} DenseMap(roots: seq<int>, s: Scan)
    requires s == LabelScan(roots, true)
    ensures && (forall r :: r in s.seen <==> r in roots)
      && (forall r :: r in s.seen ==> 0 <= s.seen[r] < s.next)
      && (forall r1, r2 :: r1 in s.seen && r2 in s.seen && s.seen[r1] == s.seen[r2] ==> r1 == r2)
      && (forall i :: 0 <= i < |roots| ==> roots[i] in s.seen && s.ids[i] == s.seen[roots[i]])
  {
    if |roots| > 0 {
      var pre := roots[..|roots| - 1];
      var r := roots[|roots| - 1];
      assert roots == pre + [r];
      DenseMap(pre, LabelScan(pre, true));
    }
  }

  /** A first-seen labelling stays first-seen when the next id is old or the
      one right after the largest so far. */
  lemma {:induction false} FirstSeenSnoc(c: seq<int>, x: int, base: int)
    requires FirstSeen(c, base) && base <= x <= Top(c, base - 1) + 1
    ensures FirstSeen(c + [x], base)
  {
    forall i | 0 <= i < |c| + 1
      ensures FirstSeenAt(c + [x], base, i)
    {
      if i < |c| {
        assert FirstSeenAt(c, base, i);
        assert (c + [x])[..i] == c[..i];
      } else {
        assert (c + [x])[..i] == c;
      }
    }
  }

  /** One step of the compressing scan keeps ids first-seen and next one past
      the largest: the new id is an old one or exactly next. */
  lemma {:induction false} OrderStep(c: seq<int>, x: int, next: int)
    requires next == Top(c, -1) + 1 && FirstSeen(c, 0) && 0 <= x <= next
    ensures (if x == next then next + 1 else next) == Top(c + [x], -1) + 1
    ensures FirstSeen(c + [x], 0)
  {
    TopSnoc(c, x, -1);
    FirstSeenSnoc(c, x, 0);
  }

  /** The compressing scan hands out ids in first-seen order, and next is one
      past the largest id. */
  lemma {:induction false} DenseOrder(roots: seq<int>, s: Scan)
    requires s == LabelScan(roots, true)
    ensures s.next == Top(s.ids, -1) + 1 && FirstSeen(s.ids, 0)
  {
    if |roots| > 0 {
      var pre := roots[..|roots| - 1];
      var r := roots[|roots| - 1];
      var s0 := LabelScan(pre, true);
      DenseOrder(pre, s0);
      DenseMap(pre, s0);
      var x := if r in s0.seen then s0.seen[r] else s0.next;
      OrderStep(s0.ids, x, s0.next);
    }
  }

  /** The compressing scan: ids are 0..next-1, first-seen ordered, and two nodes
      share an id exactly when they share a root. */
  lemma {:induction false} DenseLabels(roots: seq<int>, s: Scan)
    requires s == LabelScan(roots, true)
    ensures && SamePartition(s.ids, roots)
      && FirstSeen(s.ids, 0)
      && (forall i :: 0 <= i < |roots| ==> 0 <= s.ids[i] < s.next)
      && s.next == Top(s.ids, -1) + 1
  {
    DensePartition(roots, s);
    DenseOrder(roots, s);
    DenseBounds(roots, s);
  }

  /** Two nodes get the same dense id exactly when they share a root. */
  lemma {:induction false} DensePartition(roots: seq<int>, s: Scan)
    requires s == LabelScan(roots, true)
    ensures SamePartition(s.ids, roots)
  {
    DenseMap(roots, s);
    forall i, j | 0 <= i < |s.ids| && 0 <= j < |s.ids|
      ensures s.ids[i] == s.ids[j] <==> roots[i] == roots[j]
    {
      assert s.ids[i] == s.seen[roots[i]] && s.ids[j] == s.seen[roots[j]];
    }
  }

  /** The compressing scan's ids lie in 0..next-1. */
  lemma {:induction false} DenseBounds(roots: seq<int>, s: Scan)
    requires s == LabelScan(roots, true)
    ensures forall i :: 0 <= i < |s.ids| ==> 0 <= s.ids[i] < s.next
  {
    if |roots| > 0 {
      var pre := roots[..|roots| - 1];
      var s0 := LabelScan(pre, true);
      DenseBounds(pre, s0);
      DenseMap(pre, s0);
      assert s.ids[..|pre|] == s0.ids;
    }
  }

  /** Every id below next is used by some node. */
  lemma {:induction false} DenseCovers(roots: seq<int>, s: Scan)
    requires s == LabelScan(roots, true)
    ensures forall v :: 0 <= v < s.next ==> v in s.ids
  {
    DenseOrder(roots, s);
    FirstSeenHasNoGaps(s.ids, 0, |s.ids|);
    assert s.ids[..|s.ids|] == s.ids;
  }

  /** Every value from base up to the largest id of a first-seen prefix occurs in it. */
  lemma {:induction false} FirstSeenHasNoGaps(c: seq<int>, base: int, m: nat)
    requires FirstSeen(c, base) && m <= |c|
    ensures forall v :: base <= v <= Top(c[..m], base - 1) ==> v in c[..m]
  {
    if m > 0 {
      FirstSeenHasNoGaps(c, base, m - 1);
      assert FirstSeenAt(c, base, m - 1);
      assert c[..m] == c[..m - 1] + [c[m - 1]];
      assert c[..m][..m - 1] == c[..m - 1];
    }
  }

  /** One step of uniqueness: two first-seen labellings that agree before m
      and group the nodes alike also agree at m. */
  lemma {:induction false} FirstSeenStep(c1: seq<int>, c2: seq<int>, base: int, m: nat)
    requires |c1| == |c2| && m < |c1|
    requires forall i, j :: 0 <= i < |c1| && 0 <= j < |c1| ==> (c1[i] == c1[j] <==> c2[i] == c2[j])
    requires FirstSeen(c1, base) && FirstSeen(c2, base)
    requires c1[..m] == c2[..m]
    ensures c1[m] == c2[m]
  {
    FirstSeenHasNoGaps(c1, base, m);
    FirstSeenHasNoGaps(c2, base, m);
    assert FirstSeenAt(c1, base, m) && FirstSeenAt(c2, base, m);
    if c1[m] in c1[..m] {
      var j :| 0 <= j < m && c1[..m][j] == c1[m];
      assert c1[j] == c1[m];
      assert c2[j] == c2[m];
      assert c1[j] == c1[..m][j] == c2[..m][j] == c2[j];
    } else {
      forall j | 0 <= j < m
        ensures c2[..m][j] != c2[m]
      {
        assert c1[..m][j] != c1[m];
      }
      assert c2[m] !in c2[..m];
    }
  }

  /** A first-seen labelling is fixed by the partition it induces: two of them
      that group the nodes alike are equal, so re-running the assignment on an
      unchanged structure reproduces the same ids. */
  lemma {:induction false} FirstSeenUnique(c1: seq<int>, c2: seq<int>, base: int)
    requires |c1| == |c2|
    requires forall i, j :: 0 <= i < |c1| && 0 <= j < |c1| ==> (c1[i] == c1[j] <==> c2[i] == c2[j])
    requires FirstSeen(c1, base) && FirstSeen(c2, base)
    ensures c1 == c2
  {
    var m := 0;
    while m < |c1|
      invariant 0 <= m <= |c1|
      invariant c1[..m] == c2[..m]
    {
      FirstSeenStep(c1, c2, base, m);
      assert c1[..m + 1] == c1[..m] + [c1[m]];
      assert c2[..m + 1] == c2[..m] + [c2[m]];
      m := m + 1;
    }
    assert c1 == c1[..m] && c2 == c2[..m];
  }

  /** Shifting every element up by one shifts the largest one too. */
  lemma {:induction false} TopShift(s: seq<int>, floor: int)
    ensures Top(Shift(s), floor + 1) == Top(s, floor) + 1
  {
    if |s| > 0 {
      TopShift(s[..|s| - 1], floor);
      assert Shift(s)[..|s| - 1] == Shift(s[..|s| - 1]);
    }
  }

  lemma {:induction false} ShiftPrefix(c: seq<int>, i: nat)
    requires i <= |c|
    ensures Shift(c)[..i] == Shift(c[..i])
  {
  }

  /** Shifting a 0-based first-seen labelling gives a 1-based one. */
  lemma {:induction false} ShiftFirstSeen(c: seq<int>)
    requires FirstSeen(c, 0)
    ensures FirstSeen(Shift(c), 1)
    ensures Top(Shift(c), 0) == Top(c, -1) + 1
  {
    forall i | 0 <= i < |c|
      ensures FirstSeenAt(Shift(c), 1, i)
    {
      assert FirstSeenAt(c, 0, i);
      ShiftPrefix(c, i);
      TopShift(c[..i], -1);
    }
    TopShift(c, -1);
  }

  /** The component sizes add up to the number of labelled nodes. */
  lemma {:induction false} SizesSum(ids: seq<int>, count: nat)
    requires forall i :: 0 <= i < |ids| ==> 0 <= ids[i] < count
    ensures Sum(Sizes(ids, count)) == |ids|
  {
    if |ids| == 0 {
      ZeroSum(count);
      assert Sizes(ids, count) == seq(count, k => 0);
    } else {
      var pre := ids[..|ids| - 1];
      var x := ids[|ids| - 1];
      assert ids == pre + [x];
      SizesSum(pre, count);
      assert Sizes(ids, count) == Sizes(pre, count)[x := Sizes(pre, count)[x] + 1];
      SumBumpAt(Sizes(pre, count), x, 1);
    }
  }

  /** Shifting moves each id's count up to the next id. */
  lemma {:induction false} MultisetShift(s: seq<int>, k: int)
    ensures multiset(Shift(s))[k + 1] == multiset(s)[k]
  {
    if |s| > 0 {
      var pre := s[..|s| - 1];
      MultisetShift(pre, k);
      assert s == pre + [s[|s| - 1]];
      assert Shift(s) == Shift(pre) + [s[|s| - 1] + 1];
    }
  }

  /** The compressing scan after the 1-based shift: ids are in first-seen
      order from 1, the largest is next, and the first node gets 1. */
  lemma {:induction false} DenseShifted(roots: seq<int>, s: Scan, c: seq<int>)
    requires s == LabelScan(roots, true) && c == Shift(s.ids)
    ensures FirstSeen(c, 1)
    ensures s.next == Top(c, 0)
    ensures |c| > 0 ==> c[0] == 1
  {
    DenseOrder(roots, s);
    ShiftFirstSeen(s.ids);
    if |c| > 0 {
      assert FirstSeenAt(c, 1, 0) && c[..0] == [];
    }
  }

  /** After the shift the ids run over exactly 1..next. */
  lemma {:induction false} DenseShiftedRange(roots: seq<int>, s: Scan, c: seq<int>)
    requires s == LabelScan(roots, true) && c == Shift(s.ids)
    ensures forall i :: 0 <= i < |c| ==> 1 <= c[i] <= s.next
    ensures forall v :: 1 <= v <= s.next ==> v in c
  {
    DenseBounds(roots, s);
    DenseCovers(roots, s);
    forall v | 1 <= v <= s.next
      ensures v in c
    {
      MultisetShift(s.ids, v - 1);
      assert v - 1 in s.ids;
    }
  }

  /** With the shift, the sizes count the nodes carrying each 1-based id, none
      is zero, and they add up to the number of nodes. */
  lemma {:induction false} DenseSizes(roots: seq<int>, s: Scan, c: seq<int>, sizes: seq<int>)
    requires s == LabelScan(roots, true) && c == Shift(s.ids) && sizes == Sizes(s.ids, s.next)
    ensures |sizes| == s.next
    ensures forall k :: 0 <= k < s.next ==> sizes[k] == multiset(c)[k + 1]
    ensures forall k :: 0 <= k < s.next ==> sizes[k] >= 1
    ensures Sum(sizes) == |roots|
  {
    DenseBounds(roots, s);
    SizesSum(s.ids, s.next);
    DenseCovers(roots, s);
    forall k | 0 <= k < s.next
      ensures sizes[k] == multiset(c)[k + 1] && sizes[k] >= 1
    {
      MultisetShift(s.ids, k);
      assert k in s.ids;
    }
  }

  /** Counting one more node with id x adds one to size x and nothing else. */
  lemma {:induction false} SizesSnoc(ids: seq<int>, x: int, count: nat)
    requires 0 <= x < count
    ensures Sizes(ids + [x], count) == Sizes(ids, count)[x := Sizes(ids, count)[x] + 1]
  {
    assert multiset(ids + [x]) == multiset(ids) + multiset{x};
  }

  /** The compressing scan's ids lie in 0..next-1; the plain scan uses no dense id. */
  lemma {:induction false} ScanBounds(roots: seq<int>, compress: bool)
    ensures forall i :: 0 <= i < |roots| && compress ==>
      0 <= LabelScan(roots, compress).ids[i] < LabelScan(roots, compress).next
    ensures !compress ==> LabelScan(roots, compress).next == 0
  {
    if compress {
      DenseBounds(roots, LabelScan(roots, compress));
    } else {
      RawLabelsAreRoots(roots);
    }
  }
}
