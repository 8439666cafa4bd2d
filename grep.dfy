/**
  Multi-pattern fixed-string matching: multi_grepl_cpp (a string-by-pattern
  matrix, or one "any pattern" column) and multi_grepl_any_cpp (the same any
  test as a vector). With ignore_case both the strings and the patterns are
  lower-cased first; a match is a plain substring occurrence.
 */
module Grep {

  /** c and d are the same character up to ASCII case: equal, or the upper-
      and lower-case forms of one letter. */
  predicate SameUpToCase(c: char, d: char) {
    || c == d
    || ('A' <= c <= 'Z' && d as int == c as int + ('a' as int - 'A' as int))
    || ('A' <= d <= 'Z' && c as int == d as int + ('a' as int - 'A' as int))
  }

  /** a and b have the same length and agree position by position up to ASCII case. */
  predicate EqualUpToCase(a: string, b: string) {
    |a| == |b| && forall i :: 0 <= i < |a| ==> SameUpToCase(a[i], b[i])
  }

  /** ASCII lower-casing of one character: 'A'..'Z' go to the letter at the same
      place in 'a'..'z', everything else is unchanged. */
  function LowerChar(c: char): (l: char)
    ensures !('A' <= l <= 'Z')
    ensures 'A' <= c <= 'Z' ==> 'a' <= l <= 'z' && l as int - 'a' as int == c as int - 'A' as int
    ensures !('A' <= c <= 'Z') ==> l == c
  {
    if 'A' <= c <= 'Z' then (c as int + 32) as char else c
  }

  /** Lower-casing a string character by character: the result has no
      upper-case letter and is the input up to case. */
  function Lower(s: string): (t: string)
    ensures EqualUpToCase(s, t)
    ensures forall i :: 0 <= i < |t| ==> !('A' <= t[i] <= 'Z')
  {
    seq(|s|, i requires 0 <= i < |s| => LowerChar(s[i]))
  }

  /** Lower-casing twice is lower-casing once. */
  lemma {:induction false} LowerIdempotent(s: string)
    ensures Lower(Lower(s)) == Lower(s)
  {
  }

  /** Lower-casing commutes with taking a slice. */
  lemma {:induction false} LowerSlice(s: string, i: int, j: int)
    requires 0 <= i <= j <= |s|
    ensures Lower(s)[i..j] == Lower(s[i..j])
  {
  }

  /** std::transform with ::tolower, in place over the characters. */
  method ToLower(a: array<char>)
    modifies a
    ensures a[..] == Lower(old(a[..]))
  {
    var i := 0;
    while i < a.Length
      invariant 0 <= i <= a.Length
      invariant forall j :: 0 <= j < i ==> a[j] == LowerChar(old(a[j]))
      invariant forall j :: i <= j < a.Length ==> a[j] == old(a[j])
    {
      a[i] := LowerChar(a[i]);
      i := i + 1;
    }
  }

  /** The string as the loops see it: lower-cased in a scratch copy when
      ignore_case is set. */
  method Prepared(s: string, ignoreCase: bool) returns (t: string)
    ensures t == Prepare(s, ignoreCase)
  {
    t := s;
    if ignoreCase {
      var buf := new char[|s|](i requires 0 <= i < |s| => s[i]);
      assert buf[..] == s;
      ToLower(buf);
      t := buf[..];
    }
  }

  function Prepare(s: string, ignoreCase: bool): (t: string) {
    if ignoreCase then Lower(s) else s
  }

  /** p occurs in s at position i. */
  predicate OccursAt(s: string, p: string, i: int) {
    0 <= i <= |s| - |p| && s[i..i + |p|] == p
  }

  /** p is a substring of s (the empty string is a substring of every string). */
  predicate Contains(s: string, p: string) {
    exists i :: 0 <= i <= |s| - |p| && OccursAt(s, p, i)
  }

  /** std::string::find: the first position where p occurs in s, or -1 (npos)
      when it occurs nowhere. */
  method Find(s: string, p: string) returns (pos: int)
    ensures pos == -1 <==> !Contains(s, p)
    ensures pos != -1 ==> OccursAt(s, p, pos) && forall j :: 0 <= j < pos ==> !OccursAt(s, p, j)
  {
    var i := 0;
    while i <= |s| - |p|
      invariant 0 <= i && (i <= |s| - |p| + 1 || i == 0)
      invariant forall j :: 0 <= j < i ==> !OccursAt(s, p, j)
    {
      if s[i..i + |p|] == p {
        assert OccursAt(s, p, i);
        return i;
      }
      i := i + 1;
    }
    pos := -1;
  }

  /** An occurrence survives lower-casing both sides. */
  lemma {:induction false} ContainsLower(s: string, p: string)
    requires Contains(s, p)
    ensures Contains(Lower(s), Lower(p))
  {
    var i :| 0 <= i <= |s| - |p| && OccursAt(s, p, i);
    LowerSlice(s, i, i + |p|);
    assert OccursAt(Lower(s), Lower(p), i);
  }

  /** Cell (i, p) of the matrix: pattern p occurs in string i, both prepared. */
  predicate Hit(str: string, pattern: string, ignoreCase: bool) {
    Contains(Prepare(str, ignoreCase), Prepare(pattern, ignoreCase))
  }

  /** Two strings lower-case to the same string exactly when they are equal up
      to case. */
  lemma {:induction false} LowerEqualIffUpToCase(a: string, b: string)
    ensures Lower(a) == Lower(b) <==> EqualUpToCase(a, b)
  {
    if Lower(a) == Lower(b) {
      forall i | 0 <= i < |a|
        ensures SameUpToCase(a[i], b[i])
      {
        assert Lower(a)[i] == LowerChar(a[i]) && Lower(b)[i] == LowerChar(b[i]);
      }
    }
    if EqualUpToCase(a, b) {
      forall i | 0 <= i < |a|
        ensures Lower(a)[i] == Lower(b)[i]
      {
        assert Lower(a)[i] == LowerChar(a[i]) && Lower(b)[i] == LowerChar(b[i]);
      }
    }
  }

  /** With ignore_case, a string matches a pattern whatever the case of either:
      inputs that agree up to case match alike. */
  lemma {:induction false} HitIgnoresCase(s1: string, s2: string, p1: string, p2: string)
    requires EqualUpToCase(s1, s2) && EqualUpToCase(p1, p2)
    ensures Hit(s1, p1, true) == Hit(s2, p2, true)
  {
    LowerEqualIffUpToCase(s1, s2);
    LowerEqualIffUpToCase(p1, p2);
  }

  /** A case-sensitive match is also a case-insensitive one. */
  lemma {:induction false} HitWithoutCase(str: string, pattern: string)
    requires Hit(str, pattern, false)
    ensures Hit(str, pattern, true)
  {
    ContainsLower(str, pattern);
  }

  /** The early-exit loop over the patterns: true once some pattern, tried in
      order, is found. */
  function AnyHit(str: string, patterns: seq<string>, ignoreCase: bool): (found: bool) {
    if |patterns| == 0 then false
    else AnyHit(str, patterns[..|patterns| - 1], ignoreCase) || Hit(str, patterns[|patterns| - 1], ignoreCase)
  }

  /** The any test is the disjunction of the string's matrix row: true exactly
      when some pattern matches, so false for every string when there are no
      patterns. */
  lemma {:induction false} AnyHitIsSomeHit(str: string, patterns: seq<string>, ignoreCase: bool)
    ensures AnyHit(str, patterns, ignoreCase) <==> exists p :: 0 <= p < |patterns| && Hit(str, patterns[p], ignoreCase)
  {
    if |patterns| > 0 {
      var init := patterns[..|patterns| - 1];
      AnyHitIsSomeHit(str, init, ignoreCase);
      if AnyHit(str, init, ignoreCase) {
        var p :| 0 <= p < |init| && Hit(str, init[p], ignoreCase);
        assert patterns[p] == init[p];
      }
      if exists p :: 0 <= p < |patterns| && Hit(str, patterns[p], ignoreCase) {
        var p :| 0 <= p < |patterns| && Hit(str, patterns[p], ignoreCase);
        if p < |init| {
          assert init[p] == patterns[p];
        }
      }
    }
  }

  /** The pattern vector, each pattern lower-cased when ignore_case is set. */
  method PreparePatterns(patterns: seq<string>, ignoreCase: bool) returns (vec: array<string>)
    ensures fresh(vec) && vec.Length == |patterns|
    ensures forall p :: 0 <= p < |patterns| ==> vec[p] == Prepare(patterns[p], ignoreCase)
  {
    vec := new string[|patterns|];
    var p := 0;
    while p < |patterns|
      invariant 0 <= p <= |patterns|
      invariant forall q :: 0 <= q < p ==> vec[q] == Prepare(patterns[q], ignoreCase)
    {
      vec[p] := Prepared(patterns[p], ignoreCase);
      p := p + 1;
    }
  }

  /** The found_match loop for one prepared string over the prepared patterns. */
  method MatchesAny(str: string, vec: array<string>, ghost source: string, ghost patterns: seq<string>,
                    ignoreCase: bool) returns (found: bool)
    requires str == Prepare(source, ignoreCase) && vec.Length == |patterns|
    requires forall p :: 0 <= p < |patterns| ==> vec[p] == Prepare(patterns[p], ignoreCase)
    ensures found == AnyHit(source, patterns, ignoreCase)
  {
    found := false;
    var p := 0;
    while p < vec.Length && !found
      invariant 0 <= p <= vec.Length
      invariant found == AnyHit(source, patterns[..p], ignoreCase)
    {
      assert patterns[..p + 1][..p] == patterns[..p];
      var pos := Find(str, vec[p]);
      if pos != -1 {
        found := true;
      }
      p := p + 1;
    }
    if found {
      AnyHitIsSomeHit(source, patterns[..p], ignoreCase);
      AnyHitIsSomeHit(source, patterns, ignoreCase);
      ghost var q :| 0 <= q < p && Hit(source, patterns[..p][q], ignoreCase);
      assert patterns[q] == patterns[..p][q];
    } else {
      assert patterns[..p] == patterns;
    }
  }

  /** multi_grepl_cpp. With matchAny the result has one column, the any test
      of each string; otherwise cell (i, p) says whether pattern p matches
      string i. */
  method MultiGrepl(strings: seq<string>, patterns: seq<string>, matchAny: bool, ignoreCase: bool)
    returns (result: array2<bool>)
    ensures fresh(result) && result.Length0 == |strings|
    ensures matchAny ==> result.Length1 == 1
    ensures matchAny ==> forall i :: 0 <= i < |strings| ==> result[i, 0] == AnyHit(strings[i], patterns, ignoreCase)
    ensures !matchAny ==> result.Length1 == |patterns|
    ensures !matchAny ==> forall i, p :: 0 <= i < |strings| && 0 <= p < |patterns| ==>
      result[i, p] == Hit(strings[i], patterns[p], ignoreCase)
  {
    var vec := PreparePatterns(patterns, ignoreCase);
    if matchAny {
      var column := AnyColumn(strings, vec, patterns, ignoreCase);
      result := new bool[|strings|, 1];
      var i := 0;
      while i < |strings|
        invariant 0 <= i <= |strings|
        invariant forall j :: 0 <= j < i ==> result[j, 0] == column[j]
        modifies result
      {
        result[i, 0] := column[i];
        i := i + 1;
      }
    } else {
      result := new bool[|strings|, |patterns|];
      var i := 0;
      while i < |strings|
        invariant 0 <= i <= |strings|
        invariant forall j, p :: 0 <= j < i && 0 <= p < |patterns| ==>
          result[j, p] == Hit(strings[j], patterns[p], ignoreCase)
        modifies result
      {
        var str := Prepared(strings[i], ignoreCase);
        var p := 0;
        while p < |patterns|
          invariant 0 <= p <= |patterns|
          invariant forall j, q :: 0 <= j < i && 0 <= q < |patterns| ==>
            result[j, q] == Hit(strings[j], patterns[q], ignoreCase)
          invariant forall q :: 0 <= q < p ==> result[i, q] == Hit(strings[i], patterns[q], ignoreCase)
        {
          var pos := Find(str, vec[p]);
          result[i, p] := pos != -1;
          p := p + 1;
        }
        i := i + 1;
      }
    }
  }

  /** The any test for every string, over an already prepared pattern vector. */
  method AnyColumn(strings: seq<string>, vec: array<string>, ghost patterns: seq<string>, ignoreCase: bool)
    returns (result: array<bool>)
    requires vec.Length == |patterns|
    requires forall p :: 0 <= p < |patterns| ==> vec[p] == Prepare(patterns[p], ignoreCase)
    ensures fresh(result) && result.Length == |strings|
    ensures forall i :: 0 <= i < |strings| ==> result[i] == AnyHit(strings[i], patterns, ignoreCase)
  {
    result := new bool[|strings|];
    var i := 0;
    while i < |strings|
      invariant 0 <= i <= |strings|
      invariant forall j :: 0 <= j < i ==> result[j] == AnyHit(strings[j], patterns, ignoreCase)
    {
      var str := Prepared(strings[i], ignoreCase);
      result[i] := MatchesAny(str, vec, strings[i], patterns, ignoreCase);
      i := i + 1;
    }
  }

  /** multi_grepl_any_cpp: the any test of each string, as a vector. */
  method MultiGreplAny(strings: seq<string>, patterns: seq<string>, ignoreCase: bool) returns (result: array<bool>)
    ensures fresh(result) && result.Length == |strings|
    ensures forall i :: 0 <= i < |strings| ==> result[i] == AnyHit(strings[i], patterns, ignoreCase)
  {
    var vec := PreparePatterns(patterns, ignoreCase);
    result := AnyColumn(strings, vec, patterns, ignoreCase);
  }
}
