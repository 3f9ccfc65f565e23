/**
 * Sequence helpers shared by the pages and the charts: `Math.min`/`Math.max`
 * on integers, `Array.prototype.filter` with the positions its result comes
 * from, and the sum of a measure over a list.
 */
module Sequences {

  function Min(a: int, b: int): int { if a <= b then a else b }
  function Max(a: int, b: int): int { if a >= b then a else b }

  /** `s.filter(p)`. */
  function Keep<T(!new)>(s: seq<T>, p: T -> bool): (r: seq<T>)
    ensures |r| <= |s|
    ensures forall x :: x in r <==> x in s && p(x)
    ensures forall x :: multiset(r)[x] == if p(x) then multiset(s)[x] else 0
  {
    if s == [] then []
    else
      var front := Keep(s[..|s| - 1], p);
      var x := s[|s| - 1];
      assert s == s[..|s| - 1] + [x];
      assert multiset(s) == multiset(s[..|s| - 1]) + multiset{x};
      if p(x) then front + [x] else front
  }

  /** `r` is `s` at the increasing positions `idx`. */
  ghost predicate AtPositions<T>(s: seq<T>, r: seq<T>, idx: seq<nat>)
  {
    && |idx| == |r|
    && (forall i :: 0 <= i < |idx| ==> idx[i] < |s| && s[idx[i]] == r[i])
    && (forall i, j :: 0 <= i < j < |idx| ==> idx[i] < idx[j])
  }

  /** `idx` holds exactly the positions of `s` whose elements pass `p`. */
  ghost predicate PassingPositions<T>(s: seq<T>, p: T -> bool, idx: seq<nat>)
  {
    forall k :: 0 <= k < |s| ==> (k in idx <==> p(s[k]))
  }

  /**
   * The positions of the kept elements: `Keep(s, p)` is `s` at increasing
   * positions, and these are exactly the positions of the passing elements.
   * So filtering only drops elements and keeps the order of the rest.
   */
  function KeptPositions<T(!new)>(s: seq<T>, p: T -> bool): (idx: seq<nat>)
    ensures AtPositions(s, Keep(s, p), idx)
    ensures PassingPositions(s, p, idx)
  {
    if s == [] then []
    else
      var n := |s| - 1;
      var front := KeptPositions(s[..n], p);
      var f := Keep(s[..n], p);
      assert Keep(s, p) == if p(s[n]) then f + [s[n]] else f;
      AtPositionsSnoc(s, f, front, p(s[n]));
      PassingPositionsSnoc(s, p, front);
      if p(s[n]) then front + [n] else front
  }

  lemma AtPositionsSnoc<T>(s: seq<T>, f: seq<T>, front: seq<nat>, take: bool)
    requires |s| > 0 && AtPositions(s[..|s| - 1], f, front)
    ensures take ==> AtPositions(s, f + [s[|s| - 1]], front + [|s| - 1])
    ensures !take ==> AtPositions(s, f, front)
  {
    var n := |s| - 1;
    assert forall i :: 0 <= i < |front| ==> s[..n][front[i]] == s[front[i]];
  }

  lemma PassingPositionsSnoc<T>(s: seq<T>, p: T -> bool, front: seq<nat>)
    requires |s| > 0 && PassingPositions(s[..|s| - 1], p, front)
    requires forall i :: 0 <= i < |front| ==> front[i] < |s| - 1
    ensures PassingPositions(s, p, if p(s[|s| - 1]) then front + [|s| - 1] else front)
  {
    var n := |s| - 1;
    var idx := if p(s[n]) then front + [n] else front;
    forall k | 0 <= k < |s| ensures k in idx <==> p(s[k]) {
      if k < n {
        assert s[..n][k] == s[k];
        assert k in idx <==> k in front;
      } else {
        assert n !in front;
      }
    }
  }

  /** Filtering a list with one more element at the end. */
  lemma KeepSnoc<T(!new)>(s: seq<T>, x: T, p: T -> bool)
    ensures Keep(s + [x], p) == if p(x) then Keep(s, p) + [x] else Keep(s, p)
  {
    assert (s + [x])[..|s|] == s;
  }

  /** When every element passes, the filter keeps the whole list. */
  lemma {:induction false} KeepAll<T(!new)>(s: seq<T>, p: T -> bool)
    requires forall x :: x in s ==> p(x)
    ensures Keep(s, p) == s
  {
    if s != [] {
      var front := s[..|s| - 1];
      assert s == front + [s[|s| - 1]];
      KeepAll(front, p);
    }
  }

  /** Filtering by two tests in either order gives the same list. */
  lemma {:induction false} KeepCommutes<T(!new)>(s: seq<T>, p: T -> bool, q: T -> bool)
    ensures Keep(Keep(s, p), q) == Keep(Keep(s, q), p)
  {
    if s != [] {
      var front, x := s[..|s| - 1], s[|s| - 1];
      assert s == front + [x];
      KeepCommutes(front, p, q);
      if p(x) {
        KeepSnoc(Keep(front, p), x, q);
      }
      if q(x) {
        KeepSnoc(Keep(front, q), x, p);
      }
    }
  }

  /** Filtering twice with the same test is filtering once. */
  lemma {:induction false} KeepIdempotent<T(!new)>(s: seq<T>, p: T -> bool)
    ensures Keep(Keep(s, p), p) == Keep(s, p)
  {
    if s != [] {
      var front := s[..|s| - 1];
      KeepIdempotent(front, p);
      var f := Keep(front, p);
      if p(s[|s| - 1]) {
        assert (f + [s[|s| - 1]])[..|f|] == f;
      }
    }
  }

  /** `s.reduce((sum, x) => sum + f(x), 0)`. */
  function SumBy<T>(s: seq<T>, f: T -> nat): nat
  {
    if s == [] then 0 else SumBy(s[..|s| - 1], f) + f(s[|s| - 1])
  }

  lemma {:induction false} SumByConcat<T>(a: seq<T>, b: seq<T>, f: T -> nat)
    ensures SumBy(a + b, f) == SumBy(a, f) + SumBy(b, f)
    decreases |b|
  {
    if b == [] {
      assert a + b == a;
    } else {
      assert (a + b)[..|a + b| - 1] == a + b[..|b| - 1];
      SumByConcat(a, b[..|b| - 1], f);
    }
  }
}
