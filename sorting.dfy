/**
 * The stable sort that `Array.prototype.sort` performs with a comparator.
 *
 * A comparator `cmp` is represented by the relation `before(a, b)`, which
 * holds exactly when `cmp(a, b) < 0`. Every comparator the dashboard passes is
 * consistent (`cmp(a, b) > 0` exactly when `cmp(b, a) < 0`), so `before` is a
 * strict weak order and the engine's stable sort is determined by two facts:
 * the result is sorted, and each class of mutually equivalent elements keeps
 * its input order. `Sort` is stable insertion sort; `SortUnique` shows that
 * every other sort with those two facts produces the same sequence.
 */
module Sorting {
  import opened Sequences

  ghost predicate StrictWeakOrder<T(!new)>(before: (T, T) -> bool)
  {
    && (forall a :: !before(a, a))
    && (forall a, b, c :: before(a, b) && before(b, c) ==> before(a, c))
    && (forall a, b, c :: before(a, c) && !before(a, b) ==> before(b, c))
  }

  /** Neither element must come before the other: the comparator returns 0. */
  predicate Equiv<T>(before: (T, T) -> bool, a: T, b: T)
  {
    !before(a, b) && !before(b, a)
  }

  lemma EquivTransitive<T(!new)>(before: (T, T) -> bool, a: T, b: T, c: T)
    requires StrictWeakOrder(before)
    requires Equiv(before, a, b) && Equiv(before, b, c)
    ensures Equiv(before, a, c)
  {
  }

  /** No later element must come before an earlier one. */
  predicate Sorted<T>(s: seq<T>, before: (T, T) -> bool)
  {
    forall i, j :: 0 <= i < j < |s| ==> !before(s[j], s[i])
  }

  /** The elements of `s` equivalent to `x`, in their order in `s`. */
  function Class<T>(s: seq<T>, before: (T, T) -> bool, x: T): (r: seq<T>)
    ensures |r| <= |s|
  {
    if s == [] then []
    else Class(s[..|s| - 1], before, x) + (if Equiv(before, s[|s| - 1], x) then [s[|s| - 1]] else [])
  }

  /** Stability: every class of equivalent elements keeps its order. */
  ghost predicate StableWith<T(!new)>(r: seq<T>, s: seq<T>, before: (T, T) -> bool)
  {
    forall x :: Class(r, before, x) == Class(s, before, x)
  }

  lemma {:induction false} ClassConcat<T>(a: seq<T>, b: seq<T>, before: (T, T) -> bool, x: T)
    ensures Class(a + b, before, x) == Class(a, before, x) + Class(b, before, x)
    decreases |b|
  {
    if b == [] {
      assert a + b == a;
    } else {
      assert (a + b)[..|a + b| - 1] == a + b[..|b| - 1];
      ClassConcat(a, b[..|b| - 1], before, x);
    }
  }

  /** The first position whose element `x` must come before; `|s|` if none. */
  function InsertPos<T>(x: T, s: seq<T>, before: (T, T) -> bool): (p: nat)
    ensures p <= |s|
    ensures forall k :: 0 <= k < p ==> !before(x, s[k])
    ensures p < |s| ==> before(x, s[p])
  {
    if s == [] || before(x, s[0]) then 0 else 1 + InsertPos(x, s[1..], before)
  }

  /** Place `x` after every element it need not precede. */
  function Insert<T>(x: T, s: seq<T>, before: (T, T) -> bool): seq<T>
  {
    var p := InsertPos(x, s, before);
    s[..p] + [x] + s[p..]
  }

  /** Stable insertion sort: the elements are inserted in input order. */
  function Sort<T>(s: seq<T>, before: (T, T) -> bool): (r: seq<T>)
    ensures |r| == |s|
  {
    if s == [] then [] else Insert(s[|s| - 1], Sort(s[..|s| - 1], before), before)
  }

  lemma {:induction false} SortPermutes<T>(s: seq<T>, before: (T, T) -> bool)
    ensures multiset(Sort(s, before)) == multiset(s)
  {
    if s != [] {
      var front, x := s[..|s| - 1], s[|s| - 1];
      SortPermutes(front, before);
      InsertPermutes(x, Sort(front, before), before);
      assert s == front + [x];
    }
  }

  lemma InsertPermutes<T>(x: T, t: seq<T>, before: (T, T) -> bool)
    ensures multiset(Insert(x, t, before)) == multiset(t) + multiset{x}
  {
    var p := InsertPos(x, t, before);
    assert t == t[..p] + t[p..];
  }

  /** Sorting keeps the sum of any measure over the elements. */
  lemma {:induction false} SortKeepsSum<T>(s: seq<T>, before: (T, T) -> bool, f: T -> nat)
    ensures SumBy(Sort(s, before), f) == SumBy(s, f)
  {
    if s != [] {
      var front, x := s[..|s| - 1], s[|s| - 1];
      var t := Sort(front, before);
      SortKeepsSum(front, before, f);
      var p := InsertPos(x, t, before);
      SumByConcat(t[..p] + [x], t[p..], f);
      SumByConcat(t[..p], [x], f);
      SumByConcat(t[..p], t[p..], f);
      assert t == t[..p] + t[p..];
      assert [x][..0] == [];
    }
  }

  lemma SortMembers<T>(s: seq<T>, before: (T, T) -> bool)
    ensures forall x :: x in Sort(s, before) <==> x in s
  {
    SortPermutes(s, before);
    forall x ensures x in Sort(s, before) <==> x in s {
      assert x in Sort(s, before) <==> x in multiset(Sort(s, before));
      assert x in s <==> x in multiset(s);
    }
  }

  lemma InsertSorted<T(!new)>(x: T, s: seq<T>, before: (T, T) -> bool)
    requires StrictWeakOrder(before)
    requires Sorted(s, before)
    ensures Sorted(Insert(x, s, before), before)
  {
    var p := InsertPos(x, s, before);
    var r := Insert(x, s, before);
    forall i, j | 0 <= i < j < |r| ensures !before(r[j], r[i]) {
      if j < p || i > p {
      } else if i == p {
        // r[j] is s[j - 1], at or after s[p], which x must come before.
        assert before(x, s[p]);
        assert r[j] == s[j - 1];
      } else if j == p {
        assert r[i] == s[i];
      } else {
        assert r[i] == s[i] && r[j] == s[j - 1];
      }
    }
  }

  lemma {:induction false} SortSorted<T(!new)>(s: seq<T>, before: (T, T) -> bool)
    requires StrictWeakOrder(before)
    ensures Sorted(Sort(s, before), before)
  {
    if s != [] {
      SortSorted(s[..|s| - 1], before);
      InsertSorted(s[|s| - 1], Sort(s[..|s| - 1], before), before);
    }
  }

  /** Nothing at or after the insertion position is equivalent to `x`. */
  lemma InsertTailNotEquiv<T(!new)>(x: T, s: seq<T>, before: (T, T) -> bool, y: T)
    requires StrictWeakOrder(before)
    requires Sorted(s, before)
    requires Equiv(before, x, y)
    ensures Class(s[InsertPos(x, s, before)..], before, y) == []
  {
    var p := InsertPos(x, s, before);
    var t := s[p..];
    forall k | 0 <= k < |t| ensures !Equiv(before, t[k], y) {
      if k > 0 {
        assert !before(s[p + k], s[p]);
      }
    }
    NoneEquiv(t, before, y);
  }

  lemma {:induction false} NoneEquiv<T>(t: seq<T>, before: (T, T) -> bool, y: T)
    requires forall k :: 0 <= k < |t| ==> !Equiv(before, t[k], y)
    ensures Class(t, before, y) == []
  {
    if t != [] {
      NoneEquiv(t[..|t| - 1], before, y);
    }
  }

  lemma InsertClass<T(!new)>(x: T, s: seq<T>, before: (T, T) -> bool, y: T)
    requires StrictWeakOrder(before)
    requires Sorted(s, before)
    ensures Class(Insert(x, s, before), before, y)
         == Class(s, before, y) + (if Equiv(before, x, y) then [x] else [])
  {
    var p := InsertPos(x, s, before);
    var lo, hi := s[..p], s[p..];
    assert s == lo + hi;
    assert Insert(x, s, before) == (lo + [x]) + hi;
    ClassConcat(lo, hi, before, y);
    ClassConcat(lo + [x], hi, before, y);
    ClassConcat(lo, [x], before, y);
    var cx := Class([x], before, y);
    assert cx == (if Equiv(before, x, y) then [x] else []) by {
      assert [x][..0] == [];
    }
    if Equiv(before, x, y) {
      InsertTailNotEquiv(x, s, before, y);
      assert Class(hi, before, y) == [];
      assert Class(s, before, y) == Class(lo, before, y);
    } else {
      assert Class(lo + [x], before, y) == Class(lo, before, y);
    }
  }

  lemma {:induction false} SortStable<T(!new)>(s: seq<T>, before: (T, T) -> bool)
    requires StrictWeakOrder(before)
    ensures StableWith(Sort(s, before), s, before)
  {
    if s != [] {
      var front := s[..|s| - 1];
      SortStable(front, before);
      SortSorted(front, before);
      forall x ensures Class(Sort(s, before), before, x) == Class(s, before, x) {
        InsertClass(s[|s| - 1], Sort(front, before), before, x);
      }
    }
  }

  /** `x` occurs in `s` at some position before an occurrence of `y`. */
  ghost predicate Precedes<T>(s: seq<T>, x: T, y: T)
  {
    exists i, j :: 0 <= i < j < |s| && s[i] == x && s[j] == y
  }

  lemma {:induction false} InClass<T>(s: seq<T>, before: (T, T) -> bool, x: T, z: T)
    requires x in s && Equiv(before, x, z)
    ensures x in Class(s, before, z)
  {
    if x in s[..|s| - 1] {
      InClass(s[..|s| - 1], before, x, z);
    }
  }

  lemma {:induction false} PrecedesInClass<T>(s: seq<T>, before: (T, T) -> bool, x: T, y: T, z: T)
    requires Precedes(s, x, y) && Equiv(before, x, z) && Equiv(before, y, z)
    ensures Precedes(Class(s, before, z), x, y)
  {
    var f, w := s[..|s| - 1], s[|s| - 1];
    var i, j :| 0 <= i < j < |s| && s[i] == x && s[j] == y;
    var c := Class(f, before, z);
    if j < |s| - 1 {
      assert f[i] == x && f[j] == y;
      PrecedesInClass(f, before, x, y, z);
      var i', j' :| 0 <= i' < j' < |c| && c[i'] == x && c[j'] == y;
      assert Class(s, before, z)[i'] == x && Class(s, before, z)[j'] == y;
    } else {
      assert f[i] == x;
      InClass(f, before, x, z);
      var i' :| 0 <= i' < |c| && c[i'] == x;
      assert Class(s, before, z) == c + [y];
      assert Class(s, before, z)[i'] == x && Class(s, before, z)[|c|] == y;
    }
  }

  lemma {:induction false} PrecedesFromClass<T>(s: seq<T>, before: (T, T) -> bool, x: T, y: T, z: T)
    requires Precedes(Class(s, before, z), x, y)
    ensures Precedes(s, x, y)
  {
    var f, w := s[..|s| - 1], s[|s| - 1];
    var c := Class(f, before, z);
    var cs := Class(s, before, z);
    var i, j :| 0 <= i < j < |cs| && cs[i] == x && cs[j] == y;
    if j < |c| {
      assert c[i] == x && c[j] == y;
      PrecedesFromClass(f, before, x, y, z);
      var i', j' :| 0 <= i' < j' < |f| && f[i'] == x && f[j'] == y;
      assert s[i'] == x && s[j'] == y;
    } else {
      assert c[i] == x && y == w;
      var k := ClassMember(f, before, z, x);
      assert s[k] == x && s[|s| - 1] == y;
    }
  }

  /**
   * Stability stated pairwise: two equivalent elements that the sort leaves
   * in some order occur in that order in the input.
   */
  lemma SortKeepsTiedOrder<T(!new)>(s: seq<T>, before: (T, T) -> bool)
    requires StrictWeakOrder(before)
    ensures forall i, j :: 0 <= i < j < |Sort(s, before)| && Equiv(before, Sort(s, before)[i], Sort(s, before)[j]) ==>
      Precedes(s, Sort(s, before)[i], Sort(s, before)[j])
  {
    var r := Sort(s, before);
    SortStable(s, before);
    forall i, j | 0 <= i < j < |r| && Equiv(before, r[i], r[j]) ensures Precedes(s, r[i], r[j]) {
      PrecedesInClass(r, before, r[i], r[j], r[i]);
      PrecedesFromClass(s, before, r[i], r[j], r[i]);
    }
  }

  /** Two sorted sequences whose classes agree are the same sequence. */
  lemma {:induction false} SortedClassesDetermine<T(!new)>(r1: seq<T>, r2: seq<T>, before: (T, T) -> bool)
    requires StrictWeakOrder(before)
    requires Sorted(r1, before) && Sorted(r2, before)
    requires forall x :: Class(r1, before, x) == Class(r2, before, x)
    ensures r1 == r2
    decreases |r1|
  {
    if r1 != [] && r2 == [] {
      ClassOfFirst(r1, before, r1[0]);
      assert false;
    } else if r1 == [] && r2 != [] {
      ClassOfFirst(r2, before, r2[0]);
      assert false;
    } else if r1 != [] {
      HeadsAgree(r1, r2, before);
      TailClassesAgree(r1, r2, before);
      SortedClassesDetermine(r1[1..], r2[1..], before);
      assert r1 == [r1[0]] + r1[1..] && r2 == [r2[0]] + r2[1..];
    }
  }

  lemma HeadsAgree<T(!new)>(r1: seq<T>, r2: seq<T>, before: (T, T) -> bool)
    requires StrictWeakOrder(before)
    requires Sorted(r1, before) && Sorted(r2, before)
    requires |r1| > 0 && |r2| > 0
    requires forall x :: Class(r1, before, x) == Class(r2, before, x)
    ensures r1[0] == r2[0]
  {
    var a, b := r1[0], r2[0];
    ClassOfFirst(r1, before, a);
    assert a in Class(r2, before, a);
    var ka := ClassMember(r2, before, a, a);
    ClassOfFirst(r2, before, b);
    assert b in Class(r1, before, b);
    var kb := ClassMember(r1, before, b, b);
    assert !before(a, b) by {
      if ka > 0 { assert !before(r2[ka], r2[0]); }
    }
    assert !before(b, a) by {
      if kb > 0 { assert !before(r1[kb], r1[0]); }
    }
    ClassOfFirst(r2, before, a);
    assert Class(r1, before, a)[0] == a && Class(r2, before, a)[0] == b;
  }

  lemma TailClassesAgree<T(!new)>(r1: seq<T>, r2: seq<T>, before: (T, T) -> bool)
    requires |r1| > 0 && |r2| > 0 && r1[0] == r2[0]
    requires forall x :: Class(r1, before, x) == Class(r2, before, x)
    ensures forall x :: Class(r1[1..], before, x) == Class(r2[1..], before, x)
  {
    var a := r1[0];
    assert r1 == [a] + r1[1..] && r2 == [a] + r2[1..];
    forall x ensures Class(r1[1..], before, x) == Class(r2[1..], before, x) {
      var h := Class([a], before, x);
      ClassConcat([a], r1[1..], before, x);
      ClassConcat([a], r2[1..], before, x);
      var c1, c2 := Class(r1, before, x), Class(r2, before, x);
      assert c1 == c2;
      assert Class(r1[1..], before, x) == c1[|h|..];
      assert Class(r2[1..], before, x) == c2[|h|..];
    }
  }

  /** The class of an element equivalent to the head starts with the head. */
  lemma ClassOfFirst<T>(s: seq<T>, before: (T, T) -> bool, x: T)
    requires |s| > 0 && Equiv(before, s[0], x)
    ensures Class(s, before, x) == [s[0]] + Class(s[1..], before, x)
  {
    ClassConcat([s[0]], s[1..], before, x);
    assert [s[0]][..0] == [];
    assert s == [s[0]] + s[1..];
  }

  /** Every element of a class is an element of the sequence. */
  lemma {:induction false} ClassMember<T>(s: seq<T>, before: (T, T) -> bool, x: T, y: T) returns (k: nat)
    requires y in Class(s, before, x)
    ensures k < |s| && s[k] == y
  {
    var front := s[..|s| - 1];
    if y in Class(front, before, x) {
      k := ClassMember(front, before, x, y);
    } else {
      k := |s| - 1;
    }
  }

  /**
   * Any sorted, stable rearrangement of `s` is `Sort(s)`: the choice of
   * insertion sort does not matter.
   */
  lemma SortUnique<T(!new)>(s: seq<T>, r: seq<T>, before: (T, T) -> bool)
    requires StrictWeakOrder(before)
    requires Sorted(r, before) && StableWith(r, s, before)
    ensures r == Sort(s, before)
  {
    SortSorted(s, before);
    SortStable(s, before);
    SortedClassesDetermine(r, Sort(s, before), before);
  }
}
