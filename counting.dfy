/**
 * The counting kernel shared by the dashboard and the charts: a record of
 * counts keyed by a string field, filled by one pass over the users
 * (`counts[c] = (counts[c] ?? 0) + 1`), read back with `Object.entries`
 * (insertion order, that is first-seen order), then sorted by count descending
 * with a stable sort and truncated.
 */
module Counting {
  import opened Sequences
  import opened Sorting

  /** One `[key, count]` pair of `Object.entries(counts)`. */
  datatype Entry = Entry(name: string, count: nat)

  /** The names of a list of entries, in order. */
  function Names(es: seq<Entry>): (r: seq<string>)
    ensures |r| == |es|
    ensures forall i :: 0 <= i < |es| ==> r[i] == es[i].name
  {
    seq(|es|, i requires 0 <= i < |es| => es[i].name)
  }

  /** Number of occurrences of `x` in `s`. */
  function Count<T(==,!new)>(s: seq<T>, x: T): (n: nat)
    ensures n <= |s|
    ensures n > 0 <==> x in s
  {
    if s == [] then 0
    else Count(s[..|s| - 1], x) + (if s[|s| - 1] == x then 1 else 0)
  }

  lemma CountSnoc<T(!new)>(s: seq<T>, y: T, x: T)
    ensures Count(s + [y], x) == Count(s, x) + (if y == x then 1 else 0)
  {
    assert (s + [y])[..|s|] == s;
  }

  predicate NoDuplicates<T(==,!new)>(d: seq<T>)
  {
    forall i, j :: 0 <= i < j < |d| ==> d[i] != d[j]
  }

  /** The distinct elements of `s`, in the order of their first occurrence. */
  function Distinct<T(==,!new)>(s: seq<T>): (d: seq<T>)
    ensures forall x :: x in d <==> x in s
    ensures NoDuplicates(d)
  {
    if s == [] then []
    else
      var d := Distinct(s[..|s| - 1]);
      if s[|s| - 1] in d then d else d + [s[|s| - 1]]
  }

  /** Index of the first occurrence of `x` in `s`. */
  function FirstIndex<T(==,!new)>(s: seq<T>, x: T): (k: nat)
    requires x in s
    ensures k < |s| && s[k] == x && x !in s[..k]
  {
    var front := s[..|s| - 1];
    if x in front then
      var k := FirstIndex(front, x);
      assert s[..k] == front[..k];
      k
    else |s| - 1
  }

  lemma FirstIndexSnoc<T(!new)>(s: seq<T>, y: T, x: T)
    requires x in s
    ensures FirstIndex(s + [y], x) == FirstIndex(s, x)
  {
    assert (s + [y])[..|s|] == s;
  }

  /** `Distinct` lists the elements in the order in which they first occur. */
  lemma {:induction false} DistinctFirstSeen<T(!new)>(s: seq<T>)
    ensures forall i, j :: 0 <= i < j < |Distinct(s)| ==>
      FirstIndex(s, Distinct(s)[i]) < FirstIndex(s, Distinct(s)[j])
  {
    if s != [] {
      var front, y := s[..|s| - 1], s[|s| - 1];
      assert s == front + [y];
      DistinctFirstSeen(front);
      var d := Distinct(front);
      forall x | x in front ensures FirstIndex(s, x) == FirstIndex(front, x) {
        FirstIndexSnoc(front, y, x);
      }
      if y !in d {
        assert FirstIndex(s, y) == |s| - 1;
      }
    }
  }

  /** `Object.entries` of the finished record: one entry per distinct key. */
  function Tally(keys: seq<string>): (t: seq<Entry>)
    ensures |t| == |Distinct(keys)|
  {
    EntriesFor(keys, Distinct(keys))
  }

  function EntriesFor(keys: seq<string>, names: seq<string>): (t: seq<Entry>)
    ensures |t| == |names|
  {
    seq(|names|, i requires 0 <= i < |names| => Entry(names[i], Count(keys, names[i])))
  }

  /**
   * Every key occurs in exactly one entry, the entries come in first-seen
   * order, and each count is the key's number of occurrences, at least 1.
   */
  lemma TallySpec(keys: seq<string>)
    ensures forall k :: k in keys <==> exists i :: 0 <= i < |Tally(keys)| && Tally(keys)[i].name == k
    ensures forall i, j :: 0 <= i < j < |Tally(keys)| ==> Tally(keys)[i].name != Tally(keys)[j].name
    ensures forall i, j :: 0 <= i < j < |Tally(keys)| ==>
      FirstIndex(keys, Tally(keys)[i].name) < FirstIndex(keys, Tally(keys)[j].name)
    ensures forall i :: 0 <= i < |Tally(keys)| ==>
      Tally(keys)[i].count == Count(keys, Tally(keys)[i].name) >= 1
  {
    var d := Distinct(keys);
    DistinctFirstSeen(keys);
    forall k | k in keys ensures exists i :: 0 <= i < |Tally(keys)| && Tally(keys)[i].name == k {
      var i :| 0 <= i < |d| && d[i] == k;
      assert Tally(keys)[i].name == k;
    }
  }

  function EntryCount(e: Entry): nat { e.count }

  /** Sum of the counts of `es`. */
  function Total(es: seq<Entry>): nat
  {
    SumBy(es, EntryCount)
  }

  /** Sum over `names` of the number of occurrences in `keys`. */
  function CountSum<T(==,!new)>(keys: seq<T>, names: seq<T>): nat
  {
    if names == [] then 0
    else CountSum(keys, names[..|names| - 1]) + Count(keys, names[|names| - 1])
  }

  lemma {:induction false} CountSumSnoc<T(!new)>(f: seq<T>, k: T, names: seq<T>)
    requires NoDuplicates(names)
    ensures CountSum(f + [k], names) == CountSum(f, names) + (if k in names then 1 else 0)
  {
    if names != [] {
      var front := names[..|names| - 1];
      CountSumSnoc(f, k, front);
      CountSnoc(f, k, names[|names| - 1]);
      assert names == front + [names[|names| - 1]];
    }
  }

  /** The distinct keys' counts add up to the number of keys. */
  lemma {:induction false} CountSumDistinct<T(!new)>(keys: seq<T>)
    ensures CountSum(keys, Distinct(keys)) == |keys|
  {
    if keys != [] {
      var f, k := keys[..|keys| - 1], keys[|keys| - 1];
      assert keys == f + [k];
      var d := Distinct(f);
      CountSumDistinct(f);
      CountSumSnoc(f, k, d);
      if k !in d {
        assert (d + [k])[..|d|] == d;
        CountSnoc(f, k, k);
      }
    }
  }

  lemma {:induction false} TotalEntriesFor(keys: seq<string>, names: seq<string>)
    ensures Total(EntriesFor(keys, names)) == CountSum(keys, names)
  {
    if names != [] {
      var front := names[..|names| - 1];
      assert EntriesFor(keys, names)[..|names| - 1] == EntriesFor(keys, front);
      TotalEntriesFor(keys, front);
    }
  }

  /** The counts of a tally add up to the number of keys tallied. */
  lemma TallyTotal(keys: seq<string>)
    ensures Total(Tally(keys)) == |keys|
  {
    TotalEntriesFor(keys, Distinct(keys));
    CountSumDistinct(keys);
  }

  /**
   * The `forEach` that fills the record: `order` is the record's insertion
   * order and `counts` its values. Proved to produce `Tally(keys)`.
   */
  method CountByKey(keys: seq<string>) returns (entries: seq<Entry>)
    ensures entries == Tally(keys)
  {
    var order: seq<string> := [];
    var counts: map<string, nat> := map[];
    var i := 0;
    while i < |keys|
      invariant 0 <= i <= |keys|
      invariant order == Distinct(keys[..i])
      invariant forall k :: k in counts <==> k in order
      invariant forall k :: k in counts ==> counts[k] == Count(keys[..i], k)
    {
      var c := keys[i];
      assert keys[..i + 1] == keys[..i] + [c];
      forall k ensures Count(keys[..i + 1], k) == Count(keys[..i], k) + (if c == k then 1 else 0) {
        CountSnoc(keys[..i], c, k);
      }
      var previous := if c in counts then counts[c] else 0;
      if c !in counts {
        order := order + [c];
      }
      counts := counts[c := previous + 1];
      i := i + 1;
    }
    assert keys[..i] == keys;
    entries := seq(|order|, j requires 0 <= j < |order| => Entry(order[j], counts[order[j]]));
  }

  /** The comparator `(a, b) => b.count - a.count` is negative. */
  predicate CountAbove(a: Entry, b: Entry) { a.count > b.count }

  lemma CountAboveIsStrictWeak()
    ensures StrictWeakOrder(CountAbove)
  {
  }

  /** `.sort((a, b) => b.count - a.count)`. */
  function SortByCount(es: seq<Entry>): (r: seq<Entry>)
    ensures |r| == |es|
  {
    Sort(es, CountAbove)
  }

  /** The entries of `es` whose count is `c`, in their order in `es`. */
  function WithCount(es: seq<Entry>, c: nat): (r: seq<Entry>)
    ensures forall e :: e in r ==> e in es && e.count == c
  {
    if es == [] then []
    else WithCount(es[..|es| - 1], c) + (if es[|es| - 1].count == c then [es[|es| - 1]] else [])
  }

  lemma {:induction false} ClassIsWithCount(es: seq<Entry>, x: Entry)
    ensures Class(es, CountAbove, x) == WithCount(es, x.count)
  {
    if es != [] {
      ClassIsWithCount(es[..|es| - 1], x);
    }
  }

  /**
   * Sorting by count: counts become non-increasing, the entries are the same
   * multiset with the same total, and entries with equal counts keep their
   * relative order.
   */
  lemma SortByCountSpec(es: seq<Entry>)
    ensures forall i, j :: 0 <= i < j < |SortByCount(es)| ==> SortByCount(es)[i].count >= SortByCount(es)[j].count
    ensures multiset(SortByCount(es)) == multiset(es)
    ensures forall c :: WithCount(SortByCount(es), c) == WithCount(es, c)
    ensures Total(SortByCount(es)) == Total(es)
  {
    var r := SortByCount(es);
    CountAboveIsStrictWeak();
    SortSorted(es, CountAbove);
    SortPermutes(es, CountAbove);
    SortStable(es, CountAbove);
    SortKeepsSum(es, CountAbove, EntryCount);
    forall c ensures WithCount(r, c) == WithCount(es, c) {
      var x := Entry("", c);
      ClassIsWithCount(r, x);
      ClassIsWithCount(es, x);
    }
  }

  lemma TotalTake(es: seq<Entry>, n: nat)
    ensures Total(es[..Min(n, |es|)]) + Total(es[Min(n, |es|)..]) == Total(es)
  {
    SumByConcat(es[..Min(n, |es|)], es[Min(n, |es|)..], EntryCount);
    assert es == es[..Min(n, |es|)] + es[Min(n, |es|)..];
  }

  /** A total of counts that are all at least 1 is at least the number of entries. */
  lemma {:induction false} TotalAtLeastLength(es: seq<Entry>)
    requires forall e :: e in es ==> e.count >= 1
    ensures Total(es) >= |es|
  {
    if es != [] {
      assert es[|es| - 1] in es;
      TotalAtLeastLength(es[..|es| - 1]);
    }
  }
  lemma {:induction false} NoDuplicatesMultiplicity<T(!new)>(s: seq<T>, x: T)
    requires NoDuplicates(s)
    ensures multiset(s)[x] <= 1
  {
    if s != [] {
      var f := s[..|s| - 1];
      assert s == f + [s[|s| - 1]];
      NoDuplicatesMultiplicity(f, x);
      if s[|s| - 1] == x {
        assert x !in f;
      }
    }
  }

  lemma PermutationNoDuplicates<T(!new)>(s: seq<T>, r: seq<T>)
    requires NoDuplicates(s) && multiset(r) == multiset(s)
    ensures NoDuplicates(r)
  {
    forall i, j | 0 <= i < j < |r| ensures r[i] != r[j] {
      if r[i] == r[j] {
        var x := r[i];
        assert r == r[..i] + [x] + r[i + 1..j] + [x] + r[j + 1..];
        assert multiset(r)[x] >= 2;
        NoDuplicatesMultiplicity(s, x);
        assert false;
      }
    }
  }

  /** Every entry of the ranked tally is an entry of the tally. */
  lemma RankedEntriesFromTally(keys: seq<string>)
    ensures forall i :: 0 <= i < |SortByCount(Tally(keys))| ==> SortByCount(Tally(keys))[i] in Tally(keys)
    ensures forall e :: e in Tally(keys) ==> e in SortByCount(Tally(keys))
  {
    var t := Tally(keys);
    var r := SortByCount(t);
    SortMembers(t, CountAbove);
  }

  /** The names of the tally are the keys. */
  lemma TallyNames(keys: seq<string>)
    ensures forall k :: k in keys <==> k in Names(Tally(keys))
  {
    var t := Tally(keys);
    var names := Distinct(keys);
    forall k ensures k in keys <==> k in Names(t) {
      if k in keys {
        var a :| 0 <= a < |names| && names[a] == k;
        assert Names(t)[a] == k;
      }
      if k in Names(t) {
        var a :| 0 <= a < |t| && Names(t)[a] == k;
        assert names[a] == k;
      }
    }
  }

  /** Entry lists with the same members have the same names. */
  lemma SameEntriesSameNames(a: seq<Entry>, b: seq<Entry>)
    requires forall e :: e in a ==> e in b
    requires forall e :: e in b ==> e in a
    ensures forall k :: k in Names(a) <==> k in Names(b)
  {
    forall k ensures k in Names(a) ==> k in Names(b) {
      if k in Names(a) {
        var i :| 0 <= i < |a| && Names(a)[i] == k;
        assert a[i] in b;
        var j :| 0 <= j < |b| && b[j] == a[i];
        assert Names(b)[j] == k;
      }
    }
    forall k ensures k in Names(b) ==> k in Names(a) {
      if k in Names(b) {
        var j :| 0 <= j < |b| && Names(b)[j] == k;
        assert b[j] in a;
        var i :| 0 <= i < |a| && a[i] == b[j];
        assert Names(a)[i] == k;
      }
    }
  }

  /** The names of the ranked tally are the keys. */
  lemma RankedNamesAreKeys(keys: seq<string>)
    ensures forall k :: k in keys <==> k in Names(SortByCount(Tally(keys)))
  {
    RankedEntriesFromTally(keys);
    SameEntriesSameNames(Tally(keys), SortByCount(Tally(keys)));
    TallyNames(keys);
  }

  /** No name occurs twice in the ranked tally. */
  lemma RankedNamesDistinct(keys: seq<string>)
    ensures NoDuplicates(Names(SortByCount(Tally(keys))))
  {
    var t := Tally(keys);
    var r := SortByCount(t);
    assert NoDuplicates(t) by {
      forall i, j | 0 <= i < j < |t| ensures t[i] != t[j] {
        assert t[i].name == Distinct(keys)[i] && t[j].name == Distinct(keys)[j];
      }
    }
    assert multiset(r) == multiset(t) by {
      SortPermutes(t, CountAbove);
    }
    PermutationNoDuplicates(t, r);
    RankedEntriesFromTally(keys);
    forall i, j | 0 <= i < j < |r| ensures r[i].name != r[j].name {
      var a :| 0 <= a < |t| && t[a] == r[i];
      var b :| 0 <= b < |t| && t[b] == r[j];
      assert t[a].name == Distinct(keys)[a] && t[b].name == Distinct(keys)[b];
    }
  }

  /** Two entries of the tally, one after the other, name keys in first-seen order. */
  lemma TallyPrecedes(keys: seq<string>, x: Entry, y: Entry)
    requires Precedes(Tally(keys), x, y)
    ensures x.name in keys && y.name in keys
    ensures FirstIndex(keys, x.name) < FirstIndex(keys, y.name)
  {
    var t := Tally(keys);
    var d := Distinct(keys);
    var a, b :| 0 <= a < b < |t| && t[a] == x && t[b] == y;
    assert x.name == d[a] && y.name == d[b];
    assert d[a] in d && d[b] in d;
    DistinctFirstSeen(keys);
  }

  lemma RankedTiesFirstSeen(keys: seq<string>)
    ensures forall i :: 0 <= i < |SortByCount(Tally(keys))| ==> SortByCount(Tally(keys))[i].name in keys
    ensures var r := SortByCount(Tally(keys));
      forall i, j :: 0 <= i < j < |r| && r[i].count == r[j].count ==>
        FirstIndex(keys, r[i].name) < FirstIndex(keys, r[j].name)
  {
    var t := Tally(keys);
    var r := SortByCount(t);
    assert forall i :: 0 <= i < |r| ==> r[i].name in keys by {
      RankedEntriesFromTally(keys);
      forall i | 0 <= i < |r| ensures r[i].name in keys {
        var a :| 0 <= a < |t| && t[a] == r[i];
        assert t[a].name == Distinct(keys)[a];
      }
    }
    assert forall i, j :: 0 <= i < j < |r| && r[i].count == r[j].count ==>
        FirstIndex(keys, r[i].name) < FirstIndex(keys, r[j].name) by {
      CountAboveIsStrictWeak();
      SortKeepsTiedOrder(t, CountAbove);
      forall i, j | 0 <= i < j < |r| && r[i].count == r[j].count
        ensures FirstIndex(keys, r[i].name) < FirstIndex(keys, r[j].name)
      {
        assert Equiv(CountAbove, r[i], r[j]);
        TallyPrecedes(keys, r[i], r[j]);
      }
    }
  }

  /**
   * `r` ranks `keys`: each entry names a key and carries its number of
   * occurrences, counts never increase along `r`, and entries of equal count
   * come in the order their keys first occur.
   */
  predicate Ranks(keys: seq<string>, r: seq<Entry>)
  {
    && (forall i :: 0 <= i < |r| ==> r[i].name in keys && r[i].count == Count(keys, r[i].name))
    && (forall i, j :: 0 <= i < j < |r| ==> r[i].count >= r[j].count)
    && (forall i, j :: 0 <= i < j < |r| && r[i].count == r[j].count ==>
          FirstIndex(keys, r[i].name) < FirstIndex(keys, r[j].name))
  }

  /** A prefix of a ranking is a ranking. */
  lemma RanksPrefix(keys: seq<string>, r: seq<Entry>, n: nat)
    requires Ranks(keys, r)
    ensures Ranks(keys, r[..Min(n, |r|)])
  {
    var p := r[..Min(n, |r|)];
    assert forall i :: 0 <= i < |p| ==> p[i] == r[i];
  }

  /**
   * The ranked tally `SortByCount(Tally(keys))`: one entry per distinct key
   * with its number of occurrences, counts non-increasing, entries of equal
   * count in first-seen order, counts adding up to the number of keys.
   */
  lemma RankedTallySpec(keys: seq<string>)
    ensures var r := SortByCount(Tally(keys));
      && |r| == |Distinct(keys)|
      && (forall k :: k in keys <==> k in Names(r))
      && NoDuplicates(Names(r))
      && Ranks(keys, r)
      && Total(r) == |keys|
  {
    var t := Tally(keys);
    var r := SortByCount(t);
    TallySpec(keys);
    TallyTotal(keys);
    SortByCountSpec(t);
    RankedEntriesFromTally(keys);
    RankedNamesAreKeys(keys);
    RankedNamesDistinct(keys);
    RankedTiesFirstSeen(keys);
  }

  /**
   * The head of the ranked tally of a non-empty key list: a key with the
   * most occurrences, the first to occur among those tied with it.
   */
  lemma RankedHead(keys: seq<string>)
    requires |keys| > 0
    ensures var r := SortByCount(Tally(keys));
      && |r| > 0
      && r[0].name in keys
      && r[0].count == Count(keys, r[0].name)
      && (forall c :: c in keys ==> Count(keys, c) <= r[0].count)
      && (forall c :: c in keys && Count(keys, c) == r[0].count ==> FirstIndex(keys, r[0].name) <= FirstIndex(keys, c))
  {
    RankedTallySpec(keys);
    HeadOfRanking(keys, SortByCount(Tally(keys)));
  }

  /** The head of any ranking that names every key. */
  lemma HeadOfRanking(keys: seq<string>, r: seq<Entry>)
    requires |keys| > 0
    requires forall k :: k in keys ==> k in Names(r)
    requires Ranks(keys, r)
    ensures |r| > 0
    ensures r[0].name in keys && r[0].count == Count(keys, r[0].name)
    ensures forall c :: c in keys ==> Count(keys, c) <= r[0].count
    ensures forall c :: c in keys && Count(keys, c) == r[0].count ==> FirstIndex(keys, r[0].name) <= FirstIndex(keys, c)
  {
    assert keys[0] in Names(r);
    forall c | c in keys
      ensures Count(keys, c) <= r[0].count
      ensures Count(keys, c) == r[0].count ==> FirstIndex(keys, r[0].name) <= FirstIndex(keys, c)
    {
      var j :| 0 <= j < |r| && Names(r)[j] == c;
    }
  }
}
