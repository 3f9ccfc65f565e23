/**
 * The state distribution pie (src/components/charts/CountryDistributionChart.tsx):
 * users tallied by `address.state`, ranked by count, the first six kept and
 * the rest folded into one "Others" slice when there is anything to fold.
 */
module CountryDistributionChart {
  import opened Sequences
  import opened Strings
  import opened Users
  import opened Counting

  const TOP_N: nat := 6

  /**
   * `sorted.slice(0, TOP_N)`, then `Others` pushed when the rest is
   * non-zero: the first six entries unchanged, at most one entry more, and
   * the total kept.
   */
  function TopWithOthers(sorted: seq<Entry>): (r: seq<Entry>)
    ensures Min(TOP_N, |sorted|) <= |r| <= TOP_N + 1
    ensures r[..Min(TOP_N, |sorted|)] == sorted[..Min(TOP_N, |sorted|)]
    ensures Total(r) == Total(sorted)
  {
    var top := sorted[..Min(TOP_N, |sorted|)];
    var others := Total(sorted[Min(TOP_N, |sorted|)..]);
    TotalTake(sorted, TOP_N);
    SumByConcat(top, [Entry("Others", others)], EntryCount);
    assert [Entry("Others", others)][..0] == [];
    if others > 0 then top + [Entry("Others", others)] else top
  }

  /** The `useMemo` body: no slices without data. */
  function ChartData(data: Option<UsersResponse>): (r: seq<Entry>)
    ensures data.None? ==> r == []
    ensures |r| <= TOP_N + 1
  {
    match data
    case None => []
    case Some(d) => TopWithOthers(SortByCount(Tally(States(d.users))))
  }

  /** The `useMemo` body: the `forEach` tally, then sort, slice, reduce and `push`. */
  method ComputeChartData(data: Option<UsersResponse>) returns (r: seq<Entry>)
    ensures r == ChartData(data)
  {
    if data.None? {
      return [];
    }
    var counts := CountByKey(States(data.value.users));
    var sorted := SortByCount(counts);
    var top := sorted[..Min(TOP_N, |sorted|)];
    var others := Total(sorted[Min(TOP_N, |sorted|)..]);
    if others > 0 {
      top := top + [Entry("Others", others)];
    }
    r := top;
  }

  /**
   * Folding a ranked list whose counts are all at least 1: the first six
   * entries unchanged, an `Others` entry holding the rest exactly when there
   * are more than six, at most seven entries, the same total.
   */
  lemma TopWithOthersSpec(sorted: seq<Entry>)
    requires forall e :: e in sorted ==> e.count >= 1
    ensures var r := TopWithOthers(sorted);
      && |r| <= TOP_N + 1
      && Total(r) == Total(sorted)
      && r[..Min(TOP_N, |sorted|)] == sorted[..Min(TOP_N, |sorted|)]
      && (|r| == TOP_N + 1 <==> |sorted| > TOP_N)
      && (|sorted| > TOP_N ==> r[TOP_N] == Entry("Others", Total(sorted[TOP_N..])))
      && (|sorted| <= TOP_N ==> r == sorted)
  {
    TotalTake(sorted, TOP_N);
    if |sorted| > TOP_N {
      var rest := sorted[TOP_N..];
      assert forall e :: e in rest ==> e in sorted;
      TotalAtLeastLength(rest);
      SumByConcat(sorted[..TOP_N], [Entry("Others", Total(rest))], EntryCount);
      assert [Entry("Others", Total(rest))][..0] == [];
    } else {
      assert sorted[Min(TOP_N, |sorted|)..] == [];
    }
  }

  /**
   * With data: the first `min(6, k)` slices (`k` the number of distinct
   * states) are the best-ranked states, ranking them (each with its number of
   * users, largest first, ties in first-seen order); an `Others` slice holds
   * the remaining users exactly when there are more than six states; there
   * are at most seven slices, adding up to the number of users.
   */
  lemma ChartDataSpec(d: UsersResponse)
    ensures var r := ChartData(Some(d));
      var keys := States(d.users);
      var sorted := SortByCount(Tally(keys));
      var k := |Distinct(keys)|;
      && |r| <= TOP_N + 1
      && Total(r) == |d.users|
      && r[..Min(TOP_N, k)] == sorted[..Min(TOP_N, k)]
      && Ranks(keys, r[..Min(TOP_N, k)])
      && (|r| == TOP_N + 1 <==> k > TOP_N)
      && (k > TOP_N ==> r[TOP_N] == Entry("Others", Total(sorted[TOP_N..])))
      && (k <= TOP_N ==> r == sorted)
  {
    var keys := States(d.users);
    RankedTallySpec(keys);
    FoldRanking(keys, SortByCount(Tally(keys)));
  }

  /** `TopWithOthers` applied to any ranking of `keys` of one entry per distinct key. */
  lemma FoldRanking(keys: seq<string>, sorted: seq<Entry>)
    requires |sorted| == |Distinct(keys)| && Total(sorted) == |keys| && Ranks(keys, sorted)
    ensures var r := TopWithOthers(sorted);
      var k := |sorted|;
      && |r| <= TOP_N + 1
      && Total(r) == |keys|
      && r[..Min(TOP_N, k)] == sorted[..Min(TOP_N, k)]
      && Ranks(keys, r[..Min(TOP_N, k)])
      && (|r| == TOP_N + 1 <==> k > TOP_N)
      && (k > TOP_N ==> r[TOP_N] == Entry("Others", Total(sorted[TOP_N..])))
      && (k <= TOP_N ==> r == sorted)
  {
    assert forall e :: e in sorted ==> e.count >= 1 by {
      forall e | e in sorted ensures e.count >= 1 {
        var i :| 0 <= i < |sorted| && sorted[i] == e;
      }
    }
    TopWithOthersSpec(sorted);
    RanksPrefix(keys, sorted, TOP_N);
  }

  /** Without data, and with no users, the pie has no slices. */
  lemma NoSlicesWithoutUsers(d: UsersResponse)
    requires d.users == []
    ensures ChartData(None) == []
    ensures ChartData(Some(d)) == []
  {
    assert States(d.users) == [];
  }
}
