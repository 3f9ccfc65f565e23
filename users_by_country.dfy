/**
 * The users-by-country bar chart (src/components/charts/UsersByCountryChart.tsx):
 * users tallied by `address.country`, ranked by count, the first eight shown.
 */
module UsersByCountryChart {
  import opened Sequences
  import opened Strings
  import opened Users
  import opened Counting

  const SHOWN: nat := 8

  /** The `useMemo` body: no bars without data, at most eight with. */
  function ChartData(data: Option<UsersResponse>): (r: seq<Entry>)
    ensures data.None? ==> r == []
    ensures |r| <= SHOWN
  {
    match data
    case None => []
    case Some(d) =>
      var sorted := SortByCount(Tally(Countries(d.users)));
      sorted[..Min(SHOWN, |sorted|)]
  }

  /** The `useMemo` body: the `forEach` tally, then `entries`, `sort` and `slice(0, 8)`. */
  method ComputeChartData(data: Option<UsersResponse>) returns (r: seq<Entry>)
    ensures r == ChartData(data)
  {
    if data.None? {
      return [];
    }
    var counts := CountByKey(Countries(data.value.users));
    var sorted := SortByCount(counts);
    r := sorted[..Min(SHOWN, |sorted|)];
  }

  /** No key left out of the first `n` entries of a ranking outranks a kept one. */
  lemma OmittedNotAbove(keys: seq<string>, sorted: seq<Entry>, n: nat)
    requires forall k :: k in keys ==> k in Names(sorted)
    requires Ranks(keys, sorted)
    ensures var r := sorted[..Min(n, |sorted|)];
      forall c, i :: c in keys && c !in Names(r) && 0 <= i < |r| ==> Count(keys, c) <= r[i].count
  {
    var r := sorted[..Min(n, |sorted|)];
    forall c, i | c in keys && c !in Names(r) && 0 <= i < |r|
      ensures Count(keys, c) <= r[i].count
    {
      var m :| 0 <= m < |sorted| && Names(sorted)[m] == c;
    }
  }

  /**
   * Keeping the first `n` entries of a list of positive counts: the kept
   * total falls short of the full total exactly when something is dropped.
   */
  lemma ShownTotal(sorted: seq<Entry>, n: nat)
    requires forall i :: 0 <= i < |sorted| ==> sorted[i].count >= 1
    ensures var r := sorted[..Min(n, |sorted|)];
      && Total(r) <= Total(sorted)
      && (Total(r) == Total(sorted) <==> |sorted| <= n)
  {
    TotalTake(sorted, n);
    if |sorted| > n {
      var rest := sorted[n..];
      forall e | e in rest ensures e.count >= 1 {
        var m :| 0 <= m < |rest| && rest[m] == e;
        assert sorted[n + m] == e;
      }
      TotalAtLeastLength(rest);
    } else {
      assert sorted[Min(n, |sorted|)..] == [];
    }
  }

  /**
   * With data: the bars are the `min(8, k)` best-ranked countries (`k` the
   * number of distinct countries), ranking the countries (each with its
   * number of users, non-increasing, ties in first-seen order), and no
   * omitted country has more users than a shown one.
   */
  lemma ChartDataSpec(d: UsersResponse)
    ensures var r := ChartData(Some(d));
      var keys := Countries(d.users);
      && r == SortByCount(Tally(keys))[..Min(SHOWN, |Distinct(keys)|)]
      && Ranks(keys, r)
      && (forall c, i :: c in keys && c !in Names(r) && 0 <= i < |r| ==> Count(keys, c) <= r[i].count)
  {
    var keys := Countries(d.users);
    var sorted := SortByCount(Tally(keys));
    RankedTallySpec(keys);
    RanksPrefix(keys, sorted, SHOWN);
    OmittedNotAbove(keys, sorted, SHOWN);
  }

  /**
   * With data: the bars add up to at most the number of users, and to
   * exactly that number iff there are at most eight countries.
   */
  lemma ChartDataTotal(d: UsersResponse)
    ensures var r := ChartData(Some(d));
      && Total(r) <= |d.users|
      && (Total(r) == |d.users| <==> |Distinct(Countries(d.users))| <= SHOWN)
  {
    var keys := Countries(d.users);
    var sorted := SortByCount(Tally(keys));
    RankedTallySpec(keys);
    assert forall i :: 0 <= i < |sorted| ==> sorted[i].count >= 1;
    ShownTotal(sorted, SHOWN);
  }

  lemma NoBarsWithoutUsers(d: UsersResponse)
    requires d.users == []
    ensures ChartData(None) == []
    ensures ChartData(Some(d)) == []
  {
    assert Countries(d.users) == [];
  }
}
