/**
 * The department headcount bars (src/components/charts/DepartmentHeadcountChart.tsx):
 * users tallied by `company.department`, every department shown, largest
 * first, the chart growing 34 pixels per bar above a 260-pixel floor.
 */
module DepartmentHeadcountChart {
  import opened Sequences
  import opened Strings
  import opened Users
  import opened Counting

  const MIN_HEIGHT: nat := 260
  const BAR_HEIGHT: nat := 34

  /** The `useMemo` body: no bars without data, one per department with. */
  function ChartData(data: Option<UsersResponse>): (r: seq<Entry>)
    ensures data.None? ==> r == []
    ensures data.Some? ==> |r| == |Distinct(Departments(data.value.users))|
  {
    match data
    case None => []
    case Some(d) => SortByCount(Tally(Departments(d.users)))
  }

  /** The `useMemo` body: the `forEach` tally, then `entries`, `map` and `sort`. */
  method ComputeChartData(data: Option<UsersResponse>) returns (r: seq<Entry>)
    ensures r == ChartData(data)
  {
    if data.None? {
      return [];
    }
    var counts := CountByKey(Departments(data.value.users));
    r := SortByCount(counts);
  }

  /** `Math.max(260, chartData.length * 34)`. */
  function ChartHeight(bars: nat): (h: nat)
    ensures h >= MIN_HEIGHT && h >= bars * BAR_HEIGHT
    ensures h == MIN_HEIGHT || h == bars * BAR_HEIGHT
  {
    Max(MIN_HEIGHT, bars * BAR_HEIGHT)
  }

  /**
   * With data: one bar per distinct department, none missing and none twice,
   * ranking the departments (each with its headcount, largest first, ties in
   * first-seen order), the headcounts adding up to the number of users.
   */
  lemma ChartDataSpec(d: UsersResponse)
    ensures var r := ChartData(Some(d));
      var keys := Departments(d.users);
      && |r| == |Distinct(keys)|
      && (forall k :: k in keys <==> k in Names(r))
      && NoDuplicates(Names(r))
      && Ranks(keys, r)
      && Total(r) == |d.users|
  {
    var keys := Departments(d.users);
    RankedTallySpec(keys);
  }

  /** Without data, and with no users, there are no bars and the chart keeps its floor height. */
  lemma NoBarsWithoutUsers(d: UsersResponse)
    requires d.users == []
    ensures ChartData(None) == []
    ensures ChartData(Some(d)) == []
    ensures ChartHeight(|ChartData(Some(d))|) == MIN_HEIGHT
  {
    assert Departments(d.users) == [];
  }
}
