/**
 * The age histogram (src/components/charts/AgeDistributionChart.tsx): one
 * bar per age band, counting the users whose age falls in it.
 */
module AgeDistributionChart {
  import opened Sequences
  import opened Users
  import opened Counting
  import opened AgeBuckets

  /** `AGE_BUCKETS.map(...)`: one `{ label, count }` bar per band, in band order. */
  function ChartData(data: Option<UsersResponse>): (r: seq<Entry>)
    ensures data.None? ==> r == []
    ensures data.Some? ==> |r| == |AGE_BUCKETS| && forall i :: 0 <= i < |r| ==> r[i].name == AGE_BUCKETS[i].name
  {
    match data
    case None => []
    case Some(d) =>
      seq(|AGE_BUCKETS|, i requires 0 <= i < |AGE_BUCKETS| =>
        Entry(AGE_BUCKETS[i].name, |WithAge(d.users, AGE_BUCKETS[i].min, AGE_BUCKETS[i].max)|))
  }

  lemma {:induction false} TotalOfBars(d: UsersResponse, n: nat)
    requires n <= |AGE_BUCKETS|
    ensures Total(ChartData(Some(d))[..n]) == BucketSum(d.users, n)
  {
    if n > 0 {
      var bars := ChartData(Some(d));
      assert bars[..n][..n - 1] == bars[..n - 1];
      TotalOfBars(d, n - 1);
    }
  }

  /** The bars together count the users aged 0 to 999, so all users when every age is in that range. */
  lemma BarsTotal(d: UsersResponse)
    ensures Total(ChartData(Some(d))) == |WithAge(d.users, MIN_AGE, MAX_AGE)|
    ensures (forall u :: u in d.users ==> MIN_AGE <= u.age <= MAX_AGE) ==> Total(ChartData(Some(d))) == |d.users|
  {
    var r := ChartData(Some(d));
    TotalOfBars(d, |AGE_BUCKETS|);
    assert r[..|AGE_BUCKETS|] == r;
    BucketSumInRange(d.users);
    if forall u :: u in d.users ==> MIN_AGE <= u.age <= MAX_AGE {
      KeepAll(d.users, AgeIn(MIN_AGE, MAX_AGE));
    }
  }

  /**
   * With data: seven bars in band order, each labelled by its band and
   * counting the users of that age; together they count every user aged 0
   * to 999 exactly once, so all users when every age is in that range.
   */
  lemma ChartDataSpec(d: UsersResponse)
    ensures var r := ChartData(Some(d));
      && |r| == |AGE_BUCKETS|
      && (forall i :: 0 <= i < |r| ==> r[i].name == AGE_BUCKETS[i].name)
      && (forall i :: 0 <= i < |r| ==> forall u :: u in d.users ==>
            (u in WithAge(d.users, AGE_BUCKETS[i].min, AGE_BUCKETS[i].max) <==> InBucket(u.age, AGE_BUCKETS[i])))
      && (forall i :: 0 <= i < |r| ==> r[i].count == |WithAge(d.users, AGE_BUCKETS[i].min, AGE_BUCKETS[i].max)| <= |d.users|)
      && Total(r) == |WithAge(d.users, MIN_AGE, MAX_AGE)|
      && ((forall u :: u in d.users ==> MIN_AGE <= u.age <= MAX_AGE) ==> Total(r) == |d.users|)
  {
    BarsTotal(d);
  }

  /** Without data there are no bars; with no users every bar is zero. */
  lemma EmptyCharts(d: UsersResponse)
    requires d.users == []
    ensures ChartData(None) == []
    ensures |ChartData(Some(d))| == |AGE_BUCKETS|
    ensures forall i :: 0 <= i < |AGE_BUCKETS| ==> ChartData(Some(d))[i] == Entry(AGE_BUCKETS[i].name, 0)
  {
  }
}
