/**
 * The age-by-gender grouped bars (src/components/charts/AgeByGenderChart.tsx):
 * per age band, the users of that age whose gender is exactly `"male"` and
 * those whose gender is exactly `"female"`.
 */
module AgeByGenderChart {
  import opened Sequences
  import opened Users
  import opened AgeBuckets

  /** One `{ ageGroup, male, female }` row. */
  datatype AgeGroupRow = AgeGroupRow(ageGroup: string, male: nat, female: nat)

  function Row(users: seq<User>, b: Bucket): AgeGroupRow
  {
    var bucket := WithAge(users, b.min, b.max);
    AgeGroupRow(b.name, |WithGender(bucket, "male")|, |WithGender(bucket, "female")|)
  }

  /** `AGE_BUCKETS.map(...)`: no rows without data, one per band with. */
  function ChartData(data: Option<UsersResponse>): (r: seq<AgeGroupRow>)
    ensures data.None? ==> r == []
    ensures data.Some? ==> |r| == |AGE_BUCKETS|
  {
    match data
    case None => []
    case Some(d) => seq(|AGE_BUCKETS|, i requires 0 <= i < |AGE_BUCKETS| => Row(d.users, AGE_BUCKETS[i]))
  }

  /** Filtering by age and by gender commute. */
  lemma FiltersCommute(users: seq<User>, min: int, max: int, g: string)
    ensures WithGender(WithAge(users, min, max), g) == WithAge(WithGender(users, g), min, max)
  {
    KeepCommutes(users, AgeIn(min, max), HasGender(g));
  }

  function MaleOf(row: AgeGroupRow): nat { row.male }
  function FemaleOf(row: AgeGroupRow): nat { row.female }

  /** Sum of the `male` column. */
  function MaleTotal(rows: seq<AgeGroupRow>): nat
  {
    SumBy(rows, MaleOf)
  }

  /** Sum of the `female` column. */
  function FemaleTotal(rows: seq<AgeGroupRow>): nat
  {
    SumBy(rows, FemaleOf)
  }

  /**
   * A column whose first `n` cells count the first `n` bands of `users`
   * sums, over those rows, to the users counted in the first `n` bands.
   */
  lemma {:induction false} ColumnSum(rows: seq<AgeGroupRow>, column: AgeGroupRow -> nat, users: seq<User>, n: nat)
    requires n <= |rows| && n <= |AGE_BUCKETS|
    requires forall i :: 0 <= i < n ==> column(rows[i]) == |WithAge(users, AGE_BUCKETS[i].min, AGE_BUCKETS[i].max)|
    ensures SumBy(rows[..n], column) == BucketSum(users, n)
  {
    if n > 0 {
      assert rows[..n][..n - 1] == rows[..n - 1];
      ColumnSum(rows, column, users, n - 1);
    }
  }

  /** Down the rows, the `male` column counts the male users band by band, likewise `female`. */
  lemma ColumnTotals(d: UsersResponse)
    ensures MaleTotal(ChartData(Some(d))) == BucketSum(WithGender(d.users, "male"), |AGE_BUCKETS|)
    ensures FemaleTotal(ChartData(Some(d))) == BucketSum(WithGender(d.users, "female"), |AGE_BUCKETS|)
  {
    var rows := ChartData(Some(d));
    var males, females := WithGender(d.users, "male"), WithGender(d.users, "female");
    forall i | 0 <= i < |AGE_BUCKETS|
      ensures rows[i].male == |WithAge(males, AGE_BUCKETS[i].min, AGE_BUCKETS[i].max)|
      ensures rows[i].female == |WithAge(females, AGE_BUCKETS[i].min, AGE_BUCKETS[i].max)|
    {
      RowColumns(d.users, AGE_BUCKETS[i]);
    }
    ColumnSum(rows, MaleOf, males, |AGE_BUCKETS|);
    ColumnSum(rows, FemaleOf, females, |AGE_BUCKETS|);
    assert rows[..|AGE_BUCKETS|] == rows;
  }

  /** A row's columns count the band among the male users and among the female users. */
  lemma RowColumns(users: seq<User>, b: Bucket)
    ensures Row(users, b).male == |WithAge(WithGender(users, "male"), b.min, b.max)|
    ensures Row(users, b).female == |WithAge(WithGender(users, "female"), b.min, b.max)|
  {
    FiltersCommute(users, b.min, b.max, "male");
    FiltersCommute(users, b.min, b.max, "female");
  }

  /**
   * With data: seven rows in band order, each labelled by its band; in each,
   * the two columns count the band's male and female users, never more than
   * the band holds, and exactly as many iff everyone in the band is `"male"`
   * or `"female"`. Down the rows, the `male` column counts every male user
   * aged 0 to 999 once, and likewise the `female` column.
   */
  lemma ChartDataSpec(d: UsersResponse)
    ensures var r := ChartData(Some(d));
      && |r| == |AGE_BUCKETS|
      && (forall i :: 0 <= i < |r| ==> r[i].ageGroup == AGE_BUCKETS[i].name)
      && (forall i :: 0 <= i < |r| ==>
            var bucket := WithAge(d.users, AGE_BUCKETS[i].min, AGE_BUCKETS[i].max);
            && r[i].male == |WithGender(bucket, "male")|
            && r[i].female == |WithGender(bucket, "female")|
            && r[i].male + r[i].female <= |bucket|
            && (r[i].male + r[i].female == |bucket| <==>
                  forall u :: u in bucket ==> u.gender == "male" || u.gender == "female"))
      && MaleTotal(r) == |WithAge(WithGender(d.users, "male"), MIN_AGE, MAX_AGE)|
      && FemaleTotal(r) == |WithAge(WithGender(d.users, "female"), MIN_AGE, MAX_AGE)|
  {
    RowsSplit(d);
    ChartColumns(d);
  }

  lemma RowsSplit(d: UsersResponse)
    ensures var r := ChartData(Some(d));
      forall i :: 0 <= i < |r| ==>
        var bucket := WithAge(d.users, AGE_BUCKETS[i].min, AGE_BUCKETS[i].max);
        && r[i].ageGroup == AGE_BUCKETS[i].name
        && r[i].male == |WithGender(bucket, "male")|
        && r[i].female == |WithGender(bucket, "female")|
        && r[i].male + r[i].female <= |bucket|
        && (r[i].male + r[i].female == |bucket| <==>
              forall u :: u in bucket ==> u.gender == "male" || u.gender == "female")
  {
    var r := ChartData(Some(d));
    forall i | 0 <= i < |r|
      ensures var bucket := WithAge(d.users, AGE_BUCKETS[i].min, AGE_BUCKETS[i].max);
        && r[i].male + r[i].female <= |bucket|
        && (r[i].male + r[i].female == |bucket| <==>
              forall u :: u in bucket ==> u.gender == "male" || u.gender == "female")
    {
      RowSplit(d.users, AGE_BUCKETS[i]);
    }
  }

  /** Down the rows, each column counts that gender's users aged 0 to 999. */
  lemma ChartColumns(d: UsersResponse)
    ensures MaleTotal(ChartData(Some(d))) == |WithAge(WithGender(d.users, "male"), MIN_AGE, MAX_AGE)|
    ensures FemaleTotal(ChartData(Some(d))) == |WithAge(WithGender(d.users, "female"), MIN_AGE, MAX_AGE)|
  {
    ColumnTotals(d);
    BucketSumInRange(WithGender(d.users, "male"));
    BucketSumInRange(WithGender(d.users, "female"));
  }

  /** A row's two columns count at most its band, exactly the band iff no other gender occurs. */
  lemma RowSplit(users: seq<User>, b: Bucket)
    ensures var bucket := WithAge(users, b.min, b.max);
      var row := Row(users, b);
      && row.male + row.female <= |bucket|
      && (row.male + row.female == |bucket| <==>
            forall u :: u in bucket ==> u.gender == "male" || u.gender == "female")
  {
    GenderSplit(WithAge(users, b.min, b.max));
  }

  /** Without data there are no rows; with no users every column is zero. */
  lemma EmptyCharts(d: UsersResponse)
    requires d.users == []
    ensures ChartData(None) == []
    ensures |ChartData(Some(d))| == |AGE_BUCKETS|
    ensures forall i :: 0 <= i < |AGE_BUCKETS| ==> ChartData(Some(d))[i] == AgeGroupRow(AGE_BUCKETS[i].name, 0, 0)
  {
  }
}
