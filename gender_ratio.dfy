/**
 * The gender ratio pie (src/components/charts/GenderRatioChart.tsx): two
 * slices, the users whose gender is exactly `"male"` and those whose gender
 * is exactly `"female"`.
 */
module GenderRatioChart {
  import opened Sequences
  import opened Users
  import opened Counting

  /** `[{ name: 'Male', value: male }, { name: 'Female', value: female }]`. */
  function ChartData(data: Option<UsersResponse>): (r: seq<Entry>)
    ensures data.None? ==> r == []
    ensures data.Some? ==> |r| == 2 && r[0].name == "Male" && r[1].name == "Female"
  {
    match data
    case None => []
    case Some(d) =>
      [Entry("Male", |WithGender(d.users, "male")|), Entry("Female", |WithGender(d.users, "female")|)]
  }

  /**
   * With data: exactly the two slices `Male` then `Female`, counting the
   * users of each gender; they never add up to more than the users, and add
   * up to all of them iff every gender is `"male"` or `"female"`.
   */
  lemma ChartDataSpec(d: UsersResponse)
    ensures var r := ChartData(Some(d));
      && |r| == 2
      && r[0].name == "Male" && r[1].name == "Female"
      && r[0].count == |WithGender(d.users, "male")|
      && r[1].count == |WithGender(d.users, "female")|
      && Total(r) <= |d.users|
      && (Total(r) == |d.users| <==> forall u :: u in d.users ==> u.gender == "male" || u.gender == "female")
  {
    var r := ChartData(Some(d));
    GenderSplit(d.users);
    assert r == [r[0]] + [r[1]];
    SumByConcat([r[0]], [r[1]], EntryCount);
    assert [r[0]][..0] == [] && [r[1]][..0] == [];
  }

  /** Without data there are no slices; with no users both slices are zero. */
  lemma EmptyCharts(d: UsersResponse)
    requires d.users == []
    ensures ChartData(None) == []
    ensures ChartData(Some(d)) == [Entry("Male", 0), Entry("Female", 0)]
  {
  }
}
