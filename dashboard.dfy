/**
 * The dashboard's summary metrics (`metrics` in
 * src/pages/Dashboard/DashboardPage.tsx): the dataset size the endpoint
 * reports, the mean age, the male and female shares in whole percent, and
 * the most common country with its share.
 */
module Dashboard {
  import opened Users
  import opened Counting

  datatype Metrics = Metrics(
    totalUsers: int,
    avgAge: real,
    malePct: int,
    femalePct: int,
    topCountry: string,
    topCountryPct: int)

  /**
   * `null` without data; `Thrown` for an empty page, where reading
   * `topCountry[1]` of the missing first entry raises a `TypeError`.
   */
  datatype MetricsResult = NoData | Thrown | Computed(metrics: Metrics)

  /** `users.reduce((sum, u) => sum + u.age, 0)`. */
  function SumAges(users: seq<User>): int
  {
    if users == [] then 0 else SumAges(users[..|users| - 1]) + users[|users| - 1].age
  }

  /** `Math.round((m / n) * 100)` on exact rationals. */
  function RoundPercent(m: nat, n: nat): (r: int)
    requires n > 0
    ensures r >= 0
    ensures m <= n ==> r <= 100
  {
    RoundPercentNearest(m, n);
    (200 * m + n) / (2 * n)
  }

  /**
   * The rounded percentage is the integer `r` nearest to `100 m / n`, with
   * halves rounded up: `r - 1/2 <= 100 m / n < r + 1/2`, both sides
   * multiplied by `2 n`. A share of at most the whole rounds to at most 100.
   */
  lemma RoundPercentNearest(m: nat, n: nat)
    requires n > 0
    ensures var r := (200 * m + n) / (2 * n);
      && 2 * n * r <= 200 * m + n < 2 * n * r + 2 * n
      && 0 <= r
      && (m <= n ==> r <= 100)
  {
    var r := (200 * m + n) / (2 * n);
    DivBounds(200 * m + n, 2 * n);
    if m <= n && r > 100 {
      MulMonotone(2 * n, 101, r);
      assert false;
    }
  }

  lemma DivBounds(a: nat, b: nat)
    requires b > 0
    ensures b * (a / b) <= a < b * (a / b) + b
  {
  }

  lemma MulMonotone(k: nat, x: int, y: int)
    requires x <= y
    ensures k * x <= k * y
  {
  }

  /** `totalAge / users.length`: the mean age, which times the number of users is the sum of the ages. */
  function AverageAge(users: seq<User>): (r: real)
    requires |users| > 0
    ensures r * (|users| as real) == SumAges(users) as real
  {
    (SumAges(users) as real) / (|users| as real)
  }

  function ComputedMetrics(d: UsersResponse, top: Entry): Metrics
    requires |d.users| > 0
  {
    var n := |d.users|;
    var malePct := RoundPercent(|WithGender(d.users, "male")|, n);
    Metrics(
      d.total,
      AverageAge(d.users),
      malePct,
      100 - malePct,
      top.name,
      RoundPercent(top.count, n))
  }

  /**
   * The `useMemo` body: `null` exactly without data, a `TypeError` exactly
   * for an empty page, and otherwise metrics whose total is the reported
   * dataset size and whose two shares add up to 100.
   */
  function MetricsOf(data: Option<UsersResponse>): (r: MetricsResult)
    ensures r == NoData <==> data.None?
    ensures r == Thrown <==> data.Some? && data.value.users == []
    ensures r.Computed? ==> r.metrics.totalUsers == data.value.total
    ensures r.Computed? ==> r.metrics.malePct + r.metrics.femalePct == 100
  {
    match data
    case None => NoData
    case Some(d) =>
      var ranked := SortByCount(Tally(Countries(d.users)));
      assert ranked == [] <==> d.users == [] by {
        if d.users != [] {
          assert Countries(d.users)[0] in Distinct(Countries(d.users));
        }
      }
      if ranked == [] then Thrown else Computed(ComputedMetrics(d, ranked[0]))
  }

  /** The same computation with the `forEach` tally as a loop. */
  method ComputeMetrics(data: Option<UsersResponse>) returns (r: MetricsResult)
    ensures r == MetricsOf(data)
  {
    if data.None? {
      return NoData;
    }
    var d := data.value;
    var counts := CountByKey(Countries(d.users));
    var ranked := SortByCount(counts);
    if |ranked| == 0 {
      return Thrown;
    }
    r := Computed(ComputedMetrics(d, ranked[0]));
  }

  /**
   * A non-empty page yields metrics: the reported dataset size, the mean
   * age, the rounded male share with the female share as its complement to
   * 100, and the country with the most users (the first seen among equals)
   * with its rounded share.
   */
  lemma MetricsSpec(d: UsersResponse)
    requires |d.users| > 0
    ensures MetricsOf(Some(d)).Computed?
    ensures var m := MetricsOf(Some(d)).metrics;
      var n := |d.users|;
      var keys := Countries(d.users);
      var males := |WithGender(d.users, "male")|;
      && m.totalUsers == d.total
      && m.avgAge == AverageAge(d.users)
      && m.malePct == RoundPercent(males, n)
      && 0 <= m.malePct <= 100
      && m.malePct + m.femalePct == 100
      && m.topCountry in keys
      && (forall c :: c in keys ==> Count(keys, c) <= Count(keys, m.topCountry))
      && (forall c :: c in keys && Count(keys, c) == Count(keys, m.topCountry) ==>
            FirstIndex(keys, m.topCountry) <= FirstIndex(keys, c))
      && m.topCountryPct == RoundPercent(Count(keys, m.topCountry), n)
      && 0 <= m.topCountryPct <= 100
  {
    var keys := Countries(d.users);
    RankedHead(keys);
  }
}
