/**
 * The age bands shared by the age charts (`AGE_BUCKETS` in
 * src/components/charts/AgeDistributionChart.tsx and, identically, in
 * src/components/charts/AgeByGenderChart.tsx): seven inclusive ranges that
 * tile the ages 0 to 999.
 */
module AgeBuckets {
  import opened Sequences
  import opened Users

  datatype Bucket = Bucket(name: string, min: int, max: int)

  /** The labels use an en dash (U+2013) between the bounds. */
  const AGE_BUCKETS: seq<Bucket> := [
    Bucket("<25", 0, 24),
    Bucket("25\U{2013}29", 25, 29),
    Bucket("30\U{2013}34", 30, 34),
    Bucket("35\U{2013}39", 35, 39),
    Bucket("40\U{2013}44", 40, 44),
    Bucket("45\U{2013}49", 45, 49),
    Bucket("50+", 50, 999)
  ]

  const MIN_AGE: int := 0
  const MAX_AGE: int := 999

  predicate InBucket(age: int, b: Bucket) { b.min <= age && age <= b.max }

  /** The `filter` test `(u) => u.age >= min && u.age <= max`. */
  function AgeIn(min: int, max: int): User -> bool
  {
    (u: User) => min <= u.age <= max
  }

  /**
   * `users.filter((u) => u.age >= min && u.age <= max)`: every user whose age
   * lies in the inclusive range as often as on the page, in page order
   * (`Keep`), and no other user.
   */
  function WithAge(users: seq<User>, min: int, max: int): (r: seq<User>)
    ensures |r| <= |users|
    ensures forall u :: u in r <==> u in users && min <= u.age <= max
    ensures forall u :: multiset(r)[u] == if min <= u.age <= max then multiset(users)[u] else 0
  {
    Keep(users, AgeIn(min, max))
  }

  /** `AGE_BUCKETS` tiles `0..999`: consecutive, non-empty, gap-free. */
  lemma BucketsTile()
    ensures |AGE_BUCKETS| == 7
    ensures AGE_BUCKETS[0].min == MIN_AGE && AGE_BUCKETS[|AGE_BUCKETS| - 1].max == MAX_AGE
    ensures forall i :: 0 <= i < |AGE_BUCKETS| ==> AGE_BUCKETS[i].min <= AGE_BUCKETS[i].max
    ensures forall i :: 0 <= i < |AGE_BUCKETS| - 1 ==> AGE_BUCKETS[i].max + 1 == AGE_BUCKETS[i + 1].min
  {
  }

  /** An age lies in some bucket iff it lies in `0..999`, and then in exactly one. */
  lemma BucketsPartition(age: int)
    ensures (exists i :: 0 <= i < |AGE_BUCKETS| && InBucket(age, AGE_BUCKETS[i])) <==> MIN_AGE <= age <= MAX_AGE
    ensures forall i, j :: 0 <= i < j < |AGE_BUCKETS| ==> !(InBucket(age, AGE_BUCKETS[i]) && InBucket(age, AGE_BUCKETS[j]))
  {
    if MIN_AGE <= age <= MAX_AGE {
      var i := if age <= 24 then 0 else if age <= 29 then 1 else if age <= 34 then 2
        else if age <= 39 then 3 else if age <= 44 then 4 else if age <= 49 then 5 else 6;
      assert InBucket(age, AGE_BUCKETS[i]);
    }
  }

  /** Users counted in the first `n` buckets together. */
  function BucketSum(users: seq<User>, n: nat): nat
    requires n <= |AGE_BUCKETS|
  {
    if n == 0 then 0
    else BucketSum(users, n - 1) + |WithAge(users, AGE_BUCKETS[n - 1].min, AGE_BUCKETS[n - 1].max)|
  }

  /** Number of the first `n` buckets that contain `age`. */
  function Hits(age: int, n: nat): nat
    requires n <= |AGE_BUCKETS|
  {
    if n == 0 then 0 else Hits(age, n - 1) + (if InBucket(age, AGE_BUCKETS[n - 1]) then 1 else 0)
  }

  lemma WithAgeSnoc(users: seq<User>, u: User, min: int, max: int)
    ensures |WithAge(users + [u], min, max)| == |WithAge(users, min, max)| + (if min <= u.age <= max then 1 else 0)
  {
    KeepSnoc(users, u, AgeIn(min, max));
  }

  lemma {:induction false} BucketSumSnoc(users: seq<User>, u: User, n: nat)
    requires n <= |AGE_BUCKETS|
    ensures BucketSum(users + [u], n) == BucketSum(users, n) + Hits(u.age, n)
  {
    if n > 0 {
      BucketSumSnoc(users, u, n - 1);
      WithAgeSnoc(users, u, AGE_BUCKETS[n - 1].min, AGE_BUCKETS[n - 1].max);
    }
  }

  /** An age in `0..999` hits exactly one bucket, any other age none. */
  lemma HitsAll(age: int)
    ensures Hits(age, |AGE_BUCKETS|) == if MIN_AGE <= age <= MAX_AGE then 1 else 0
  {
    assert Hits(age, 1) == (if 0 <= age <= 24 then 1 else 0);
    assert Hits(age, 2) == (if 0 <= age <= 29 then 1 else 0);
    assert Hits(age, 3) == (if 0 <= age <= 34 then 1 else 0);
    assert Hits(age, 4) == (if 0 <= age <= 39 then 1 else 0);
    assert Hits(age, 5) == (if 0 <= age <= 44 then 1 else 0);
    assert Hits(age, 6) == (if 0 <= age <= 49 then 1 else 0);
  }

  /** Every user aged 0 to 999 is counted in exactly one bucket, any other user in none. */
  lemma {:induction false} BucketSumInRange(users: seq<User>)
    ensures BucketSum(users, |AGE_BUCKETS|) == |WithAge(users, MIN_AGE, MAX_AGE)|
  {
    if users != [] {
      var front, u := users[..|users| - 1], users[|users| - 1];
      assert users == front + [u];
      BucketSumInRange(front);
      BucketSumSnoc(front, u, |AGE_BUCKETS|);
      HitsAll(u.age);
      WithAgeSnoc(front, u, MIN_AGE, MAX_AGE);
    } else {
      NoUsersNoneCounted(|AGE_BUCKETS|);
    }
  }

  lemma {:induction false} NoUsersNoneCounted(n: nat)
    requires n <= |AGE_BUCKETS|
    ensures BucketSum([], n) == 0
  {
    if n > 0 {
      NoUsersNoneCounted(n - 1);
    }
  }
}
