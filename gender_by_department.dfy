/**
 * The gender-by-department stacked bars
 * (src/components/charts/GenderByDepartmentChart.tsx): per department, the
 * users whose gender is exactly `"male"` and everyone else (the `else`
 * branch counts every other value as female), departments in first-seen
 * order, then stably sorted by total, largest first.
 */
module GenderByDepartmentChart {
  import opened Sequences
  import opened Sorting
  import opened Users
  import opened Counting
  import DepartmentHeadcountChart

  /** One `deptMap` value, `{ male, female }`. */
  datatype Split = Split(male: nat, female: nat)

  /** One `{ dept, male, female, total }` row. */
  datatype DeptRow = DeptRow(dept: string, male: nat, female: nat, total: nat)

  /** Users of department `d` counted in the `male` column. */
  function MaleIn(users: seq<User>, d: string): nat
  {
    if users == [] then 0
    else
      var u := users[|users| - 1];
      MaleIn(users[..|users| - 1], d) + (if u.company.department == d && IsMale(u) then 1 else 0)
  }

  /** Users of department `d` counted in the `female` column: every gender but `"male"`. */
  function FemaleIn(users: seq<User>, d: string): nat
  {
    if users == [] then 0
    else
      var u := users[|users| - 1];
      FemaleIn(users[..|users| - 1], d) + (if u.company.department == d && !IsMale(u) then 1 else 0)
  }

  /** The two columns of a department split its headcount. */
  lemma {:induction false} SplitHeadcount(users: seq<User>, d: string)
    ensures MaleIn(users, d) + FemaleIn(users, d) == Count(Departments(users), d)
  {
    if users != [] {
      var front := users[..|users| - 1];
      assert Departments(users)[..|users| - 1] == Departments(front);
      SplitHeadcount(front, d);
    }
  }

  function Row(users: seq<User>, d: string): DeptRow
  {
    DeptRow(d, MaleIn(users, d), FemaleIn(users, d), MaleIn(users, d) + FemaleIn(users, d))
  }

  /** `Object.entries(deptMap)` with `total` added: one row per department, first-seen order. */
  function CrossTab(users: seq<User>): (rows: seq<DeptRow>)
    ensures |rows| == |Distinct(Departments(users))|
  {
    RowsFor(users, Distinct(Departments(users)))
  }

  function RowsFor(users: seq<User>, names: seq<string>): (rows: seq<DeptRow>)
    ensures |rows| == |names|
    ensures forall i :: 0 <= i < |names| ==> rows[i] == Row(users, names[i])
  {
    seq(|names|, i requires 0 <= i < |names| => Row(users, names[i]))
  }

  function Depts(rows: seq<DeptRow>): (r: seq<string>)
    ensures |r| == |rows|
    ensures forall i :: 0 <= i < |rows| ==> r[i] == rows[i].dept
  {
    seq(|rows|, i requires 0 <= i < |rows| => rows[i].dept)
  }

  /** The comparator `(a, b) => b.total - a.total` is negative. */
  predicate TotalAbove(a: DeptRow, b: DeptRow) { a.total > b.total }

  lemma TotalAboveIsStrictWeak()
    ensures StrictWeakOrder(TotalAbove)
  {
  }

  /** The `useMemo` body: no rows without data, one per department with. */
  function ChartData(data: Option<UsersResponse>): (r: seq<DeptRow>)
    ensures data.None? ==> r == []
    ensures data.Some? ==> |r| == |Distinct(Departments(data.value.users))|
  {
    match data
    case None => []
    case Some(d) => Sort(CrossTab(d.users), TotalAbove)
  }

  /** `deptMap` after the `forEach` callback has visited `u`. */
  function Visit(m: map<string, Split>, u: User): map<string, Split>
  {
    var d := u.company.department;
    var m' := if d in m then m else m[d := Split(0, 0)];
    var c := m'[d];
    m'[d := if IsMale(u) then c.(male := c.male + 1) else c.(female := c.female + 1)]
  }

  /** The `forEach` callback, updating the `deptMap` entry of `u`'s department in place. */
  method VisitUser(m: map<string, Split>, u: User) returns (m1: map<string, Split>)
    ensures m1 == Visit(m, u)
    ensures u.company.department in m1
  {
    var d := u.company.department;
    m1 := m;
    if d !in m1 {
      m1 := m1[d := Split(0, 0)];
    }
    var counts := m1[d];
    if IsMale(u) {
      m1 := m1[d := counts.(male := counts.male + 1)];
    } else {
      m1 := m1[d := counts.(female := counts.female + 1)];
    }
  }

  /** `deptMap` after the `forEach` has visited `users`. */
  function DeptMap(users: seq<User>): map<string, Split>
  {
    if users == [] then map[] else Visit(DeptMap(users[..|users| - 1]), users[|users| - 1])
  }

  /** `deptMap` has a key per department, holding its two columns. */
  lemma {:induction false} DeptMapSpec(users: seq<User>)
    ensures forall k :: k in DeptMap(users) <==> k in Departments(users)
    ensures forall k :: k in DeptMap(users) ==> DeptMap(users)[k] == Split(MaleIn(users, k), FemaleIn(users, k))
  {
    if users != [] {
      var front := users[..|users| - 1];
      DeptMapSpec(front);
      assert Departments(users) == Departments(front) + [users[|users| - 1].company.department];
      var d := users[|users| - 1].company.department;
      if d !in DeptMap(front) {
        NotPresentNoneCounted(front, d);
      }
    }
  }

  /**
   * The `forEach` that fills `deptMap`: `order` is its insertion order and
   * `split` its `{ male, female }` values.
   */
  method BuildCrossTab(users: seq<User>) returns (rows: seq<DeptRow>)
    ensures rows == CrossTab(users)
  {
    var order: seq<string> := [];
    var split: map<string, Split> := map[];
    var i := 0;
    while i < |users|
      invariant 0 <= i <= |users|
      invariant order == Distinct(Departments(users[..i]))
      invariant split == DeptMap(users[..i])
    {
      var u := users[i];
      var d := u.company.department;
      VisitStep(users, i);
      if d !in split {
        order := order + [d];
      }
      split := VisitUser(split, u);
      i := i + 1;
    }
    assert users[..i] == users;
    rows := RowsOf(users, order, split);
  }

  /** What visiting `users[i]` does to the insertion order and to `deptMap`. */
  lemma VisitStep(users: seq<User>, i: nat)
    requires i < |users|
    ensures var d := users[i].company.department;
      var m := DeptMap(users[..i]);
      && (d in m <==> d in Distinct(Departments(users[..i])))
      && Distinct(Departments(users[..i + 1])) ==
           (if d in m then Distinct(Departments(users[..i])) else Distinct(Departments(users[..i])) + [d])
      && DeptMap(users[..i + 1]) == Visit(m, users[i])
  {
    var post := users[..i + 1];
    assert post[..i] == users[..i];
    assert Departments(post) == Departments(users[..i]) + [users[i].company.department];
    DeptMapSpec(users[..i]);
  }

  /** `Object.entries(deptMap).map(...)`: the finished map read in insertion order. */
  function RowsOf(users: seq<User>, order: seq<string>, split: map<string, Split>): (rows: seq<DeptRow>)
    requires order == Distinct(Departments(users)) && split == DeptMap(users)
    ensures rows == CrossTab(users)
  {
    DeptMapSpec(users);
    var rows := seq(|order|, j requires 0 <= j < |order| =>
      DeptRow(order[j], split[order[j]].male, split[order[j]].female, split[order[j]].male + split[order[j]].female));
    assert forall j :: 0 <= j < |rows| ==> rows[j] == CrossTab(users)[j];
    rows
  }

  /** A department no user belongs to has empty columns. */
  lemma {:induction false} NotPresentNoneCounted(users: seq<User>, d: string)
    requires d !in Departments(users)
    ensures MaleIn(users, d) == 0 && FemaleIn(users, d) == 0
  {
    if users != [] {
      var front := users[..|users| - 1];
      assert Departments(users)[..|users| - 1] == Departments(front);
      assert Departments(users)[|users| - 1] == users[|users| - 1].company.department;
      NotPresentNoneCounted(front, d);
    }
  }

  /** The `useMemo` body: the crosstab, then the sort by total. */
  method ComputeChartData(data: Option<UsersResponse>) returns (r: seq<DeptRow>)
    ensures r == ChartData(data)
  {
    if data.None? {
      return [];
    }
    var rows := BuildCrossTab(data.value.users);
    r := Sort(rows, TotalAbove);
  }

  /** `Math.max(260, chartData.length * 34)`, as for the headcount chart. */
  function ChartHeight(rows: seq<DeptRow>): (h: nat)
    ensures h >= DepartmentHeadcountChart.MIN_HEIGHT && h >= |rows| * DepartmentHeadcountChart.BAR_HEIGHT
    ensures h == DepartmentHeadcountChart.MIN_HEIGHT || h == |rows| * DepartmentHeadcountChart.BAR_HEIGHT
  {
    DepartmentHeadcountChart.ChartHeight(|rows|)
  }

  function RowTotal(row: DeptRow): nat { row.total }

  /** Sum of the rows' totals. */
  function TotalOf(rows: seq<DeptRow>): nat
  {
    SumBy(rows, RowTotal)
  }

  /** Sorting the rows keeps the sum of their totals. */
  lemma SortKeepsTotal(rows: seq<DeptRow>)
    ensures TotalOf(Sort(rows, TotalAbove)) == TotalOf(rows)
  {
    SortKeepsSum(rows, TotalAbove, RowTotal);
  }

  lemma {:induction false} TotalRowsFor(users: seq<User>, names: seq<string>)
    ensures TotalOf(RowsFor(users, names)) == CountSum(Departments(users), names)
  {
    if names != [] {
      var front := names[..|names| - 1];
      assert RowsFor(users, names)[..|names| - 1] == RowsFor(users, front);
      TotalRowsFor(users, front);
      SplitHeadcount(users, names[|names| - 1]);
    }
  }

  /**
   * The crosstab: one row per distinct department in first-seen order, each
   * holding the department's two columns and their sum, its headcount; the
   * totals add up to the number of users.
   */
  lemma CrossTabSpec(users: seq<User>)
    ensures var rows := CrossTab(users);
      var keys := Departments(users);
      && Depts(rows) == Distinct(keys)
      && (forall i :: 0 <= i < |rows| ==> rows[i] == Row(users, rows[i].dept))
      && (forall i :: 0 <= i < |rows| ==> rows[i].total == Count(keys, rows[i].dept) >= 1)
      && TotalOf(rows) == |users|
  {
    var keys := Departments(users);
    var rows := CrossTab(users);
    forall i | 0 <= i < |rows| ensures rows[i].total == Count(keys, rows[i].dept) >= 1 {
      SplitHeadcount(users, rows[i].dept);
    }
    TotalRowsFor(users, Distinct(keys));
    CountSumDistinct(keys);
  }

  /**
   * With data: one row per distinct department, none missing and none
   * twice; totals never increase along the rows, and rows of equal total
   * keep first-seen order.
   */
  lemma ChartDataSpec(d: UsersResponse)
    ensures var r := ChartData(Some(d));
      var keys := Departments(d.users);
      && |r| == |Distinct(keys)|
      && (forall k :: k in keys <==> k in Depts(r))
      && NoDuplicates(Depts(r))
      && (forall i, j :: 0 <= i < j < |r| ==> r[i].total >= r[j].total)
      && (forall i, j :: 0 <= i < j < |r| && r[i].total == r[j].total ==>
            FirstIndex(keys, r[i].dept) < FirstIndex(keys, r[j].dept))
  {
    var keys := Departments(d.users);
    var rows := CrossTab(d.users);
    assert Depts(rows) == Distinct(keys);
    SortedRowsDepts(rows, keys);
    SortedRowsOrder(rows, keys);
  }

  /**
   * With data: each row holds its department's `male` column, its `female`
   * column (every other gender) and their sum, the department's headcount;
   * the totals add up to the number of users.
   */
  lemma ChartDataRows(d: UsersResponse)
    ensures var r := ChartData(Some(d));
      var keys := Departments(d.users);
      && (forall i :: 0 <= i < |r| ==>
            && r[i] == Row(d.users, r[i].dept)
            && r[i].male + r[i].female == r[i].total == Count(keys, r[i].dept))
      && TotalOf(r) == |d.users|
  {
    var keys := Departments(d.users);
    var rows := CrossTab(d.users);
    var r := Sort(rows, TotalAbove);
    CrossTabSpec(d.users);
    SortMembers(rows, TotalAbove);
    forall i | 0 <= i < |r|
      ensures r[i] == Row(d.users, r[i].dept)
      ensures r[i].total == Count(keys, r[i].dept)
    {
      assert r[i] in rows;
    }
    SortKeepsTotal(rows);
  }

  /** Sorting keeps the rows. */
  lemma SortedRowsMembers(rows: seq<DeptRow>)
    ensures forall x :: x in Sort(rows, TotalAbove) <==> x in rows
    ensures multiset(Sort(rows, TotalAbove)) == multiset(rows)
  {
    SortMembers(rows, TotalAbove);
    SortPermutes(rows, TotalAbove);
  }

  /**
   * Sorting rows whose departments are the distinct keys in first-seen
   * order: every key still has a row and none has two.
   */
  lemma SortedRowsDepts(rows: seq<DeptRow>, keys: seq<string>)
    requires Depts(rows) == Distinct(keys)
    ensures var r := Sort(rows, TotalAbove);
      && (forall k :: k in keys <==> k in Depts(r))
      && NoDuplicates(Depts(r))
      && (forall i :: 0 <= i < |r| ==> r[i].dept in keys)
  {
    var r := Sort(rows, TotalAbove);
    SortedRowsMembers(rows);
    SortedDeptsAreKeys(rows, r, keys);
    SortedDeptsDistinct(rows, r, keys);
    assert forall i :: 0 <= i < |r| ==> r[i].dept in keys by {
      forall i | 0 <= i < |r| ensures r[i].dept in keys {
        assert Depts(r)[i] in Depts(r);
      }
    }
  }

  lemma SortedDeptsAreKeys(rows: seq<DeptRow>, r: seq<DeptRow>, keys: seq<string>)
    requires Depts(rows) == Distinct(keys)
    requires forall x :: x in r <==> x in rows
    ensures forall k :: k in keys <==> k in Depts(r)
  {
    var names := Distinct(keys);
    forall k ensures k in keys <==> k in Depts(r) {
      if k in keys {
        var a :| 0 <= a < |names| && names[a] == k;
        assert Depts(rows)[a] == k;
        assert rows[a] in r;
        var b :| 0 <= b < |r| && r[b] == rows[a];
        assert Depts(r)[b] == k;
      }
      if k in Depts(r) {
        var b :| 0 <= b < |r| && Depts(r)[b] == k;
        assert r[b] in rows;
        var a :| 0 <= a < |rows| && rows[a] == r[b];
        assert Depts(rows)[a] == k;
      }
    }
  }

  lemma SortedDeptsDistinct(rows: seq<DeptRow>, r: seq<DeptRow>, keys: seq<string>)
    requires Depts(rows) == Distinct(keys)
    requires forall x :: x in r <==> x in rows
    requires multiset(r) == multiset(rows)
    ensures NoDuplicates(Depts(r))
  {
    var names := Distinct(keys);
    forall i, j | 0 <= i < j < |r| ensures Depts(r)[i] != Depts(r)[j] {
      assert r[i] in rows && r[j] in rows;
      var a :| 0 <= a < |rows| && rows[a] == r[i];
      var b :| 0 <= b < |rows| && rows[b] == r[j];
      assert Depts(rows)[a] == names[a] && Depts(rows)[b] == names[b];
      if a == b {
        RowsStaySeparate(rows, r, i, j);
      }
    }
  }

  /** Two positions of a rearrangement of rows with distinct departments hold different rows. */
  lemma RowsStaySeparate(rows: seq<DeptRow>, r: seq<DeptRow>, i: nat, j: nat)
    requires NoDuplicates(Depts(rows)) && multiset(r) == multiset(rows)
    requires 0 <= i < j < |r|
    ensures r[i] != r[j]
  {
    assert NoDuplicates(rows) by {
      forall a, b | 0 <= a < b < |rows| ensures rows[a] != rows[b] {
        assert Depts(rows)[a] != Depts(rows)[b];
      }
    }
    PermutationNoDuplicates(rows, r);
  }

  /** Sorted by total, largest first; equal totals in first-seen order. */
  lemma SortedRowsOrder(rows: seq<DeptRow>, keys: seq<string>)
    requires Depts(rows) == Distinct(keys)
    ensures var r := Sort(rows, TotalAbove);
      && (forall i, j :: 0 <= i < j < |r| ==> r[i].total >= r[j].total)
      && (forall i :: 0 <= i < |r| ==> r[i].dept in keys)
      && (forall i, j :: 0 <= i < j < |r| && r[i].total == r[j].total ==>
            FirstIndex(keys, r[i].dept) < FirstIndex(keys, r[j].dept))
  {
    var r := Sort(rows, TotalAbove);
    TotalAboveIsStrictWeak();
    SortSorted(rows, TotalAbove);
    SortMembers(rows, TotalAbove);
    SortKeepsTiedOrder(rows, TotalAbove);
    RowsOrderFrom(rows, r, keys);
  }

  /** The department order of any stable rearrangement of the rows. */
  lemma RowsOrderFrom(rows: seq<DeptRow>, r: seq<DeptRow>, keys: seq<string>)
    requires Depts(rows) == Distinct(keys)
    requires forall x :: x in r ==> x in rows
    requires forall i, j :: 0 <= i < j < |r| && Equiv(TotalAbove, r[i], r[j]) ==> Precedes(rows, r[i], r[j])
    ensures forall i :: 0 <= i < |r| ==> r[i].dept in keys
    ensures forall i, j :: 0 <= i < j < |r| && r[i].total == r[j].total ==>
      FirstIndex(keys, r[i].dept) < FirstIndex(keys, r[j].dept)
  {
    forall i | 0 <= i < |r| ensures r[i].dept in keys {
      assert r[i] in r;
      RowDeptIsKey(rows, keys, r[i]);
    }
    forall i, j | 0 <= i < j < |r| && r[i].total == r[j].total
      ensures FirstIndex(keys, r[i].dept) < FirstIndex(keys, r[j].dept)
    {
      assert Equiv(TotalAbove, r[i], r[j]);
      PrecedingRowsFirstSeen(rows, keys, r[i], r[j]);
    }
  }

  lemma RowDeptIsKey(rows: seq<DeptRow>, keys: seq<string>, x: DeptRow)
    requires Depts(rows) == Distinct(keys) && x in rows
    ensures x.dept in keys
  {
    var a :| 0 <= a < |rows| && rows[a] == x;
    assert Depts(rows)[a] in Distinct(keys);
  }

  /** Of two rows in order, the first names the department seen first. */
  lemma PrecedingRowsFirstSeen(rows: seq<DeptRow>, keys: seq<string>, x: DeptRow, y: DeptRow)
    requires Depts(rows) == Distinct(keys) && Precedes(rows, x, y)
    ensures x.dept in keys && y.dept in keys
    ensures FirstIndex(keys, x.dept) < FirstIndex(keys, y.dept)
  {
    var names := Distinct(keys);
    var a, b :| 0 <= a < b < |rows| && rows[a] == x && rows[b] == y;
    assert Depts(rows)[a] == names[a] && Depts(rows)[b] == names[b];
    assert names[a] in names && names[b] in names;
    DistinctFirstSeen(keys);
  }

  /** Without data, and with no users, there are no rows and the chart keeps its floor height. */
  lemma NoRowsWithoutUsers(d: UsersResponse)
    requires d.users == []
    ensures ChartData(None) == []
    ensures ChartData(Some(d)) == []
    ensures ChartHeight(ChartData(Some(d))) == DepartmentHeadcountChart.MIN_HEIGHT
  {
    assert Departments(d.users) == [];
  }
}
