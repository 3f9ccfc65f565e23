/**
 * The user directory table (src/pages/Users/UsersPage.tsx): its view state
 * and handlers, and the rows each render shows — the users that match the
 * search and the two filters, stably sorted by the chosen column, one page
 * of them.
 */
module UsersPage {
  import opened Sequences
  import opened Strings
  import opened Sorting
  import opened Users
  import opened Counting
  import opened UserDetail

  datatype SortKey = FirstName | Email | Age | Country

  datatype SortDir = Asc | Desc

  /** What `getValue` returns: the age as a number, any other column as lower-case text. */
  datatype SortValue = Num(n: int) | Text(s: string)

  const ROWS_PER_PAGE_OPTIONS: seq<nat> := [10, 25, 50]

  /** `${firstName} ${lastName}`. */
  function FullName(u: User): string
  {
    u.firstName + " " + u.lastName
  }

  /** The sort value of a user in a column: lower-case text, or the age. */
  function GetValue(u: User, key: SortKey): (v: SortValue)
    ensures v.Num? <==> key == Age
    ensures key == Age ==> v.n == u.age
    ensures v.Text? ==> forall i :: 0 <= i < |v.s| ==> !IsAsciiUpper(v.s[i])
  {
    match key
    case FirstName => Text(Lower(FullName(u)))
    case Email => Text(Lower(u.email))
    case Age => Num(u.age)
    case Country => Text(Lower(u.address.country))
  }

  /**
   * JavaScript's `<` between two sort values of one column: numeric on
   * numbers, lexicographic on text. One column never mixes the two; placing
   * numbers first only makes the relation total.
   */
  predicate ValueLess(a: SortValue, b: SortValue)
  {
    match (a, b)
    case (Num(x), Num(y)) => x < y
    case (Text(x), Text(y)) => LexLess(x, y)
    case (Num(_), Text(_)) => true
    case (Text(_), Num(_)) => false
  }

  lemma ValueLessIrreflexive(a: SortValue)
    ensures !ValueLess(a, a)
  {
    if a.Text? {
      LexLessIrreflexive(a.s);
    }
  }

  lemma ValueLessTransitive(a: SortValue, b: SortValue, c: SortValue)
    requires ValueLess(a, b) && ValueLess(b, c)
    ensures ValueLess(a, c)
  {
    if a.Text? && b.Text? && c.Text? {
      LexLessTransitive(a.s, b.s, c.s);
    }
  }

  lemma ValueLessTotal(a: SortValue, b: SortValue)
    requires a != b
    ensures ValueLess(a, b) || ValueLess(b, a)
  {
    if a.Text? && b.Text? {
      LexLessTotal(a.s, b.s);
    }
  }

  /**
   * The comparator passed to `sort`: -1, 1 or 0, and 0 exactly when the two
   * users have the same sort value.
   */
  function Compare(key: SortKey, dir: SortDir, a: User, b: User): (r: int)
    ensures r == -1 || r == 0 || r == 1
    ensures r == 0 <==> GetValue(a, key) == GetValue(b, key)
  {
    var aVal, bVal := GetValue(a, key), GetValue(b, key);
    ValueLessIrreflexive(aVal);
    assert aVal != bVal ==> ValueLess(aVal, bVal) || ValueLess(bVal, aVal) by {
      if aVal != bVal {
        ValueLessTotal(aVal, bVal);
      }
    }
    if ValueLess(aVal, bVal) then (if dir == Asc then -1 else 1)
    else if ValueLess(bVal, aVal) then (if dir == Asc then 1 else -1)
    else 0
  }

  /** The comparator is negative: `a` must come before `b`. */
  predicate RowBefore(key: SortKey, dir: SortDir, a: User, b: User)
  {
    Compare(key, dir, a, b) < 0
  }

  function RowOrder(key: SortKey, dir: SortDir): (User, User) -> bool
  {
    (a: User, b: User) => RowBefore(key, dir, a, b)
  }

  /**
   * The comparator is consistent: it is antisymmetric, returns 0 exactly
   * for equal sort values, and in ascending order puts the smaller value
   * first, in descending order the larger.
   */
  lemma CompareSpec(key: SortKey, dir: SortDir, a: User, b: User)
    ensures Compare(key, dir, a, b) == -Compare(key, dir, b, a)
    ensures Compare(key, dir, a, b) == 0 <==> GetValue(a, key) == GetValue(b, key)
    ensures dir == Asc ==> (RowBefore(key, dir, a, b) <==> ValueLess(GetValue(a, key), GetValue(b, key)))
    ensures dir == Desc ==> (RowBefore(key, dir, a, b) <==> ValueLess(GetValue(b, key), GetValue(a, key)))
  {
    var aVal, bVal := GetValue(a, key), GetValue(b, key);
    ValueLessIrreflexive(aVal);
    if ValueLess(aVal, bVal) && ValueLess(bVal, aVal) {
      ValueLessTransitive(aVal, bVal, aVal);
    }
    if aVal != bVal {
      ValueLessTotal(aVal, bVal);
    }
  }

  /** Every column order, ascending or descending, is a strict weak order. */
  lemma RowOrderIsStrictWeak(key: SortKey, dir: SortDir)
    ensures StrictWeakOrder(RowOrder(key, dir))
  {
    var before := RowOrder(key, dir);
    forall a ensures !before(a, a) {
      CompareSpec(key, dir, a, a);
    }
    forall a, b, c | before(a, b) && before(b, c) ensures before(a, c) {
      CompareSpec(key, dir, a, b);
      CompareSpec(key, dir, b, c);
      CompareSpec(key, dir, a, c);
      var va, vb, vc := GetValue(a, key), GetValue(b, key), GetValue(c, key);
      if dir == Asc {
        ValueLessTransitive(va, vb, vc);
      } else {
        ValueLessTransitive(vc, vb, va);
      }
    }
    forall a, b, c | before(a, c) && !before(a, b) ensures before(b, c) {
      CompareSpec(key, dir, a, b);
      CompareSpec(key, dir, b, c);
      CompareSpec(key, dir, a, c);
      var va, vb, vc := GetValue(a, key), GetValue(b, key), GetValue(c, key);
      if va != vb {
        ValueLessTotal(va, vb);
        if dir == Asc {
          ValueLessTransitive(vb, va, vc);
        } else {
          ValueLessTransitive(vc, va, vb);
        }
      }
    }
  }

  /**
   * `[...result].sort(comparator)`: a rearrangement of the users that is
   * sorted by the comparator and stable, which by `Sorting.SortUnique`
   * determines it.
   */
  function SortUsers(users: seq<User>, key: SortKey, dir: SortDir): (r: seq<User>)
    ensures |r| == |users| && multiset(r) == multiset(users)
    ensures Sorted(r, RowOrder(key, dir))
    ensures StableWith(r, users, RowOrder(key, dir))
  {
    RowOrderIsStrictWeak(key, dir);
    SortPermutes(users, RowOrder(key, dir));
    SortSorted(users, RowOrder(key, dir));
    SortStable(users, RowOrder(key, dir));
    Sort(users, RowOrder(key, dir))
  }

  /**
   * Sorting rearranges the users and nothing else; ascending order leaves
   * the sort values non-decreasing, descending non-increasing; users with
   * equal sort values keep their input order, in both directions.
   */
  lemma SortUsersSpec(users: seq<User>, key: SortKey, dir: SortDir)
    ensures var r := SortUsers(users, key, dir);
      && multiset(r) == multiset(users)
      && (dir == Asc ==> forall i, j :: 0 <= i < j < |r| ==> !ValueLess(GetValue(r[j], key), GetValue(r[i], key)))
      && (dir == Desc ==> forall i, j :: 0 <= i < j < |r| ==> !ValueLess(GetValue(r[i], key), GetValue(r[j], key)))
      && (forall i, j :: 0 <= i < j < |r| && GetValue(r[i], key) == GetValue(r[j], key) ==>
            Precedes(users, r[i], r[j]))
  {
    var before := RowOrder(key, dir);
    var r := Sort(users, before);
    RowOrderIsStrictWeak(key, dir);
    SortPermutes(users, before);
    SortSorted(users, before);
    SortKeepsTiedOrder(users, before);
    forall i, j | 0 <= i < j < |r|
      ensures dir == Asc ==> !ValueLess(GetValue(r[j], key), GetValue(r[i], key))
      ensures dir == Desc ==> !ValueLess(GetValue(r[i], key), GetValue(r[j], key))
      ensures GetValue(r[i], key) == GetValue(r[j], key) ==> Equiv(before, r[i], r[j])
    {
      CompareSpec(key, dir, r[j], r[i]);
      CompareSpec(key, dir, r[i], r[j]);
    }
  }

  /**
   * Descending order is not ascending order reversed: two users of the same
   * age stay in input order both ways.
   */
  lemma DescendingIsNotReversedAscending()
    ensures var a := User(1, "Ann", "Lee", "ann@x.io", 30, "female", Address("Peru", "Lima"), Company("Sales"));
      var b := User(2, "Bo", "Ng", "bo@x.io", 30, "male", Address("Peru", "Lima"), Company("Sales"));
      && SortUsers([a, b], Age, Asc) == [a, b]
      && SortUsers([a, b], Age, Desc) == [a, b]
      && [a, b] != [b, a]
  {
    var a := User(1, "Ann", "Lee", "ann@x.io", 30, "female", Address("Peru", "Lima"), Company("Sales"));
    var b := User(2, "Bo", "Ng", "bo@x.io", 30, "male", Address("Peru", "Lima"), Company("Sales"));
    forall dir: SortDir ensures SortUsers([a, b], Age, dir) == [a, b] {
      var before := RowOrder(Age, dir);
      assert [a, b][..1] == [a];
      assert Sort([a], before) == [a] by {
        assert [a][..0] == [];
      }
      assert !before(b, a);
      assert InsertPos(b, [a], before) == 1;
    }
  }

  /**
   * The `filter` callback: a user matches exactly when the search is empty
   * or its lower-case form occurs in the lower-cased full name or e-mail,
   * and each of the two filters is empty or equal to the user's field.
   */
  predicate Matches(u: User, search: string, genderFilter: string, deptFilter: string)
    ensures Matches(u, search, genderFilter, deptFilter) <==>
      && (|search| == 0
          || (exists i: nat :: i <= |FullName(u)| && OccursAt(Lower(FullName(u)), Lower(search), i))
          || (exists i: nat :: i <= |u.email| && OccursAt(Lower(u.email), Lower(search), i)))
      && (genderFilter == "" || u.gender == genderFilter)
      && (deptFilter == "" || u.company.department == deptFilter)
  {
    var q := Lower(search);
    var nameMatch := q == "" || Includes(Lower(FullName(u)), q) || Includes(Lower(u.email), q);
    var genderMatch := genderFilter == "" || u.gender == genderFilter;
    var deptMatch := deptFilter == "" || u.company.department == deptFilter;
    nameMatch && genderMatch && deptMatch
  }

  function MatchesFilters(search: string, genderFilter: string, deptFilter: string): User -> bool
  {
    (u: User) => Matches(u, search, genderFilter, deptFilter)
  }

  /** `data.users.filter(...)`. */
  function FilterUsers(users: seq<User>, search: string, genderFilter: string, deptFilter: string): (r: seq<User>)
    ensures |r| <= |users|
    ensures forall u :: u in r <==> u in users && Matches(u, search, genderFilter, deptFilter)
    ensures forall u :: multiset(r)[u] == if Matches(u, search, genderFilter, deptFilter) then multiset(users)[u] else 0
  {
    Keep(users, MatchesFilters(search, genderFilter, deptFilter))
  }

  /**
   * The filtered users are the users at the matching positions, in their
   * order on the page.
   */
  lemma FilterKeepsOrder(users: seq<User>, search: string, genderFilter: string, deptFilter: string)
    returns (idx: seq<nat>)
    ensures var r := FilterUsers(users, search, genderFilter, deptFilter);
      && |idx| == |r|
      && (forall i :: 0 <= i < |idx| ==> idx[i] < |users| && users[idx[i]] == r[i])
      && (forall i, j :: 0 <= i < j < |idx| ==> idx[i] < idx[j])
      && (forall k :: 0 <= k < |users| ==> (k in idx <==> Matches(users[k], search, genderFilter, deptFilter)))
  {
    idx := KeptPositions(users, MatchesFilters(search, genderFilter, deptFilter));
  }

  /** Filtering twice with the same criteria is filtering once. */
  lemma FilterIdempotent(users: seq<User>, search: string, genderFilter: string, deptFilter: string)
    ensures var r := FilterUsers(users, search, genderFilter, deptFilter);
      FilterUsers(r, search, genderFilter, deptFilter) == r
  {
    KeepIdempotent(users, MatchesFilters(search, genderFilter, deptFilter));
  }

  /** With all three filters empty every user is kept. */
  lemma {:induction false} NoFiltersKeepEveryone(users: seq<User>)
    ensures FilterUsers(users, "", "", "") == users
  {
    if users != [] {
      NoFiltersKeepEveryone(users[..|users| - 1]);
      assert Matches(users[|users| - 1], "", "", "");
      assert users == users[..|users| - 1] + [users[|users| - 1]];
    }
  }

  /**
   * `rows.slice(page * rowsPerPage, page * rowsPerPage + rowsPerPage)`:
   * `slice` clamps both ends to the length, so no page is out of range.
   */
  function Paginate<T>(rows: seq<T>, page: nat, rowsPerPage: nat): (r: seq<T>)
    ensures |r| == Min(rowsPerPage, Max(0, |rows| - page * rowsPerPage))
    ensures forall i :: 0 <= i < |r| ==> r[i] == rows[page * rowsPerPage + i]
  {
    var start := Min(page * rowsPerPage, |rows|);
    var end := Min(page * rowsPerPage + rowsPerPage, |rows|);
    rows[start..end]
  }

  /** A page starting at or past the end is empty, and no error. */
  lemma PagePastEnd<T>(rows: seq<T>, page: nat, rowsPerPage: nat)
    requires page * rowsPerPage >= |rows|
    ensures Paginate(rows, page, rowsPerPage) == []
  {
  }

  /** Every row of a page is a row of the list. */
  lemma PageMembers<T>(rows: seq<T>, page: nat, rowsPerPage: nat)
    ensures forall x :: x in Paginate(rows, page, rowsPerPage) ==> x in rows
  {
    var r := Paginate(rows, page, rowsPerPage);
    forall x | x in r ensures x in rows {
      var i :| 0 <= i < |r| && r[i] == x;
      assert rows[page * rowsPerPage + i] == x;
    }
  }

  lemma SameMembers<T>(a: seq<T>, b: seq<T>)
    requires multiset(a) == multiset(b)
    ensures forall x :: x in a <==> x in b
  {
    forall x ensures x in a <==> x in b {
      assert x in a <==> x in multiset(a);
      assert x in b <==> x in multiset(b);
    }
  }

  /** A page of a rearrangement of the matching users holds only matching users. */
  lemma PageOfMatches(users: seq<User>, rows: seq<User>, search: string, genderFilter: string, deptFilter: string,
                      page: nat, rowsPerPage: nat)
    requires multiset(rows) == multiset(FilterUsers(users, search, genderFilter, deptFilter))
    ensures |Paginate(rows, page, rowsPerPage)| ==
      Min(rowsPerPage, Max(0, |FilterUsers(users, search, genderFilter, deptFilter)| - page * rowsPerPage))
    ensures forall u :: u in Paginate(rows, page, rowsPerPage) ==>
      u in users && Matches(u, search, genderFilter, deptFilter)
  {
    assert |rows| == |multiset(rows)|;
    PageMembers(rows, page, rowsPerPage);
    SameMembers(rows, FilterUsers(users, search, genderFilter, deptFilter));
  }

  /** Pages `0 .. k - 1` one after another. */
  function FirstPages<T>(rows: seq<T>, rowsPerPage: nat, k: nat): seq<T>
  {
    if k == 0 then [] else FirstPages(rows, rowsPerPage, k - 1) + Paginate(rows, k - 1, rowsPerPage)
  }

  /**
   * The pages tile the rows: the first `k` pages are the first
   * `k * rowsPerPage` rows, so with enough pages every row is shown once.
   */
  lemma {:induction false} PagesTile<T>(rows: seq<T>, rowsPerPage: nat, k: nat)
    ensures FirstPages(rows, rowsPerPage, k) == rows[..Min(k * rowsPerPage, |rows|)]
  {
    if k > 0 {
      PagesTile(rows, rowsPerPage, k - 1);
      var lo := (k - 1) * rowsPerPage;
      assert lo + rowsPerPage == k * rowsPerPage;
      var a, b := Min(lo, |rows|), Min(k * rowsPerPage, |rows|);
      assert Paginate(rows, k - 1, rowsPerPage) == rows[a..b];
      assert rows[..a] + rows[a..b] == rows[..b];
    }
  }

  /** With at least one row per page, `|rows|` pages show every row. */
  lemma AllPagesShowEveryRow<T>(rows: seq<T>, rowsPerPage: nat)
    requires rowsPerPage > 0
    ensures FirstPages(rows, rowsPerPage, |rows|) == rows
  {
    PagesTile(rows, rowsPerPage, |rows|);
    MulAtLeast(|rows|, rowsPerPage);
    assert rows[..|rows|] == rows;
  }

  lemma MulAtLeast(a: nat, b: nat)
    requires b > 0
    ensures a * b >= a
  {
  }

  /** The default `sort()` of strings: lexicographic order. */
  function TextOrder(): (string, string) -> bool
  {
    (a: string, b: string) => LexLess(a, b)
  }

  /**
   * `Array.from(new Set(departments)).sort()`: nothing without data, and
   * otherwise the departments of the page.
   */
  function DepartmentOptions(data: Option<UsersResponse>): (r: seq<string>)
    ensures data.None? ==> r == []
    ensures data.Some? ==> forall x :: x in r <==> x in Departments(data.value.users)
  {
    match data
    case None => []
    case Some(d) =>
      SortMembers(Distinct(Departments(d.users)), TextOrder());
      Sort(Distinct(Departments(d.users)), TextOrder())
  }

  /**
   * The department menu lists every department of the page once, in
   * strictly ascending order.
   */
  lemma DepartmentOptionsSpec(d: UsersResponse)
    ensures var r := DepartmentOptions(Some(d));
      && (forall x :: x in r <==> x in Departments(d.users))
      && NoDuplicates(r)
      && (forall i, j :: 0 <= i < j < |r| ==> LexLess(r[i], r[j]))
  {
    var before := TextOrder();
    var s := Distinct(Departments(d.users));
    var r := Sort(s, before);
    assert StrictWeakOrder(before) by {
      forall a ensures !before(a, a) {
        LexLessIrreflexive(a);
      }
      forall a, b, c | before(a, b) && before(b, c) ensures before(a, c) {
        LexLessTransitive(a, b, c);
      }
      forall a, b, c | before(a, c) && !before(a, b) ensures before(b, c) {
        if a != b {
          LexLessTotal(a, b);
          LexLessTransitive(b, a, c);
        }
      }
    }
    SortPermutes(s, before);
    SortMembers(s, before);
    SortSorted(s, before);
    PermutationNoDuplicates(s, r);
    forall i, j | 0 <= i < j < |r| ensures LexLess(r[i], r[j]) {
      LexLessTotal(r[i], r[j]);
    }
  }

  /** What a table row shows in its avatar: the initials and the colour. */
  datatype Avatar = Avatar(initials: string, color: string)

  /**
   * A table row's avatar: `${firstName[0]}${lastName[0]}`.toUpperCase() and
   * `getAvatarColor(firstName + lastName)`. It is the avatar the drawer shows
   * once that user is selected.
   */
  function RowAvatar(u: User, getAvatarColor: string -> string): (a: Avatar)
    ensures a.initials == Initials(Some(u))
    ensures a.color == AvatarColor(Some(u), getAvatarColor)
  {
    Avatar(Upper(FirstCharText(u.firstName) + FirstCharText(u.lastName)), getAvatarColor(u.firstName + u.lastName))
  }

  /** The state of the page, one field per `useState`. */
  class UsersPageView {
    var search: string
    var genderFilter: string
    var deptFilter: string
    var sortKey: SortKey
    var sortDir: SortDir
    var page: nat
    var rowsPerPage: nat
    var selectedUser: Option<User>

    /** The initial state: no filters, by name ascending, first page of ten, no user selected. */
    constructor()
      ensures search == "" && genderFilter == "" && deptFilter == ""
      ensures sortKey == FirstName && sortDir == Asc
      ensures page == 0 && rowsPerPage == 10 && rowsPerPage in ROWS_PER_PAGE_OPTIONS
      ensures selectedUser == None
    {
      search := "";
      genderFilter := "";
      deptFilter := "";
      sortKey := FirstName;
      sortDir := Asc;
      page := 0;
      rowsPerPage := 10;
      selectedUser := None;
    }

    /** `hasFilters`: some filter string is non-empty; otherwise every user matches. */
    predicate HasFilters()
      reads this
      ensures !HasFilters() ==> forall u :: Matches(u, search, genderFilter, deptFilter)
    {
      search != "" || genderFilter != "" || deptFilter != ""
    }

    /**
     * `filteredAndSorted`: nothing without data; otherwise the matching
     * users rearranged, sorted by the current column and direction, and
     * stable, so users with equal values keep their page order (by
     * `Sorting.SortUnique` that fixes the sequence). Without filters they
     * are all the users of the page.
     */
    function FilteredAndSorted(data: Option<UsersResponse>): (r: seq<User>)
      reads this
      ensures data.None? ==> r == []
      ensures data.Some? ==>
        var kept := FilterUsers(data.value.users, search, genderFilter, deptFilter);
        && |r| == |kept|
        && multiset(r) == multiset(kept)
        && Sorted(r, RowOrder(sortKey, sortDir))
        && StableWith(r, kept, RowOrder(sortKey, sortDir))
      ensures data.Some? && !HasFilters() ==> multiset(r) == multiset(data.value.users)
    {
      match data
      case None => []
      case Some(d) =>
        var kept := FilterUsers(d.users, search, genderFilter, deptFilter);
        if !HasFilters() then
          NoFiltersKeepEveryone(d.users);
          SortUsers(kept, sortKey, sortDir)
        else
          SortUsers(kept, sortKey, sortDir)
    }

    /**
     * `paginated`: the rows of `filteredAndSorted` from `page * rowsPerPage`
     * on, `min(rowsPerPage, max(0, n - page * rowsPerPage))` of them for `n`
     * matching users, each a matching user of the page.
     */
    function Paginated(data: Option<UsersResponse>): (r: seq<User>)
      reads this
      ensures data.None? ==> r == []
      ensures data.Some? ==>
        |r| == Min(rowsPerPage, Max(0, |FilterUsers(data.value.users, search, genderFilter, deptFilter)| - page * rowsPerPage))
      ensures r == Paginate(FilteredAndSorted(data), page, rowsPerPage)
      ensures data.Some? ==> forall u :: u in r ==>
        u in data.value.users && Matches(u, search, genderFilter, deptFilter)
    {
      var rows := FilteredAndSorted(data);
      if data.Some? then
        PageOfMatches(data.value.users, rows, search, genderFilter, deptFilter, page, rowsPerPage);
        Paginate(rows, page, rowsPerPage)
      else
        Paginate(rows, page, rowsPerPage)
    }

    /**
     * `handleSort`: on the active column the direction flips, on another
     * column that column is taken ascending; back to the first page either way.
     */
    method HandleSort(key: SortKey)
      modifies this
      ensures sortKey == key
      ensures old(sortKey) == key ==> sortDir == (if old(sortDir) == Asc then Desc else Asc)
      ensures old(sortKey) != key ==> sortDir == Asc
      ensures page == 0
      ensures search == old(search) && genderFilter == old(genderFilter) && deptFilter == old(deptFilter)
      ensures rowsPerPage == old(rowsPerPage) && selectedUser == old(selectedUser)
    {
      if sortKey == key {
        sortDir := if sortDir == Asc then Desc else Asc;
      } else {
        sortKey := key;
        sortDir := Asc;
      }
      page := 0;
    }

    /** `handleSearchChange`: a new search text, back to the first page. */
    method HandleSearchChange(value: string)
      modifies this
      ensures search == value && page == 0
      ensures genderFilter == old(genderFilter) && deptFilter == old(deptFilter)
      ensures sortKey == old(sortKey) && sortDir == old(sortDir)
      ensures rowsPerPage == old(rowsPerPage) && selectedUser == old(selectedUser)
    {
      search := value;
      page := 0;
    }

    /** The gender select's `onChange`. */
    method SetGenderFilter(value: string)
      modifies this
      ensures genderFilter == value && page == 0
      ensures search == old(search) && deptFilter == old(deptFilter)
      ensures sortKey == old(sortKey) && sortDir == old(sortDir)
      ensures rowsPerPage == old(rowsPerPage) && selectedUser == old(selectedUser)
    {
      genderFilter := value;
      page := 0;
    }

    /** The department select's `onChange`. */
    method SetDeptFilter(value: string)
      modifies this
      ensures deptFilter == value && page == 0
      ensures search == old(search) && genderFilter == old(genderFilter)
      ensures sortKey == old(sortKey) && sortDir == old(sortDir)
      ensures rowsPerPage == old(rowsPerPage) && selectedUser == old(selectedUser)
    {
      deptFilter := value;
      page := 0;
    }

    /** The "Clear filters" chip: all three filters emptied, first page, sort kept. */
    method ClearFilters()
      modifies this
      ensures search == "" && genderFilter == "" && deptFilter == "" && page == 0
      ensures !HasFilters()
      ensures sortKey == old(sortKey) && sortDir == old(sortDir)
      ensures rowsPerPage == old(rowsPerPage) && selectedUser == old(selectedUser)
    {
      search := "";
      genderFilter := "";
      deptFilter := "";
      page := 0;
    }

    /** The pagination's `onPageChange`. */
    method SetPage(newPage: nat)
      modifies this
      ensures page == newPage
      ensures search == old(search) && genderFilter == old(genderFilter) && deptFilter == old(deptFilter)
      ensures sortKey == old(sortKey) && sortDir == old(sortDir)
      ensures rowsPerPage == old(rowsPerPage) && selectedUser == old(selectedUser)
    {
      page := newPage;
    }

    /** The pagination's `onRowsPerPageChange`, given the parsed number. */
    method SetRowsPerPage(value: nat)
      modifies this
      ensures rowsPerPage == value && page == 0
      ensures search == old(search) && genderFilter == old(genderFilter) && deptFilter == old(deptFilter)
      ensures sortKey == old(sortKey) && sortDir == old(sortDir)
      ensures selectedUser == old(selectedUser)
    {
      rowsPerPage := value;
      page := 0;
    }

    /** A row's `onClick`: that user's drawer opens. */
    method SelectUser(u: User)
      modifies this
      ensures selectedUser == Some(u) && DrawerOpen(selectedUser)
      ensures search == old(search) && genderFilter == old(genderFilter) && deptFilter == old(deptFilter)
      ensures sortKey == old(sortKey) && sortDir == old(sortDir)
      ensures page == old(page) && rowsPerPage == old(rowsPerPage)
    {
      selectedUser := Some(u);
    }

    /** The drawer's `onClose`. */
    method CloseDrawer()
      modifies this
      ensures selectedUser == None && !DrawerOpen(selectedUser)
      ensures search == old(search) && genderFilter == old(genderFilter) && deptFilter == old(deptFilter)
      ensures sortKey == old(sortKey) && sortDir == old(sortDir)
      ensures page == old(page) && rowsPerPage == old(rowsPerPage)
    {
      selectedUser := None;
    }
  }
}
