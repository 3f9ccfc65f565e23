# metricly dashboard core, modelled in Dafny

metricly is a React analytics dashboard over a remote user directory. This
project models the logic the pages compute from one page of user records.

- The **user table** (`UsersPage`) has view state: a search text, gender and
  department filters, a sort column and direction, a page, a page size and
  the selected user. Handlers change that state. Every render recomputes the
  visible rows: it filters the users, stably sorts them by a per-column value,
  and slices out one page.
- The **dashboard metrics** (`Dashboard`) are:
  - the reported dataset size;
  - the mean age;
  - the male and female shares in whole percent;
  - the most common country and the share it holds.
- The **charts** tally the users and display the tallies.
  - By state: a pie of the top six states, plus "Others".
  - By country: the top eight countries.
  - By department: a headcount per department.
  - By department and gender: a cross-tab of male and female counts.
  - By age band: a histogram.
  - By age band and gender: male and female counts per band.
  - By gender: a two-slice ratio.
- The **user detail drawer** (`UserDetail`) formats the selected user:
  initials, avatar colour, gender label, and a zero-padded ID.

## How the model is built

- The record shapes of `src/api/usersApi.ts` become datatypes (`Users`).
  `address.state` is added because the state chart reads it.
- Strings are `seq<char>`.
  - `toLowerCase`/`toUpperCase` are ASCII case mapping.
  - `<` on strings is lexicographic order.
  - `includes` is "occurs at some index" (`Strings`).
- `filter` is one generic function, `Sequences.Keep`. The row filter, the
  gender filter and the age-band filter are all written with it.
- `Array.prototype.sort` with a comparator is stable. It is modelled as
  stable insertion sort over the strict weak order "the comparator is
  negative" (`Sorting`).
  - The sort is proved sorted, a permutation and stable.
  - `Sorting.SortUnique` proves that every sorted, stable rearrangement is
    the same sequence, so the choice of insertion sort is immaterial.
- A `Record<string, number>` filled by a `forEach` and read back with
  `Object.entries` is modelled two ways (`Counting`):
  - the loop `CountByKey` over a key order and a map from key to count;
  - the function `Tally`: the distinct keys in first-seen order, each with
    its number of occurrences.

  The loop is proved equal to the function. The gender cross-tab's
  `deptMap` loop is modelled the same way, with `map` updates in place
  (`GenderByDepartmentChart.BuildCrossTab`).
- The table's state is the class `UsersPage.UsersPageView`, one field per
  `useState`. Each handler is a method that states the whole new state. The
  derived rows are functions of the fields.
- Each `useMemo` body that loops is a method proved equal to a function of
  its input. The properties are lemmas about those functions.
- `Math.round(100 * m / n)` is computed exactly on integers as
  `(200 m + n) div (2 n)`. It is proved to be the nearest integer, halves
  rounded up, as `Math.round` does for non-negative values.

Where the written intent and the code differ, the model follows the code:

- **An empty page of users.** The dashboard does not fail cleanly. The mean
  age becomes `NaN`, and reading `topCountry[1]` throws a `TypeError`. The
  model returns `Thrown` for that case (`Dashboard.MetricsOf`) instead of
  ruling it out with a precondition.
- **Empty keys.** The tallies count every user, including users whose key is
  the empty string. So the counts sum to the number of users, not to the
  number of users with a non-empty key.
- **The female share.** It is `100 - malePct`. So the two shares sum to 100
  on every non-empty page, however the genders are distributed, and users
  of any other gender fall into the female share.

## Model

| member | source | states |
|---|---|---|
| Strings.Lower | src/pages/Users/UsersPage.tsx:128-133 | lower-casing keeps the length and maps each character through ASCII lower-casing, leaving no upper-case letter |
| Strings.LowerIdempotent | src/pages/Users/UsersPage.tsx:128-133 | lower-casing an already lower-cased text changes nothing |
| Strings.Upper | src/pages/Users/UserDetailDrawer.tsx:80 | upper-casing keeps the length and maps each character through ASCII upper-casing |
| Strings.Includes | src/pages/Users/UsersPage.tsx:132-133 | `includes` holds exactly when the query occurs at some index; the empty query occurs everywhere |
| Sequences.Keep | src/pages/Users/UsersPage.tsx:129-137 | `filter` keeps exactly the elements passing the test, each as often as the input holds it, no more elements than it is given |
| Sequences.KeptPositions | src/pages/Users/UsersPage.tsx:129-137 | the kept elements are the input at increasing positions, exactly the positions whose element passes |
| Sequences.KeepIdempotent | src/pages/Users/UsersPage.tsx:129-137 | filtering twice with one test is filtering once |
| Sequences.KeepCommutes | src/components/charts/AgeByGenderChart.tsx:61-65 | filtering by one test and then another equals filtering in the other order |
| Strings.LexLessIrreflexive | src/pages/Users/UsersPage.tsx:142-143 | no text is `<` itself |
| Strings.LexLessTransitive | src/pages/Users/UsersPage.tsx:142-143 | `<` on texts is transitive |
| Strings.LexLessTotal | src/pages/Users/UsersPage.tsx:142-143 | of two different texts one is `<` the other |
| Sorting.SortPermutes | src/pages/Users/UsersPage.tsx:139-145 | sorting yields the same multiset of elements |
| Sorting.SortMembers | src/pages/Users/UsersPage.tsx:139-145 | sorting neither adds nor drops an element |
| Sorting.SortSorted | src/pages/Users/UsersPage.tsx:139-145 | for a consistent comparator, no element of the result must come before an earlier one |
| Sorting.SortStable | src/pages/Users/UsersPage.tsx:139-145 | every class of elements the comparator ties keeps its input order |
| Sorting.SortKeepsTiedOrder | src/pages/Users/UsersPage.tsx:139-145 | two tied elements in the result occur in the same order in the input |
| Sorting.SortUnique | src/pages/Users/UsersPage.tsx:139-145 | any sorted and stable rearrangement of the input is the result of the sort |
| Sorting.SortKeepsSum | src/components/charts/GenderByDepartmentChart.tsx:66 | sorting keeps the sum of any per-element measure, such as counts or totals |
| Users.GenderLabel | src/pages/Users/UsersPage.tsx:41-45 | the gender chip reads "Male" exactly for `"male"`, and "Female" for every other value |
| Users.WithGender | src/pages/Dashboard/DashboardPage.tsx:55 | the `filter` on `gender`: each user of that gender as often as the page holds it, no other user, so its length is the number of such users |
| Users.GenderSplit | src/components/charts/GenderRatioChart.tsx:40-41 | the male and female counts never exceed the users, and equal them exactly when every gender is `"male"` or `"female"` |
| Counting.Count | src/pages/Dashboard/DashboardPage.tsx:60-64 | a key's count is at most the number of keys and positive exactly when the key occurs |
| Counting.Distinct | src/pages/Dashboard/DashboardPage.tsx:60-65 | the record's keys are the keys that occur, each once |
| Counting.DistinctFirstSeen | src/pages/Dashboard/DashboardPage.tsx:60-65 | `Object.entries` lists the keys in the order of their first occurrence |
| Counting.Tally | src/pages/Dashboard/DashboardPage.tsx:60-65 | one entry per distinct key; `Counting.TallySpec` proves each holds its key and its number of occurrences, in first-seen order |
| Counting.TallySpec | src/pages/Dashboard/DashboardPage.tsx:60-65 | every key that occurs has exactly one entry, entries come in first-seen order, and each count is the key's number of occurrences, at least 1 |
| Counting.TallyTotal | src/pages/Dashboard/DashboardPage.tsx:60-64 | the counts add up to the number of keys tallied |
| Counting.CountByKey | src/pages/Dashboard/DashboardPage.tsx:60-64 | the `forEach` that increments `counts[c] ?? 0` produces the first-seen tally |
| Counting.CountAboveIsStrictWeak | src/pages/Dashboard/DashboardPage.tsx:65 | the comparator `b[1] - a[1]` is a consistent order |
| Counting.SortByCount | src/pages/Dashboard/DashboardPage.tsx:65 | sorting by count keeps the number of entries; `Counting.SortByCountSpec` proves the order, the permutation and the stability |
| Counting.SortByCountSpec | src/pages/Dashboard/DashboardPage.tsx:65 | sorting by count makes the counts non-increasing, keeps the multiset and total, and keeps each group of equal counts in order |
| Counting.RankedTallySpec | src/pages/Dashboard/DashboardPage.tsx:60-65 | the sorted tally has one entry per distinct key with its count, counts non-increasing, ties in first-seen order, total the number of keys |
| Counting.RankedNamesAreKeys | src/pages/Dashboard/DashboardPage.tsx:60-65 | a name occurs in the sorted tally exactly when it is one of the keys tallied |
| Counting.RanksPrefix | src/components/charts/UsersByCountryChart.tsx:58 | the first `n` entries of a ranking are a ranking |
| Counting.TotalTake | src/components/charts/CountryDistributionChart.tsx:57-58 | the slice before `n` and the slice from `n` split the total |
| Counting.RankedHead | src/pages/Dashboard/DashboardPage.tsx:65 | for a non-empty key list, the first sorted entry is a key with the most occurrences, and the first seen among keys tied with it |
| Dashboard.RoundPercent | src/pages/Dashboard/DashboardPage.tsx:56 | a rounded share is non-negative and at most 100 for a part of the whole |
| Dashboard.RoundPercentNearest | src/pages/Dashboard/DashboardPage.tsx:56 | the rounded value `r` satisfies `r - 1/2 <= 100 m / n < r + 1/2`, so it is `Math.round` of the exact share |
| Dashboard.AverageAge | src/pages/Dashboard/DashboardPage.tsx:52 | the mean age times the number of users is the sum of the ages |
| Dashboard.ComputeMetrics | src/pages/Dashboard/DashboardPage.tsx:44-69 | the `useMemo` body with its `forEach` loop computes the metrics function |
| Dashboard.MetricsOf | src/pages/Dashboard/DashboardPage.tsx:44-69 | `null` exactly without data, a thrown `TypeError` exactly for an empty page; otherwise the reported total and two shares summing to 100 |
| Dashboard.MetricsSpec | src/pages/Dashboard/DashboardPage.tsx:44-68 | a non-empty page gives the reported total, the mean age, a male share in 0..100 whose complement is the female share, and the country with the most users (first seen among ties) with its share in 0..100 |
| CountryDistributionChart.ComputeChartData | src/components/charts/CountryDistributionChart.tsx:47-62 | the loop tally, sort, slice, reduce and `push` compute the chart function |
| CountryDistributionChart.TopWithOthers | src/components/charts/CountryDistributionChart.tsx:57-60 | the first `min(6, k)` entries are kept as they are, at most one more entry follows, and the total is unchanged |
| CountryDistributionChart.ChartData | src/components/charts/CountryDistributionChart.tsx:47-62 | no slices without data, and never more than seven slices |
| CountryDistributionChart.TopWithOthersSpec | src/components/charts/CountryDistributionChart.tsx:57-60 | folding keeps the first six entries, adds an `Others` entry with the rest exactly when there are more than six, has at most seven entries and keeps the total |
| CountryDistributionChart.FoldRanking | src/components/charts/CountryDistributionChart.tsx:56-60 | folding a ranking of one entry per state keeps its first six ranked entries and the number of users |
| CountryDistributionChart.ChartDataSpec | src/components/charts/CountryDistributionChart.tsx:50-60 | the first `min(6, k)` slices rank the states by headcount (ties first-seen), an `Others` slice holds the rest exactly when there are more than six states, at most seven slices, adding up to the users |
| CountryDistributionChart.NoSlicesWithoutUsers | src/components/charts/CountryDistributionChart.tsx:48-60 | no data, or no users, gives no slices and in particular no `Others` |
| UsersByCountryChart.ComputeChartData | src/components/charts/UsersByCountryChart.tsx:46-59 | the loop tally, sort and `slice(0, 8)` compute the chart function |
| UsersByCountryChart.ChartData | src/components/charts/UsersByCountryChart.tsx:46-59 | no bars without data, and never more than eight bars |
| UsersByCountryChart.OmittedNotAbove | src/components/charts/UsersByCountryChart.tsx:57-58 | no key cut off a ranking has more occurrences than a kept entry |
| UsersByCountryChart.ShownTotal | src/components/charts/UsersByCountryChart.tsx:58 | with positive counts, the kept total is at most the full total, and equal to it exactly when nothing is cut |
| UsersByCountryChart.ChartDataSpec | src/components/charts/UsersByCountryChart.tsx:49-58 | the bars are the first `min(8, k)` ranked countries, a ranking themselves, and no omitted country has more users than a shown one |
| UsersByCountryChart.ChartDataTotal | src/components/charts/UsersByCountryChart.tsx:49-58 | the bars add up to at most the users, exactly the users iff there are at most eight countries |
| UsersByCountryChart.NoBarsWithoutUsers | src/components/charts/UsersByCountryChart.tsx:47-58 | no data, or no users, gives no bars |
| DepartmentHeadcountChart.ComputeChartData | src/components/charts/DepartmentHeadcountChart.tsx:43-55 | the loop tally and sort compute the chart function |
| DepartmentHeadcountChart.ChartData | src/components/charts/DepartmentHeadcountChart.tsx:43-55 | no bars without data; otherwise one bar per distinct department |
| DepartmentHeadcountChart.ChartHeight | src/components/charts/DepartmentHeadcountChart.tsx:58 | the height is at least 260 and at least 34 per bar, and is one of the two |
| DepartmentHeadcountChart.ChartDataSpec | src/components/charts/DepartmentHeadcountChart.tsx:46-54 | one bar per department, none missing or repeated, ranked by headcount with ties first-seen, adding up to the users |
| DepartmentHeadcountChart.NoBarsWithoutUsers | src/components/charts/DepartmentHeadcountChart.tsx:44-58 | no data, or no users, gives no bars and the floor height |
| GenderByDepartmentChart.SplitHeadcount | src/components/charts/GenderByDepartmentChart.tsx:57-62 | a department's male and female columns add up to its headcount |
| GenderByDepartmentChart.CrossTab | src/components/charts/GenderByDepartmentChart.tsx:56-65 | one row per distinct department; `GenderByDepartmentChart.CrossTabSpec` proves its columns and order |
| GenderByDepartmentChart.VisitUser | src/components/charts/GenderByDepartmentChart.tsx:58-61 | the `forEach` callback creates the department's entry if missing and increments the column for the user's gender |
| GenderByDepartmentChart.DeptMapSpec | src/components/charts/GenderByDepartmentChart.tsx:56-62 | `deptMap` has a key exactly per department, holding its male count and its count of every other gender |
| GenderByDepartmentChart.VisitStep | src/components/charts/GenderByDepartmentChart.tsx:57-62 | visiting one more user appends its department to the insertion order exactly when it is new, and updates the map as the callback does |
| GenderByDepartmentChart.BuildCrossTab | src/components/charts/GenderByDepartmentChart.tsx:56-65 | the loop and the `entries`/`map` produce the cross-tab function |
| GenderByDepartmentChart.RowsOf | src/components/charts/GenderByDepartmentChart.tsx:64-65 | reading the finished map in insertion order gives the cross-tab |
| GenderByDepartmentChart.ComputeChartData | src/components/charts/GenderByDepartmentChart.tsx:53-67 | the `useMemo` body computes the chart function |
| GenderByDepartmentChart.ChartData | src/components/charts/GenderByDepartmentChart.tsx:53-67 | no rows without data; otherwise one row per distinct department |
| GenderByDepartmentChart.ChartHeight | src/components/charts/GenderByDepartmentChart.tsx:69 | the height is at least 260 and at least 34 per row, and is one of the two |
| GenderByDepartmentChart.TotalAboveIsStrictWeak | src/components/charts/GenderByDepartmentChart.tsx:66 | the comparator `b.total - a.total` is a consistent order |
| GenderByDepartmentChart.SortKeepsTotal | src/components/charts/GenderByDepartmentChart.tsx:66 | sorting the rows keeps the sum of their totals |
| GenderByDepartmentChart.CrossTabSpec | src/components/charts/GenderByDepartmentChart.tsx:56-65 | one row per distinct department in first-seen order, each with its two columns and their sum, its headcount of at least 1; the totals add up to the users |
| GenderByDepartmentChart.ChartDataSpec | src/components/charts/GenderByDepartmentChart.tsx:53-67 | one row per department, none missing or repeated, totals non-increasing, equal totals in first-seen order |
| GenderByDepartmentChart.ChartDataRows | src/components/charts/GenderByDepartmentChart.tsx:56-66 | each row holds its department's male column, its column of every other gender and their sum, its headcount; the totals add up to the users |
| GenderByDepartmentChart.SortedRowsDepts | src/components/charts/GenderByDepartmentChart.tsx:64-66 | sorting rows with distinct departments keeps every department once |
| GenderByDepartmentChart.SortedRowsOrder | src/components/charts/GenderByDepartmentChart.tsx:66 | sorted rows have non-increasing totals, and rows of equal total keep first-seen department order |
| GenderByDepartmentChart.NoRowsWithoutUsers | src/components/charts/GenderByDepartmentChart.tsx:54-69 | no data, or no users, gives no rows and the floor height |
| AgeBuckets.WithAge | src/components/charts/AgeDistributionChart.tsx:59 | the `filter` on the inclusive age range: each user whose age lies in it as often as the page holds it, no other user |
| AgeBuckets.BucketsTile | src/components/charts/AgeDistributionChart.tsx:17-25 | seven bands, from 0 to 999, each non-empty, each starting one after the previous ends |
| AgeBuckets.BucketsPartition | src/components/charts/AgeByGenderChart.tsx:18-26 | an age lies in some band iff it lies in 0..999, and never in two |
| AgeBuckets.BucketSumInRange | src/components/charts/AgeDistributionChart.tsx:17-25 | the band counts together count exactly the users aged 0 to 999 |
| AgeDistributionChart.ChartDataSpec | src/components/charts/AgeDistributionChart.tsx:55-61 | seven bars in band order with their labels, each counting the users in its band; together every user aged 0 to 999 once, so all users when every age is in range |
| AgeDistributionChart.TotalOfBars | src/components/charts/AgeDistributionChart.tsx:57-60 | the first `n` bars add up to the users counted in the first `n` bands |
| AgeDistributionChart.ChartData | src/components/charts/AgeDistributionChart.tsx:55-61 | no bars without data; otherwise seven bars, labelled with the bands in order |
| AgeDistributionChart.BarsTotal | src/components/charts/AgeDistributionChart.tsx:55-61 | the bars add up to the users aged 0 to 999, so to all users when every age is in that range |
| AgeDistributionChart.EmptyCharts | src/components/charts/AgeDistributionChart.tsx:56-60 | no data gives no bars; no users gives seven zero bars |
| AgeByGenderChart.FiltersCommute | src/components/charts/AgeByGenderChart.tsx:61-65 | filtering by age then gender equals filtering by gender then age |
| AgeByGenderChart.ChartData | src/components/charts/AgeByGenderChart.tsx:57-68 | no rows without data; otherwise one row per band |
| AgeByGenderChart.ColumnTotals | src/components/charts/AgeByGenderChart.tsx:60-67 | down the rows, the male column counts the `"male"` users band by band, the female column the `"female"` users |
| AgeByGenderChart.ChartDataSpec | src/components/charts/AgeByGenderChart.tsx:57-68 | seven labelled rows in band order; each counts the band's `"male"` and `"female"` users, at most the band, exactly the band iff no other gender occurs; the columns total the male and female users aged 0 to 999 |
| AgeByGenderChart.EmptyCharts | src/components/charts/AgeByGenderChart.tsx:58-67 | no data gives no rows; no users gives seven rows of zeros |
| GenderRatioChart.ChartDataSpec | src/components/charts/GenderRatioChart.tsx:38-46 | exactly the slices Male then Female, counting each gender; at most the users, exactly the users iff every gender is one of the two |
| GenderRatioChart.ChartData | src/components/charts/GenderRatioChart.tsx:38-46 | no slices without data; otherwise the slices Male then Female |
| GenderRatioChart.EmptyCharts | src/components/charts/GenderRatioChart.tsx:39-45 | no data gives no slices; no users gives two zero slices |
| UserDetail.NameInitials | src/pages/Users/UserDetailDrawer.tsx:79-81 | for non-empty names, the two upper-cased first letters; an empty first name writes out `UNDEFINED` |
| UserDetail.Initials | src/pages/Users/UserDetailDrawer.tsx:79-81 | no initials without a user, at least two characters with one |
| UserDetail.DrawerOpen | src/pages/Users/UserDetailDrawer.tsx:90 | the drawer is open exactly when there are initials to show, that is when a user is selected |
| UserDetail.InitialsSpec | src/pages/Users/UserDetailDrawer.tsx:79-90 | the initials are non-empty exactly when the drawer is open, and are the two upper-cased first letters for non-empty names |
| UserDetail.AvatarColor | src/pages/Users/UserDetailDrawer.tsx:82-84 | the colour of the selected user's concatenated names, or `#6366f1` without a user |
| UserDetail.GenderText | src/pages/Users/UserDetailDrawer.tsx:165 | the label is "Male" exactly for a user whose gender is `"male"`, otherwise "Female", the same as the table's chip |
| UserDetail.OtherGendersReadFemale | src/pages/Users/UserDetailDrawer.tsx:226 | every other gender, and no user, reads "Female" |
| UserDetail.Digits | src/pages/Users/UserDetailDrawer.tsx:258 | `String(n)` is a non-empty string of digits without a leading zero, one digit exactly below 10 |
| UserDetail.DigitsRoundTrip | src/pages/Users/UserDetailDrawer.tsx:258 | reading back the digits of `n` gives `n` |
| UserDetail.DigitsLength | src/pages/Users/UserDetailDrawer.tsx:258 | a number has at least four digits exactly when it is at least 1000 |
| UserDetail.PadStart | src/pages/Users/UserDetailDrawer.tsx:258 | the padded text is `max(len, |s|)` long, ends with `s`, and is padded in front with the pad character |
| UserDetail.StripZerosPadding | src/pages/Users/UserDetailDrawer.tsx:258 | stripping the leading zeros of zero padding before a text not starting with `0` gives the text back |
| UserDetail.IdText | src/pages/Users/UserDetailDrawer.tsx:258 | `#` followed by at least four characters, `max(4, digits)` of them |
| UserDetail.IdTextSpec | src/pages/Users/UserDetailDrawer.tsx:258 | `#` and the decimal id padded to at least four characters; four or more digits are unpadded; for a positive id the padding strips off to digits that read back as the id |
| UsersPage.GetValue | src/pages/Users/UsersPage.tsx:117-124 | the age column sorts by the age as a number, every other column by lower-case text |
| UsersPage.Compare | src/pages/Users/UsersPage.tsx:139-145 | the comparator returns -1, 0 or 1, and 0 exactly when the two sort values are equal |
| UsersPage.CompareSpec | src/pages/Users/UsersPage.tsx:139-145 | the comparator is antisymmetric, returns 0 exactly for equal sort values, and puts the smaller value first ascending, the larger descending |
| UsersPage.RowOrderIsStrictWeak | src/pages/Users/UsersPage.tsx:139-145 | every column order, either direction, is a consistent comparator |
| UsersPage.SortUsers | src/pages/Users/UsersPage.tsx:139-145 | the result rearranges the users, is sorted by the column in the direction, and keeps users with equal values in input order |
| UsersPage.SortUsersSpec | src/pages/Users/UsersPage.tsx:139-145 | sorting rearranges the users, leaves values non-decreasing ascending and non-increasing descending, and keeps users with equal values in input order |
| UsersPage.DescendingIsNotReversedAscending | src/pages/Users/UsersPage.tsx:139-145 | two users of equal age keep input order in both directions, so descending is not ascending reversed |
| UsersPage.Matches | src/pages/Users/UsersPage.tsx:129-136 | a user passes exactly when the lower-cased search is empty or occurs in the lower-cased full name or e-mail, and each filter is empty or equal to the user's field |
| UsersPage.FilterUsers | src/pages/Users/UsersPage.tsx:129-137 | the filtered users are exactly the users that match, each as often as the page holds it |
| UsersPage.FilterKeepsOrder | src/pages/Users/UsersPage.tsx:129-137 | the filtered users are the page's users at increasing positions, exactly the matching positions |
| UsersPage.FilterIdempotent | src/pages/Users/UsersPage.tsx:128-137 | filtering the filtered users again changes nothing |
| UsersPage.NoFiltersKeepEveryone | src/pages/Users/UsersPage.tsx:130-136 | with the search and both filters empty every user is kept, in order |
| UsersPage.Paginate | src/pages/Users/UsersPage.tsx:150-157 | a page holds `min(rpp, max(0, n - page * rpp))` rows, the rows from `page * rpp` on |
| UsersPage.PagePastEnd | src/pages/Users/UsersPage.tsx:152-155 | a page starting at or past the end is empty, not an error |
| UsersPage.PageMembers | src/pages/Users/UsersPage.tsx:152-155 | every row of a page is a row of the list |
| UsersPage.PageOfMatches | src/pages/Users/UsersPage.tsx:150-157 | a page of a rearrangement of the matches holds `min(rpp, max(0, m - page * rpp))` rows, each a matching user |
| UsersPage.PagesTile | src/pages/Users/UsersPage.tsx:150-157 | the first `k` pages in turn are the first `k * rpp` rows |
| UsersPage.AllPagesShowEveryRow | src/pages/Users/UsersPage.tsx:150-157 | with at least one row per page, the pages together show every row once, in order |
| UsersPage.DepartmentOptions | src/pages/Users/UsersPage.tsx:111-115 | no options without data; otherwise exactly the departments of the page |
| UsersPage.DepartmentOptionsSpec | src/pages/Users/UsersPage.tsx:111-115 | the department menu lists every department of the page once, in strictly ascending order |
| UsersPage.RowAvatar | src/pages/Users/UsersPage.tsx:394-399 | a table row shows the initials and colour the drawer shows once that user is selected |
| UsersPage.UsersPageView.constructor | src/pages/Users/UsersPage.tsx:102-109 | no search or filters, sorted by name ascending, first page of ten rows, no user selected |
| UsersPage.UsersPageView.HasFilters | src/pages/Users/UsersPage.tsx:174 | without a search or filter every user matches |
| UsersPage.UsersPageView.FilteredAndSorted | src/pages/Users/UsersPage.tsx:126-148 | nothing without data; otherwise a rearrangement of the matching users, sorted by the current column and direction, with users of equal value in their filtered order; all users without filters |
| UsersPage.UsersPageView.Paginated | src/pages/Users/UsersPage.tsx:150-157 | the slice of the filtered and sorted rows from `page * rpp`, `min(rpp, max(0, m - page * rpp))` rows for `m` matches, each a matching user of the page |
| UsersPage.UsersPageView.HandleSort | src/pages/Users/UsersPage.tsx:159-167 | the active column flips direction, another column becomes active ascending; back to page 0; filters, page size and selection unchanged |
| UsersPage.UsersPageView.HandleSearchChange | src/pages/Users/UsersPage.tsx:169-172 | the new search, back to page 0, everything else unchanged |
| UsersPage.UsersPageView.SetGenderFilter | src/pages/Users/UsersPage.tsx:269-272 | the new gender filter, back to page 0, everything else unchanged |
| UsersPage.UsersPageView.SetDeptFilter | src/pages/Users/UsersPage.tsx:286-289 | the new department filter, back to page 0, everything else unchanged |
| UsersPage.UsersPageView.ClearFilters | src/pages/Users/UsersPage.tsx:305-310 | search and both filters emptied so nothing filters, back to page 0, sort, page size and selection unchanged |
| UsersPage.UsersPageView.SetPage | src/pages/Users/UsersPage.tsx:540 | the new page, everything else unchanged |
| UsersPage.UsersPageView.SetRowsPerPage | src/pages/Users/UsersPage.tsx:542-545 | the new page size, back to page 0, everything else unchanged |
| UsersPage.UsersPageView.SelectUser | src/pages/Users/UsersPage.tsx:404 | the clicked user is selected and the drawer opens; the table state is unchanged |
| UsersPage.UsersPageView.CloseDrawer | src/pages/Users/UsersPage.tsx:566 | no user selected and the drawer closed; the table state is unchanged |

## Left out

- Rendering is not modelled: JSX, MUI and recharts components, styling, and
  the skeletons and cards.
- The network fetch (RTK Query against the remote API) is not modelled. A
  page of data is a parameter, `Option<UsersResponse>`, with `None` for
  "not loaded".
- React's `useMemo` caching, re-render timing and `setState` batching are not
  modelled. Each handler is one atomic transition, and each derived value is
  a function of the current state.
- Floating point is not modelled.
  - `Math.round` of a float product is modelled as exact rational rounding.
    The two can differ where the float lands just beside a true half.
  - The mean age is an exact `real`.
  - `toFixed` and `toLocaleString` formatting are left out.
- Strings are sequences of characters. JavaScript compares and sorts UTF-16
  code units, and the two orders differ only outside the Basic Multilingual
  Plane.
- Case mapping is ASCII only. Unicode case mapping of other letters is not
  modelled.
- `getAvatarColor` is not part of this model. It lives in a helper module
  that is not shown, so it is a parameter of `UserDetail.AvatarColor`.
- UsersPage.UsersPageView.SetRowsPerPage: takes the page size as a number.
  `parseInt` of the select's text is not modelled, and neither is a text
  that does not parse.
- `TablePagination`'s own clamping of the page index is library behaviour
  and is not modelled. The model's page can lie past the end, and then the
  slice is empty.
- UsersPage.ValueLess: orders a number before a text. One column never
  mixes the two, so the order JavaScript's `<` would give there is not
  modelled.
- Object keys are modelled as a map with insertion order. Three behaviours
  of a plain JavaScript object are not modelled:
  - array-index-like keys (such as `"42"`) are listed first, in numeric
    order;
  - `"__proto__"` is treated specially;
  - names inherited from `Object.prototype` (`constructor`, `toString`,
    `valueOf`, `hasOwnProperty` and others) are found before they are set.
    A department named `constructor` finds the truthy `Object` function. So
    the cross-tab skips that department's initialisation, increments
    `male`/`female` on the function itself, and `Object.entries` never lists
    that department. In the tallies, `(counts[c] ?? 0) + 1` turns such a key
    into a text, not a count.
  The model's `Tally` and `CrossTab` count such keys like any other.
  Department, country and state names are not such keys.
- The drawer's remaining text (age in years, e-mail, phone, address and
  company lines) is direct field display and is not modelled.
- The user growth chart is a constant table and is not modelled.
- Sign-in, routing, theme and layout are not modelled.
