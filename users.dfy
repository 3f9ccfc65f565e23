/**
 * The record shapes returned by the users endpoint (src/api/usersApi.ts),
 * with `address.state`, which the state chart reads, and the per-field
 * projections the charts tally over.
 */
module Users {
  import opened Sequences

  datatype Address = Address(country: string, state: string)

  datatype Company = Company(department: string)

  datatype User = User(
    id: int,
    firstName: string,
    lastName: string,
    email: string,
    age: int,
    gender: string,
    address: Address,
    company: Company)

  /** One page of the remote dataset; `total` is the size of the whole dataset. */
  datatype UsersResponse = UsersResponse(users: seq<User>, total: int, skip: int, limit: int)

  datatype Option<T> = None | Some(value: T)

  predicate IsMale(u: User) { u.gender == "male" }

  /** The gender chip text: "Male" for `"male"`, "Female" for every other value. */
  function GenderLabel(gender: string): (r: string)
    ensures r == "Male" || r == "Female"
    ensures r == "Male" <==> gender == "male"
  {
    if gender == "male" then "Male" else "Female"
  }

  function Genders(users: seq<User>): (r: seq<string>)
    ensures |r| == |users|
    ensures forall i :: 0 <= i < |users| ==> r[i] == users[i].gender
  {
    seq(|users|, i requires 0 <= i < |users| => users[i].gender)
  }

  function Countries(users: seq<User>): (r: seq<string>)
    ensures |r| == |users|
    ensures forall i :: 0 <= i < |users| ==> r[i] == users[i].address.country
  {
    seq(|users|, i requires 0 <= i < |users| => users[i].address.country)
  }

  function States(users: seq<User>): (r: seq<string>)
    ensures |r| == |users|
    ensures forall i :: 0 <= i < |users| ==> r[i] == users[i].address.state
  {
    seq(|users|, i requires 0 <= i < |users| => users[i].address.state)
  }

  function Departments(users: seq<User>): (r: seq<string>)
    ensures |r| == |users|
    ensures forall i :: 0 <= i < |users| ==> r[i] == users[i].company.department
  {
    seq(|users|, i requires 0 <= i < |users| => users[i].company.department)
  }

  /** The `filter` test `(u) => u.gender === g`. */
  function HasGender(g: string): User -> bool
  {
    (u: User) => u.gender == g
  }

  /**
   * `users.filter((u) => u.gender === g)`: every user of that gender as often
   * as on the page, in page order (`Keep`), and no other user.
   */
  function WithGender(users: seq<User>, g: string): (r: seq<User>)
    ensures |r| <= |users|
    ensures forall u :: u in r <==> u in users && u.gender == g
    ensures forall u :: multiset(r)[u] == if u.gender == g then multiset(users)[u] else 0
  {
    Keep(users, HasGender(g))
  }

  /**
   * Filtering for `"male"` and for `"female"` separately never counts a user
   * twice, and misses a user exactly when some gender is neither.
   */
  lemma {:induction false} GenderSplit(users: seq<User>)
    ensures |WithGender(users, "male")| + |WithGender(users, "female")| <= |users|
    ensures |WithGender(users, "male")| + |WithGender(users, "female")| == |users| <==>
      forall u :: u in users ==> u.gender == "male" || u.gender == "female"
  {
    if users != [] {
      var front, u := users[..|users| - 1], users[|users| - 1];
      assert users == front + [u];
      GenderSplit(front);
      KeepSnoc(front, u, HasGender("male"));
      KeepSnoc(front, u, HasGender("female"));
      if !(u.gender == "male" || u.gender == "female") {
        assert |WithGender(users, "male")| + |WithGender(users, "female")| < |users|;
      }
    }
  }
}
