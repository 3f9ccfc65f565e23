/**
 * The text the user detail drawer (src/pages/Users/UserDetailDrawer.tsx)
 * derives from the selected user: the avatar initials and colour, the gender
 * label, whether the drawer is open, and the zero-padded user ID.
 */
module UserDetail {
  import opened Sequences
  import opened Strings
  import opened Users

  /**
   * `${s[0]}`: the first character as text. Indexing an empty string yields
   * `undefined`, which a template literal writes out as the word.
   */
  function FirstCharText(s: string): string
  {
    if |s| > 0 then [s[0]] else "undefined"
  }

  /** `${firstName[0]}${lastName[0]}`.toUpperCase(), shared by the table rows and the drawer. */
  function NameInitials(u: User): (r: string)
    ensures |r| >= 2
    ensures |u.firstName| > 0 && |u.lastName| > 0 ==>
      r == [UpperChar(u.firstName[0]), UpperChar(u.lastName[0])]
    ensures u.firstName == "" ==> |r| >= 10 && r[..9] == "UNDEFINED"
  {
    Upper(FirstCharText(u.firstName) + FirstCharText(u.lastName))
  }

  /** The drawer's `initials`: empty without a user, at least two characters with one. */
  function Initials(user: Option<User>): (r: string)
    ensures user.None? ==> r == ""
    ensures user.Some? ==> |r| >= 2
  {
    match user
    case None => ""
    case Some(u) => NameInitials(u)
  }

  /** `open={!!user}`: the drawer is open exactly when it has initials to show. */
  predicate DrawerOpen(user: Option<User>)
    ensures DrawerOpen(user) <==> Initials(user) != ""
  {
    user.Some?
  }

  /**
   * The drawer shows initials exactly when it is open, and for a user with
   * non-empty names they are the two upper-cased first letters.
   */
  lemma InitialsSpec(user: Option<User>)
    ensures Initials(user) != "" <==> DrawerOpen(user)
    ensures user.Some? && |user.value.firstName| > 0 && |user.value.lastName| > 0 ==>
      Initials(user) == [UpperChar(user.value.firstName[0]), UpperChar(user.value.lastName[0])]
  {
  }

  /**
   * `avatarColor`: the colour `getAvatarColor` assigns to the concatenated
   * names, or the fallback indigo without a user. `getAvatarColor` is not
   * part of this model and is passed in.
   */
  function AvatarColor(user: Option<User>, getAvatarColor: string -> string): (r: string)
    ensures !DrawerOpen(user) ==> r == "#6366f1"
    ensures DrawerOpen(user) ==> r == getAvatarColor(user.value.firstName + user.value.lastName)
  {
    match user
    case None => "#6366f1"
    case Some(u) => getAvatarColor(u.firstName + u.lastName)
  }

  /** `user?.gender === "male"`: false without a user. */
  predicate IsMaleUser(user: Option<User>)
  {
    user.Some? && IsMale(user.value)
  }

  /** The chip label and the Gender row: "Male" or "Female". */
  function GenderText(user: Option<User>): (r: string)
    ensures r == "Male" || r == "Female"
    ensures r == "Male" <==> user.Some? && user.value.gender == "male"
    ensures user.Some? ==> r == GenderLabel(user.value.gender)
  {
    if IsMaleUser(user) then "Male" else "Female"
  }

  /** Every gender other than `"male"`, and the missing user, read "Female". */
  lemma OtherGendersReadFemale(user: Option<User>)
    requires user.None? || user.value.gender != "male"
    ensures GenderText(user) == "Female"
  {
  }

  // Decimal text of integers, `String(n)`.

  predicate IsDigit(c: char) { '0' <= c <= '9' }

  function DigitChar(d: nat): (c: char)
    requires d < 10
    ensures IsDigit(c)
  {
    ('0' as int + d) as char
  }

  function DigitValue(c: char): nat
    requires IsDigit(c)
  {
    c as int - '0' as int
  }

  /** The decimal digits of `n`, without leading zeros. */
  function Digits(n: nat): (r: string)
    ensures |r| >= 1
    ensures forall i :: 0 <= i < |r| ==> IsDigit(r[i])
    ensures n > 0 ==> r[0] != '0'
    ensures n < 10 <==> |r| == 1
  {
    if n < 10 then [DigitChar(n)] else Digits(n / 10) + [DigitChar(n % 10)]
  }

  /** The number a string of decimal digits denotes. */
  function DigitsValue(s: string): nat
    requires forall i :: 0 <= i < |s| ==> IsDigit(s[i])
  {
    if s == [] then 0 else 10 * DigitsValue(s[..|s| - 1]) + DigitValue(s[|s| - 1])
  }

  /** Reading the digits of `n` back gives `n`. */
  lemma {:induction false} DigitsRoundTrip(n: nat)
    ensures DigitsValue(Digits(n)) == n
  {
    if n >= 10 {
      DigitsRoundTrip(n / 10);
      var s := Digits(n);
      assert s[..|s| - 1] == Digits(n / 10);
    }
  }

  /** A number has at least four digits exactly when it is at least 1000. */
  lemma {:induction false} DigitsLength(n: nat)
    ensures |Digits(n)| >= 4 <==> n >= 1000
  {
    if n >= 10 {
      DigitsLength(n / 10);
      if n < 100 {
        assert |Digits(n / 10)| == 1;
      } else if n < 1000 {
        assert n / 10 < 100;
        DigitsShort(n / 10);
      }
    }
  }

  lemma DigitsShort(n: nat)
    requires n < 100
    ensures |Digits(n)| <= 2
  {
    if n >= 10 {
      assert n / 10 < 10;
    }
  }

  /** `String(n)` for an integer: a minus sign before the digits of a negative number. */
  function DecimalString(n: int): string
  {
    if n < 0 then "-" + Digits(-n) else Digits(n)
  }

  function Repeat(c: char, k: nat): (r: string)
    ensures |r| == k
    ensures forall i :: 0 <= i < k ==> r[i] == c
  {
    if k == 0 then [] else Repeat(c, k - 1) + [c]
  }

  /**
   * `s.padStart(len, c)` with a one-character pad: `s` unchanged when it is
   * already `len` long, otherwise `c` repeated in front up to length `len`.
   */
  function PadStart(s: string, len: nat, c: char): (r: string)
    ensures |r| == Max(len, |s|)
    ensures r[|r| - |s|..] == s
    ensures forall i :: 0 <= i < |r| - |s| ==> r[i] == c
  {
    if |s| >= len then s else Repeat(c, len - |s|) + s
  }

  /** The leading `'0'` characters removed. */
  function StripZeros(s: string): (r: string)
    ensures |r| <= |s|
    ensures r == [] || r[0] != '0'
  {
    if |s| > 0 && s[0] == '0' then StripZeros(s[1..]) else s
  }

  lemma {:induction false} StripZerosPadding(k: nat, s: string)
    requires s == [] || s[0] != '0'
    ensures StripZeros(Repeat('0', k) + s) == s
  {
    if k > 0 {
      assert (Repeat('0', k) + s)[1..] == Repeat('0', k - 1) + s by {
        assert Repeat('0', k) == [ '0' ] + Repeat('0', k - 1) by {
          RepeatFront('0', k);
        }
      }
      StripZerosPadding(k - 1, s);
    }
  }

  lemma {:induction false} RepeatFront(c: char, k: nat)
    requires k > 0
    ensures Repeat(c, k) == [c] + Repeat(c, k - 1)
  {
    if k > 1 {
      RepeatFront(c, k - 1);
    }
  }

  /** `#{String(user.id).padStart(4, "0")}`: `#`, then at least four characters. */
  function IdText(id: int): (r: string)
    ensures |r| == 1 + Max(4, |DecimalString(id)|)
    ensures r[0] == '#'
  {
    "#" + PadStart(DecimalString(id), 4, '0')
  }

  /**
   * The ID text is `#` and the decimal ID padded with zeros to at least four
   * characters; an ID of four or more digits is not padded; for a positive ID
   * the padding strips off to give back the digits, which read back as the ID.
   */
  lemma IdTextSpec(id: int)
    ensures |IdText(id)| == 1 + Max(4, |DecimalString(id)|)
    ensures IdText(id)[0] == '#'
    ensures id >= 1000 ==> IdText(id) == "#" + Digits(id)
    ensures id > 0 ==> StripZeros(IdText(id)[1..]) == Digits(id)
    ensures id > 0 ==> DigitsValue(StripZeros(IdText(id)[1..])) == id
  {
    var s := DecimalString(id);
    assert IdText(id)[1..] == PadStart(s, 4, '0');
    if id >= 1000 {
      DigitsLength(id);
    }
    if id > 0 {
      var p := PadStart(s, 4, '0');
      if |s| < 4 {
        StripZerosPadding(4 - |s|, s);
      } else {
        assert p == s;
      }
      DigitsRoundTrip(id);
    }
  }
}
