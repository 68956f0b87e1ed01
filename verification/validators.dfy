/**
  The form validators of the site's utility script (`validators.email`,
  `.phone`, `.required`, `.minLength`, `.maxLength`).  The two regular
  expressions are written out as string predicates; each comes with the
  shape the expression describes, stated independently, and a proof that
  the two agree.
 */
module Validators {
  import opened Common

  /** `[^\s@]`: neither white space nor `@`. */
  predicate Plain(c: char)
  {
    !IsSpace(c) && c != '@'
  }

  predicate AllPlain(s: string)
  {
    forall k :: 0 <= k < |s| ==> Plain(s[k])
  }

  /** The first position of `c` in `s`. */
  function Find(s: string, c: char): (r: Option<nat>)
    ensures r.None? <==> c !in s
    ensures r.Some? ==> r.value < |s| && s[r.value] == c && c !in s[..r.value]
  {
    if |s| == 0 then None
    else if s[0] == c then Some(0)
    else
      match Find(s[1..], c)
      case None => None
      case Some(i) =>
        assert s[..i + 1] == [s[0]] + s[1..][..i];
        Some(i + 1)
  }

  /** `/^[^\s@]+@[^\s@]+\.[^\s@]+$/` read as a pattern: a non-empty local
      part, `@`, a non-empty middle, `.`, a non-empty last part, none of the
      three holding white space or `@` (the middle and last parts may hold
      dots). */
  predicate EmailShape(s: string)
  {
    exists i, j :: 0 < i && i + 1 < j < |s| - 1 && s[i] == '@' && s[j] == '.' &&
      AllPlain(s[..i]) && AllPlain(s[i + 1..j]) && AllPlain(s[j + 1..])
  }

  /** The part after the `@`: plain characters with a dot that has
      something on both sides. */
  predicate DomainOk(d: string)
  {
    AllPlain(d) && |d| >= 3 && '.' in d[1..|d| - 1]
  }

  /** `validators.email`: split at the first `@`, then look for a dot with
      something on both sides in the remainder. */
  function IsEmail(s: string): (ok: bool)
    ensures ok <==> EmailShape(s)
  {
    match Find(s, '@')
    case None =>
      NoAtNoShape(s);
      false
    case Some(i) =>
      ShapeAtFirstAt(s, i);
      0 < i && AllPlain(s[..i]) && DomainOk(s[i + 1..])
  }

  lemma NoAtNoShape(s: string)
    requires '@' !in s
    ensures !EmailShape(s)
  {
  }

  /** The pattern can only use the first `@`, since the local part holds none. */
  lemma ShapeAtFirstAt(s: string, i: nat)
    requires i < |s| && s[i] == '@' && '@' !in s[..i]
    ensures EmailShape(s) <==> 0 < i && AllPlain(s[..i]) && DomainOk(s[i + 1..])
  {
    if 0 < i && AllPlain(s[..i]) && DomainOk(s[i + 1..]) {
      ShapeFromDomain(s, i);
    }
    if EmailShape(s) {
      var i', j' :| 0 < i' && i' + 1 < j' < |s| - 1 && s[i'] == '@' && s[j'] == '.' &&
        AllPlain(s[..i']) && AllPlain(s[i' + 1..j']) && AllPlain(s[j' + 1..]);
      DomainFromShape(s, i, i', j');
    }
  }

  lemma ShapeFromDomain(s: string, i: nat)
    requires 0 < i < |s| && s[i] == '@' && AllPlain(s[..i]) && DomainOk(s[i + 1..])
    ensures EmailShape(s)
  {
    var d := s[i + 1..];
    var m :| 0 <= m < |d| - 2 && d[1..|d| - 1][m] == '.';
    var j := i + 2 + m;
    assert s[j] == '.';
    assert s[i + 1..j] == d[..m + 1];
    assert s[j + 1..] == d[m + 2..];
  }

  lemma DomainFromShape(s: string, i: nat, i': nat, j': nat)
    requires i < |s| && s[i] == '@' && '@' !in s[..i]
    requires 0 < i' && i' + 1 < j' < |s| - 1 && s[i'] == '@' && s[j'] == '.'
    requires AllPlain(s[..i']) && AllPlain(s[i' + 1..j']) && AllPlain(s[j' + 1..])
    ensures 0 < i && AllPlain(s[..i]) && DomainOk(s[i + 1..])
  {
    AtOnlyAt(s, i', j', i);
    var d := s[i + 1..];
    assert d == s[i + 1..j'] + [s[j']] + s[j' + 1..];
    assert d[1..|d| - 1][j' - i - 2] == '.';
  }

  /** An accepted address holds exactly one `@`. */
  lemma EmailHasOneAt(s: string, k1: nat, k2: nat)
    requires IsEmail(s)
    requires k1 < |s| && k2 < |s| && s[k1] == '@' && s[k2] == '@'
    ensures k1 == k2
  {
    var i, j :| 0 < i && i + 1 < j < |s| - 1 && s[i] == '@' && s[j] == '.' &&
      AllPlain(s[..i]) && AllPlain(s[i + 1..j]) && AllPlain(s[j + 1..]);
    AtOnlyAt(s, i, j, k1);
    AtOnlyAt(s, i, j, k2);
  }

  lemma AtOnlyAt(s: string, i: nat, j: nat, k: nat)
    requires 0 < i && i + 1 < j < |s| - 1 && s[j] == '.'
    requires AllPlain(s[..i]) && AllPlain(s[i + 1..j]) && AllPlain(s[j + 1..])
    requires k < |s| && s[k] == '@'
    ensures k == i
  {
  }

  /** Consecutive dots before the `@` are accepted: the pattern only
      excludes white space and `@`. */
  lemma DoubleDotLocalPartAccepted()
    ensures IsEmail("test..test@example.com")
  {
    var s := "test..test@example.com";
    assert s[10] == '@' && s[18] == '.';
    assert AllPlain(s[..10]) && AllPlain(s[11..18]) && AllPlain(s[19..]);
  }

  /** An address whose part after the `@` has no dot is rejected. */
  lemma NoDotAfterAtRejected(s: string, i: nat)
    requires i < |s| && s[i] == '@' && '.' !in s[i + 1..]
    ensures !IsEmail(s)
  {
    if IsEmail(s) {
      var i', j' :| 0 < i' && i' + 1 < j' < |s| - 1 && s[i'] == '@' && s[j'] == '.' &&
        AllPlain(s[..i']) && AllPlain(s[i' + 1..j']) && AllPlain(s[j' + 1..]);
      AtOnlyAt(s, i', j', i);
    }
  }

  lemma MissingLocalPartRejected()
    ensures !IsEmail("@example.com")
  {
    assert Find("@example.com", '@') == Some(0);
  }

  /** White space before an `@` makes an address invalid. */
  lemma SpaceBeforeAtRejected(s: string, k: nat, i: nat)
    requires k < i < |s| && s[i] == '@' && IsSpace(s[k])
    ensures !IsEmail(s)
  {
    assert s[i] in s;
    var f := Find(s, '@').value;
    if k < f {
      assert s[..f][k] == s[k];
    } else {
      assert s[f + 1..][k - f - 1] == s[k];
    }
  }

  lemma SpaceInAddressRejected()
    ensures !IsEmail("te st@example.com")
  {
    var s := "te st@example.com";
    assert s[2] == ' ' && s[5] == '@';
    SpaceBeforeAtRejected(s, 2, 5);
  }

  /** `s.replace(/\s/g, '')`. */
  function RemoveSpaces(s: string): (r: string)
    ensures NoSpace(r)
    ensures |r| <= |s|
    ensures NoSpace(s) ==> r == s
    decreases |s|
  {
    if |s| == 0 then ""
    else if IsSpace(s[|s| - 1]) then RemoveSpaces(s[..|s| - 1])
    else
      var r := RemoveSpaces(s[..|s| - 1]) + [s[|s| - 1]];
      assert NoSpace(s) ==> s == s[..|s| - 1] + [s[|s| - 1]];
      r
  }

  lemma {:induction false} RemoveSpacesAppend(a: string, b: string)
    ensures RemoveSpaces(a + b) == RemoveSpaces(a) + RemoveSpaces(b)
    decreases |b|
  {
    if |b| == 0 {
      assert a + b == a;
    } else {
      assert (a + b)[..|a + b| - 1] == a + b[..|b| - 1];
      RemoveSpacesAppend(a, b[..|b| - 1]);
    }
  }

  /** White space anywhere in a phone number is ignored. */
  lemma SpaceIgnored(a: string, c: char, b: string)
    requires IsSpace(c)
    ensures IsPhone(a + [c] + b) == IsPhone(a + b)
  {
    RemoveSpacesAppend(a + [c], b);
    RemoveSpacesAppend(a, [c]);
    RemoveSpacesAppend(a, b);
    assert RemoveSpaces([c]) == "";
  }

  predicate AllAsciiDigits(s: string)
  {
    forall k :: 0 <= k < |s| ==> IsDigit(s[k])
  }

  /** `/^[+]?[1-9][\d]{0,15}$/` read as a pattern, over `t` with white
      space already removed. */
  predicate PhoneShape(t: string)
  {
    || PhoneDigits(t)
    || (|t| >= 1 && t[0] == '+' && PhoneDigits(t[1..]))
  }

  /** `[1-9][\d]{0,15}`. */
  predicate PhoneDigits(d: string)
  {
    1 <= |d| <= 16 && '1' <= d[0] <= '9' && AllAsciiDigits(d)
  }

  /** `validators.phone`. */
  function IsPhone(s: string): (ok: bool)
    ensures ok ==> NoSpace(RemoveSpaces(s)) && PhoneShape(RemoveSpaces(s))
    ensures !ok ==> !PhoneShape(RemoveSpaces(s))
  {
    var t := RemoveSpaces(s);
    if |t| >= 1 && t[0] == '+' then PhoneDigits(t[1..]) else PhoneDigits(t)
  }

  /** The number of digits of an accepted phone number lies in [1, 16],
      and its first digit is not 0. */
  lemma PhoneDigitBounds(s: string)
    requires IsPhone(s)
    ensures var t := RemoveSpaces(s);
            var d := if t[0] == '+' then t[1..] else t;
            1 <= |d| <= 16 && d[0] != '0' && AllAsciiDigits(d)
  {
  }

  lemma EmptyPhoneRejected()
    ensures !IsPhone("")
  {
  }

  lemma LeadingZeroRejected()
    ensures !IsPhone("0612345678")
  {
    assert NoSpace("0612345678");
  }

  lemma ShortPhoneAccepted()
    ensures IsPhone("123")
  {
    assert NoSpace("123");
  }

  lemma SeventeenDigitsRejected()
    ensures !IsPhone("+12345678901234567")
  {
    assert NoSpace("+12345678901234567");
  }

  /** `validators.required`. */
  function Required(value: string): (ok: bool)
    ensures ok <==> HasNonSpace(value)
  {
    TrimNonEmptyIff(value);
    |Trim(value)| > 0
  }

  /** `validators.minLength`: the JavaScript `length` of the trimmed value,
      which counts UTF-16 code units, reaches `min`.  A value of plain
      (non-astral) characters passes exactly when it has `min` characters
      after trimming; one of astral characters already with half as many. */
  function MinLength(value: string, min: int): (ok: bool)
    ensures (forall i :: 0 <= i < |Trim(value)| ==> !IsAstral(Trim(value)[i])) ==> (ok <==> |Trim(value)| >= min)
    ensures (forall i :: 0 <= i < |Trim(value)| ==> IsAstral(Trim(value)[i])) ==> (ok <==> 2 * |Trim(value)| >= min)
    ensures |Trim(value)| >= min ==> ok
  {
    Utf16Length(Trim(value)) >= min
  }

  /** `validators.maxLength`, counted the same way: a value of plain
      characters passes exactly when it has at most `max` characters after
      trimming, and one that passes never has more than `max` characters. */
  function MaxLength(value: string, max: int): (ok: bool)
    ensures (forall i :: 0 <= i < |Trim(value)| ==> !IsAstral(Trim(value)[i])) ==> (ok <==> |Trim(value)| <= max)
    ensures (forall i :: 0 <= i < |Trim(value)| ==> IsAstral(Trim(value)[i])) ==> (ok <==> 2 * |Trim(value)| <= max)
    ensures ok ==> |Trim(value)| <= max
  {
    Utf16Length(Trim(value)) <= max
  }

  /** `required` is `minLength` with a minimum of one. */
  lemma RequiredIsMinLengthOne(value: string)
    ensures Required(value) == MinLength(value, 1)
  {
  }

  /** A longer minimum is harder to meet; a longer maximum easier. */
  lemma LengthBoundsMonotone(value: string, m: int, n: int)
    requires m <= n
    ensures MinLength(value, n) ==> MinLength(value, m)
    ensures MaxLength(value, m) ==> MaxLength(value, n)
  {
  }

  /** Surrounding white space never changes a length verdict, because the
      checks trim first. */
  lemma LengthIgnoresOuterSpace(value: string, n: int)
    ensures MinLength(Trim(value), n) == MinLength(value, n)
    ensures MaxLength(Trim(value), n) == MaxLength(value, n)
  {
    TrimIdempotent(value);
  }

  /** Padding does not help a short value: two letters between spaces are
      still below a minimum of three. */
  lemma PaddedShortValueRejected()
    ensures !MinLength("  hi  ", 3)
  {
    var s := "  hi  ";
    assert !IsSpace(s[2]) && !IsSpace(s[3]);
    assert |Trim(s)| <= 2;
    assert forall i :: 0 <= i < |s| ==> !IsAstral(s[i]);
  }

  /** Five astral characters (emoji, say) are ten UTF-16 code units, so
      they meet a minimum length of ten although they are only five
      characters. */
  lemma AstralCharactersCountTwice()
    ensures MinLength("\U{1F600}\U{1F600}\U{1F600}\U{1F600}\U{1F600}", 10)
    ensures !MinLength("hello", 10)
  {
    var s := "\U{1F600}\U{1F600}\U{1F600}\U{1F600}\U{1F600}";
    assert !IsSpace(s[0]) && !IsSpace(s[4]);
    assert Trim(s) == s;
    var h := "hello";
    assert !IsSpace(h[0]) && !IsSpace(h[4]);
    assert Trim(h) == h;
  }
}
