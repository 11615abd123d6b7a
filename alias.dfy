/** Display names: the anonymous alias `Anonymous####`, the fallback
    `User####`, and the name a user gets back when anonymous mode is switched
    off (one leading alias stripped, then JavaScript `trim`). The number
    `####` comes from `Math.floor(1000 + Math.random() * 9000)`, so it is a
    parameter in 1000..9999. */
module Alias {

  predicate IsDigit(c: char)
  {
    '0' <= c <= '9'
  }

  predicate AllDigits(s: string)
  {
    forall i | 0 <= i < |s| :: IsDigit(s[i])
  }

  function DigitChar(d: int): (c: char)
    requires 0 <= d <= 9
    ensures IsDigit(c) && c as int - '0' as int == d
  {
    ('0' as int + d) as char
  }

  /** The number a string of decimal digits denotes. */
  function DecimalValue(s: string): nat
    requires AllDigits(s)
  {
    if |s| == 0 then 0
    else DecimalValue(s[..|s| - 1]) * 10 + (s[|s| - 1] as int - '0' as int)
  }

  /** A number drawn by `Math.floor(1000 + Math.random() * 9000)`. */
  predicate IsAliasNumber(n: int)
  {
    1000 <= n <= 9999
  }

  /** The template-literal rendering `${n}` of a four-digit number, which
      reads back as `n`. */
  function FourDigits(n: int): (s: string)
    requires IsAliasNumber(n)
    ensures |s| == 4 && AllDigits(s)
    ensures DecimalValue(s) == n
  {
    var r1 := n / 10;
    var r2 := r1 / 10;
    var d0, d1, d2, d3 := r2 / 10, r2 % 10, r1 % 10, n % 10;
    var s := [DigitChar(d0), DigitChar(d1), DigitChar(d2), DigitChar(d3)];
    assert DecimalValue(s[..1]) == d0 by { assert s[..1][..0] == []; }
    assert DecimalValue(s[..2]) == r2 by { assert s[..2][..1] == s[..1]; }
    assert DecimalValue(s[..3]) == r1 by { assert s[..3][..2] == s[..2]; }
    assert DecimalValue(s) == n by { assert s[..3] == s[..|s| - 1]; }
    s
  }

  const AnonymousWord := "Anonymous"
  const UserWord := "User"

  /** The regular expression `^Anonymous\d{4}`: the word followed by four
      ASCII digits at the very start. */
  predicate HasAliasPrefix(s: string)
  {
    |s| >= 13 && s[..9] == AnonymousWord && AllDigits(s[9..13])
  }

  function AnonymousAlias(n: int): (s: string)
    requires IsAliasNumber(n)
    ensures |s| == 13 && HasAliasPrefix(s)
    ensures AllDigits(s[9..]) && DecimalValue(s[9..]) == n
  {
    var s := AnonymousWord + FourDigits(n);
    assert s[9..13] == FourDigits(n);
    s
  }

  function UserAlias(n: int): (s: string)
    requires IsAliasNumber(n)
    ensures |s| == 8 && s[..4] == UserWord && AllDigits(s[4..])
    ensures DecimalValue(s[4..]) == n
  {
    var s := UserWord + FourDigits(n);
    assert s[4..] == FourDigits(n);
    s
  }

  /** Two calls give the same alias only when they drew the same number. */
  lemma AnonymousAliasInjective(n: int, m: int)
    requires IsAliasNumber(n) && IsAliasNumber(m)
    ensures AnonymousAlias(n) == AnonymousAlias(m) <==> n == m
  {
    if AnonymousAlias(n) == AnonymousAlias(m) {
      assert FourDigits(n) == AnonymousAlias(n)[9..];
      assert FourDigits(m) == AnonymousAlias(m)[9..];
    }
  }

  /** `s.replace(/^Anonymous\d{4}/, '')`. */
  function StripAliasPrefix(s: string): string
  {
    if HasAliasPrefix(s) then s[13..] else s
  }

  /** The characters JavaScript's `String.prototype.trim` removes: the
      WhiteSpace and LineTerminator code points of ECMAScript. */
  predicate IsJsSpace(c: char)
  {
    var k := c as int;
    k == 0x09 || k == 0x0A || k == 0x0B || k == 0x0C || k == 0x0D || k == 0x20 ||
    k == 0xA0 || k == 0x1680 || (0x2000 <= k <= 0x200A) || k == 0x2028 || k == 0x2029 ||
    k == 0x202F || k == 0x205F || k == 0x3000 || k == 0xFEFF
  }

  predicate AllSpaces(s: string)
  {
    forall i | 0 <= i < |s| :: IsJsSpace(s[i])
  }

  /** Neither end of the string is a space. */
  predicate Trimmed(s: string)
  {
    |s| == 0 || (!IsJsSpace(s[0]) && !IsJsSpace(s[|s| - 1]))
  }

  /** The length of the run of spaces at the start. */
  function LeadingSpaces(s: string): (n: nat)
    ensures n <= |s| && AllSpaces(s[..n])
    ensures n < |s| ==> !IsJsSpace(s[n])
  {
    if |s| == 0 || !IsJsSpace(s[0]) then 0
    else
      var k := LeadingSpaces(s[1..]);
      assert s[..k + 1] == [s[0]] + s[1..][..k];
      k + 1
  }

  /** The length of the run of spaces at the end. */
  function TrailingSpaces(s: string): (n: nat)
    ensures n <= |s| && AllSpaces(s[|s| - n..])
    ensures n < |s| ==> !IsJsSpace(s[|s| - 1 - n])
  {
    if |s| == 0 || !IsJsSpace(s[|s| - 1]) then 0
    else
      var t := s[..|s| - 1];
      var k := TrailingSpaces(t);
      assert s[|s| - (k + 1)..] == t[|t| - k..] + [s[|s| - 1]];
      k + 1
  }

  /** `s.trim()`: the string without its leading and trailing spaces. */
  function Trim(s: string): (r: string)
    ensures Trimmed(r)
    ensures |r| <= |s|
    ensures Trimmed(s) ==> r == s
    ensures r == [] <==> AllSpaces(s)
  {
    var a := LeadingSpaces(s);
    var t := s[a..];
    var b := TrailingSpaces(t);
    var r := t[..|t| - b];
    assert a == |s| ==> s[..a] == s;
    assert a < |s| ==> !AllSpaces(s);
    assert a < |s| ==> b < |t| && t[0] == s[a];
    assert Trimmed(s) && |s| > 0 ==> a == 0 && b == 0;
    r
  }

  /** Trimming is a decomposition: any string made of spaces, a trimmed
      middle and spaces trims to that middle. */
  lemma {:induction false} TrimOfPadded(before: string, middle: string, after: string)
    requires AllSpaces(before) && AllSpaces(after) && Trimmed(middle) && middle != []
    ensures Trim(before + middle + after) == middle
  {
    var s := before + middle + after;
    LeadingOfPadded(before, middle + after);
    assert s == before + (middle + after);
    var t := s[|before|..];
    assert t == middle + after;
    TrailingOfPadded(middle, after);
  }

  lemma {:induction false} LeadingOfPadded(before: string, rest: string)
    requires AllSpaces(before) && |rest| > 0 && !IsJsSpace(rest[0])
    ensures LeadingSpaces(before + rest) == |before|
  {
    if |before| > 0 {
      assert (before + rest)[1..] == before[1..] + rest;
      LeadingOfPadded(before[1..], rest);
    }
  }

  lemma {:induction false} TrailingOfPadded(rest: string, after: string)
    requires AllSpaces(after) && |rest| > 0 && !IsJsSpace(rest[|rest| - 1])
    ensures TrailingSpaces(rest + after) == |after|
  {
    if |after| > 0 {
      var s := rest + after;
      assert s[..|s| - 1] == rest + after[..|after| - 1];
      TrailingOfPadded(rest, after[..|after| - 1]);
    }
  }

  /** The name after `toggle_anonymous(false)`: one leading alias stripped,
      the rest trimmed, and `User####` when nothing is left. */
  function RevertedName(username: string, n: int): (r: string)
    requires IsAliasNumber(n)
    ensures r != [] && Trimmed(r)
  {
    var t := Trim(StripAliasPrefix(username));
    if t == [] then
      assert !IsJsSpace(UserAlias(n)[0]) by { assert UserAlias(n)[0] == UserAlias(n)[..4][0]; }
      assert IsDigit(UserAlias(n)[7]) by { assert UserAlias(n)[7] == UserAlias(n)[4..][3]; }
      UserAlias(n)
    else t
  }

  /** Switching anonymity off right after switching it on yields the
      fallback `User####`: the alias is stripped entirely. */
  lemma AliasRevertsToUserName(m: int, n: int)
    requires IsAliasNumber(m) && IsAliasNumber(n)
    ensures RevertedName(AnonymousAlias(m), n) == UserAlias(n)
  {
    assert StripAliasPrefix(AnonymousAlias(m)) == [];
  }

  /** A name that carries no alias prefix keeps its trimmed text. */
  lemma PlainNameSurvivesRevert(before: string, name: string, after: string, n: int)
    requires IsAliasNumber(n)
    requires AllSpaces(before) && AllSpaces(after) && Trimmed(name) && name != []
    requires !HasAliasPrefix(before + name + after)
    ensures RevertedName(before + name + after, n) == name
  {
    TrimOfPadded(before, name, after);
  }

  /** Only one alias is stripped: text after the first alias is kept,
      trimmed, even when it is itself an alias. */
  lemma RevertStripsOneAlias(m: int, rest: string, n: int)
    requires IsAliasNumber(m) && IsAliasNumber(n)
    requires Trimmed(rest) && rest != []
    ensures RevertedName(AnonymousAlias(m) + rest, n) == rest
  {
    var s := AnonymousAlias(m) + rest;
    assert s[..13] == AnonymousAlias(m);
    assert s[..9] == AnonymousAlias(m)[..9];
    assert s[9..13] == AnonymousAlias(m)[9..13];
    assert StripAliasPrefix(s) == rest;
  }
}
