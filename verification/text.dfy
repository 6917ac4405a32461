/** The java.lang.String operations the engine relies on: trim, isEmpty-after-trim,
    toLowerCase, equalsIgnoreCase, contains, startsWith, int-to-text concatenation
    and Integer.parseInt. Characters are treated as ASCII for case mapping. */
module Text {
  import opened Wrappers

  /** String.trim strips every leading and trailing character whose code is at most U+0020 */
  predicate IsTrimmable(c: char) {
    c <= ' '
  }

  /** `s.trim().isEmpty()`: every character of s would be trimmed */
  predicate IsBlank(s: string) {
    forall i :: 0 <= i < |s| ==> IsTrimmable(s[i])
  }

  /** Drops the leading trimmable characters */
  function TrimLeft(s: string): (r: string)
    ensures |r| <= |s| && r == s[|s| - |r|..]
    ensures IsBlank(s[..|s| - |r|])
    ensures r == [] || !IsTrimmable(r[0])
  {
    if |s| > 0 && IsTrimmable(s[0]) then
      var r := TrimLeft(s[1..]);
      assert s[..|s| - |r|] == [s[0]] + s[1..][..|s| - 1 - |r|];
      r
    else
      s
  }

  /** Drops the trailing trimmable characters */
  function TrimRight(s: string): (r: string)
    ensures |r| <= |s| && r == s[..|r|]
    ensures IsBlank(s[|r|..])
    ensures r == [] || !IsTrimmable(r[|r| - 1])
  {
    if |s| > 0 && IsTrimmable(s[|s| - 1]) then
      var r := TrimRight(s[..|s| - 1]);
      assert s[|r|..] == s[..|s| - 1][|r|..] + [s[|s| - 1]];
      r
    else
      s
  }

  /** r sits at position k of s with only trimmable characters around it */
  predicate TrimmedAt(s: string, r: string, k: int) {
    0 <= k <= |s| - |r| && s[k..k + |r|] == r && IsBlank(s[..k]) && IsBlank(s[k + |r|..])
  }

  /** String.trim: the text between a blank prefix and a blank suffix, itself
      neither starting nor ending with a trimmable character */
  function Trim(s: string): (r: string)
    ensures |r| <= |s|
    ensures exists k :: TrimmedAt(s, r, k)
    ensures r == [] || (!IsTrimmable(r[0]) && !IsTrimmable(r[|r| - 1]))
    ensures r == [] <==> IsBlank(s)
  {
    var l := TrimLeft(s);
    var r := TrimRight(l);
    TrimParts(s, l, r);
    r
  }

  lemma TrimParts(s: string, l: string, r: string)
    requires |l| <= |s| && l == s[|s| - |l|..] && IsBlank(s[..|s| - |l|])
    requires l == [] || !IsTrimmable(l[0])
    requires |r| <= |l| && r == l[..|r|] && IsBlank(l[|r|..])
    ensures TrimmedAt(s, r, |s| - |l|)
    ensures r == [] || !IsTrimmable(r[0])
    ensures r == [] <==> IsBlank(s)
  {
    var k := |s| - |l|;
    assert s[k..k + |r|] == r by {
      assert s[k..] == l;
    }
    assert IsBlank(s[k + |r|..]) by {
      assert s[k + |r|..] == l[|r|..];
    }
    if r == [] {
      BlankAppend(s[..k], l);
      assert s == s[..k] + l;
    } else {
      assert l[0] == r[0];
      assert s[k] == l[0];
    }
  }

  lemma BlankAppend(a: string, b: string)
    requires IsBlank(a) && IsBlank(b)
    ensures IsBlank(a + b)
  {
  }

  /** Trimming an already trimmed string changes nothing */
  lemma TrimIdempotent(s: string)
    ensures Trim(Trim(s)) == Trim(s)
  {
    var t := Trim(s);
    if t != [] {
      assert TrimLeft(t) == t;
      assert TrimRight(t) == t;
    }
  }

  /** ASCII upper-case letters map to lower case, everything else is kept */
  function LowerChar(c: char): char {
    if 'A' <= c <= 'Z' then (c as int + 32) as char else c
  }

  /** String.toLowerCase, restricted to ASCII case mapping */
  function ToLower(s: string): (r: string)
    ensures |r| == |s|
  {
    seq(|s|, i requires 0 <= i < |s| => LowerChar(s[i]))
  }

  /** Lower-casing is idempotent, so a lower-cased query compares equal to itself */
  lemma ToLowerIdempotent(s: string)
    ensures ToLower(ToLower(s)) == ToLower(s)
  {
  }

  /** String.equalsIgnoreCase, restricted to ASCII */
  predicate EqualsIgnoreCase(a: string, b: string) {
    ToLower(a) == ToLower(b)
  }

  /** sub occurs in s starting at position i */
  predicate OccursAt(s: string, sub: string, i: int) {
    0 <= i <= |s| - |sub| && s[i..i + |sub|] == sub
  }

  /** String.contains: sub occurs at some position of s */
  predicate Contains(s: string, sub: string) {
    exists i :: 0 <= i <= |s| - |sub| && OccursAt(s, sub, i)
  }

  /** String.startsWith */
  predicate StartsWith(s: string, prefix: string) {
    |prefix| <= |s| && s[..|prefix|] == prefix
  }

  predicate IsDigit(c: char) {
    '0' <= c <= '9'
  }

  predicate AllDigits(s: string) {
    forall i :: 0 <= i < |s| ==> IsDigit(s[i])
  }

  function DigitChar(d: nat): (c: char)
    requires d < 10
    ensures IsDigit(c)
  {
    ('0' as int + d) as char
  }

  /** The decimal value of a string of digits */
  function DigitsValue(s: string): nat
    requires AllDigits(s)
  {
    if |s| == 0 then 0
    else DigitsValue(s[..|s| - 1]) * 10 + (s[|s| - 1] as int - '0' as int)
  }

  /** Decimal rendering of a natural number, without leading zeros */
  function NatToString(n: nat): (r: string)
    ensures |r| > 0 && AllDigits(r)
    ensures n >= 10 ==> r[0] != '0'
  {
    if n < 10 then [DigitChar(n)] else NatToString(n / 10) + [DigitChar(n % 10)]
  }

  /** Integer.toString (the `"..." + n` concatenation): decimal with a leading '-' when negative */
  function IntToString(i: int): (r: string)
    ensures |r| > 0
  {
    if i < 0 then "-" + NatToString(-i) else NatToString(i)
  }

  /** Integer.parseInt: an optional sign followed by at least one decimal digit.
      None stands for NumberFormatException. */
  function ParseInt(s: string): Option<int> {
    if |s| > 0 && (s[0] == '-' || s[0] == '+') then
      if |s| > 1 && AllDigits(s[1..]) then
        var v: int := DigitsValue(s[1..]);
        Some(if s[0] == '-' then -v else v)
      else None
    else if |s| > 0 && AllDigits(s) then Some(DigitsValue(s))
    else None
  }

  lemma {:induction false} DigitsValueOfNatToString(n: nat)
    ensures DigitsValue(NatToString(n)) == n
  {
    if n >= 10 {
      var s := NatToString(n);
      DigitsValueOfNatToString(n / 10);
      assert s[..|s| - 1] == NatToString(n / 10);
    }
  }

  /** Parsing the rendering of any integer gives that integer back */
  lemma ParseIntOfIntToString(i: int)
    ensures ParseInt(IntToString(i)) == Some(i)
  {
    var s := IntToString(i);
    if i < 0 {
      var d := NatToString(-i);
      assert s == "-" + d && s[1..] == d;
      DigitsValueOfNatToString(-i);
    } else {
      assert IsDigit(s[0]);
      DigitsValueOfNatToString(i);
    }
  }

  /** The text after a prefix, when the string starts with it */
  function Suffix(s: string, prefix: string): (r: string)
    requires StartsWith(s, prefix)
    ensures s == prefix + r
  {
    s[|prefix|..]
  }

  /** The number n of a key shaped `<prefix><n>`, as the id generators read it:
      None when the prefix is missing or the rest does not parse */
  function NumberedSuffix(s: string, prefix: string): Option<int> {
    if StartsWith(s, prefix) then ParseInt(Suffix(s, prefix)) else None
  }

  /** Reading back a key written as `<prefix><n>` gives n */
  lemma NumberedSuffixRoundTrip(prefix: string, n: int)
    ensures NumberedSuffix(prefix + IntToString(n), prefix) == Some(n)
  {
    var s := prefix + IntToString(n);
    assert s[..|prefix|] == prefix;
    assert Suffix(s, prefix) == IntToString(n);
    ParseIntOfIntToString(n);
  }
}
