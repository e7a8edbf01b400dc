/**
 * Decimal notation of natural numbers: Python's `f"{n}"` for `n >= 0` and `int(s)` on a
 * string of ASCII digits.
 */
module Digits {
  import opened Wrappers
  import Text

  predicate IsDigit(c: char) {
    '0' <= c <= '9'
  }

  /** A non-empty run of ASCII digits. */
  predicate IsDigits(s: string) {
    |s| > 0 && forall k :: 0 <= k < |s| ==> IsDigit(s[k])
  }

  function DigitChar(d: nat): (c: char)
    requires d < 10
    ensures IsDigit(c)
  {
    ('0' as int + d) as char
  }

  /** The value of a digit string read left to right, most significant digit first. */
  function ParseNat(s: string): nat
    requires forall k :: 0 <= k < |s| ==> IsDigit(s[k])
  {
    if s == [] then 0
    else
      assert IsDigit(s[|s| - 1]);
      ParseNat(s[..|s| - 1]) * 10 + (s[|s| - 1] as int - '0' as int)
  }

  /** `str(n)`: the shortest digit string whose value is `n`. */
  function NatToString(n: nat): (s: string)
    ensures IsDigits(s)
    ensures ParseNat(s) == n
    ensures s[0] == '0' ==> s == "0"
  {
    if n < 10 then [DigitChar(n)]
    else
      var s := NatToString(n / 10) + [DigitChar(n % 10)];
      assert s[..|s| - 1] == NatToString(n / 10);
      s
  }

  /** Leading zeros do not change the text back: `str(int(s)) == s` for canonical digit strings. */
  lemma {:induction false} NatToStringParse(s: string)
    requires IsDigits(s) && (s[0] == '0' ==> s == "0")
    ensures NatToString(ParseNat(s)) == s
    decreases |s|
  {
    var init := s[..|s| - 1];
    var d := s[|s| - 1] as int - '0' as int;
    if |s| == 1 {
      assert ParseNat(s) == d by { assert init == []; }
    } else {
      assert IsDigits(init) && init[0] == s[0] && s[0] != '0';
      NatToStringParse(init);
      var n := ParseNat(s);
      assert n == ParseNat(init) * 10 + d;
      assert NatToString(0) == "0";
      assert ParseNat(init) != 0;
      assert n / 10 == ParseNat(init) && n % 10 == d;
      assert s == init + [DigitChar(d)];
    }
  }

  /**
   * Python's `int(text)` for a base-10 literal: surrounding whitespace, an optional sign and
   * a non-empty run of ASCII digits.
   */
  function ParseInt(text: string): (r: Option<int>)
    ensures r.Some? <==> (var t := Text.Strip(text);
      IsDigits(t) || (|t| > 1 && (t[0] == '+' || t[0] == '-') && IsDigits(t[1..])))
  {
    var t := Text.Strip(text);
    if IsDigits(t) then Some(ParseNat(t) as int)
    else if |t| > 1 && t[0] == '+' && IsDigits(t[1..]) then Some(ParseNat(t[1..]) as int)
    else if |t| > 1 && t[0] == '-' && IsDigits(t[1..]) then Some(-(ParseNat(t[1..]) as int))
    else None
  }

  /** A single character that is neither a digit nor whitespace is not an integer. */
  lemma ParseIntRejectsCharacter(s: string)
    requires |s| == 1 && !IsDigit(s[0]) && !Text.IsSpace(s[0])
    ensures ParseInt(s).None?
  {
    assert Text.LStrip(s) == s;
    assert Text.RStrip(s) == s;
  }

  /** A digit string has no surrounding whitespace. */
  lemma StripDigits(s: string)
    requires IsDigits(s)
    ensures Text.Strip(s) == s
  {
    assert IsDigit(s[0]) && IsDigit(s[|s| - 1]);
    assert Text.LStrip(s) == s;
    assert Text.RStrip(s) == s;
  }

  /** Reading back what `str` wrote. */
  lemma ParseIntOfNatToString(n: nat)
    ensures ParseInt(NatToString(n)) == Some(n)
  {
    StripDigits(NatToString(n));
  }

  /** `str(n)` for any integer: the digits of `|n|`, after a minus sign when `n` is negative. */
  function IntToString(n: int): (s: string)
    ensures |s| > 0
    ensures forall k :: 0 <= k < |s| ==> IsDigit(s[k]) || (k == 0 && s[k] == '-')
  {
    if n < 0 then "-" + NatToString(-n) else NatToString(n)
  }

  /** A number below ten is written as its single digit. */
  lemma IntToStringDigit(n: int)
    requires 0 <= n < 10
    ensures IntToString(n) == [DigitChar(n)]
  {
  }

  /** Reading back what `str` wrote, for negative numbers too. */
  lemma ParseIntOfIntToString(n: int)
    ensures ParseInt(IntToString(n)) == Some(n)
  {
    var s := IntToString(n);
    if n < 0 {
      var d := NatToString(-n);
      assert s[1..] == d;
      assert !Text.IsSpace(s[0]) && !Text.IsSpace(s[|s| - 1]);
      assert Text.LStrip(s) == s;
      assert Text.RStrip(s) == s;
      assert !IsDigits(s);
    } else {
      ParseIntOfNatToString(n);
    }
  }
}
