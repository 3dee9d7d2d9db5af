/**
 * The parts of Java's string and integer library that the form logic relies on:
 * `String.trim`, `String.length` (UTF-16 code units), the regular expression
 * classes `\d+` and `\d+(\.\d+)?` used with `String.matches`, `Integer.parseInt`
 * on decimal input, and string concatenation of an `int`.
 */
module JavaText {
  import opened Wrappers

  /** The range of a Java `int`. */
  const IntMin: int := -2147483648
  const IntMax: int := 2147483647

  // ---------------------------------------------------------------------------
  // String.trim

  /** `String.trim` strips every leading and trailing char whose code is at most U+0020. */
  predicate IsTrimSpace(c: char)
  {
    c <= ' '
  }

  predicate AllTrimSpace(s: string)
  {
    forall i :: 0 <= i < |s| ==> IsTrimSpace(s[i])
  }

  /** `s` without its leading trim spaces: a suffix of `s` that starts with a kept char. */
  function StripLeading(s: string): (r: string)
    ensures |r| <= |s| && r == s[|s| - |r|..]
    ensures AllTrimSpace(s[..|s| - |r|])
    ensures r == [] || !IsTrimSpace(r[0])
  {
    if |s| > 0 && IsTrimSpace(s[0]) then
      var r := StripLeading(s[1..]);
      assert s[..|s| - |r|] == [s[0]] + s[1..][..|s[1..]| - |r|];
      r
    else
      s
  }

  /** `s` without its trailing trim spaces: a prefix of `s` that ends with a kept char. */
  function StripTrailing(s: string): (r: string)
    ensures |r| <= |s| && r == s[..|r|]
    ensures AllTrimSpace(s[|r|..])
    ensures r == [] || !IsTrimSpace(r[|r| - 1])
  {
    if |s| > 0 && IsTrimSpace(s[|s| - 1]) then
      var r := StripTrailing(s[..|s| - 1]);
      assert s[|r|..] == s[..|s| - 1][|r|..] + [s[|s| - 1]];
      r
    else
      s
  }

  /** Java's `String.trim`. */
  function Trim(s: string): (r: string)
    ensures |r| <= |s|
    ensures r == [] || (!IsTrimSpace(r[0]) && !IsTrimSpace(r[|r| - 1]))
  {
    StripTrailing(StripLeading(s))
  }

  /** `r` is `s` with some trim spaces cut from each end and none left at either end of `r`. */
  ghost predicate IsTrimOf(r: string, s: string)
  {
    exists i, j :: 0 <= i <= j <= |s| && r == s[i..j]
      && AllTrimSpace(s[..i]) && AllTrimSpace(s[j..])
      && (r == [] || (!IsTrimSpace(r[0]) && !IsTrimSpace(r[|r| - 1])))
  }

  /** `Trim` cuts a slice out of the middle of `s` and only ever cuts trim spaces. */
  lemma TrimIsTrimOf(s: string)
    ensures IsTrimOf(Trim(s), s)
  {
    var l := StripLeading(s);
    var i := |s| - |l|;
    var j := i + |Trim(s)|;
    assert l == s[i..];
    assert Trim(s) == s[i..j];
    assert s[j..] == l[|Trim(s)|..];
  }

  /** `Trim` leaves nothing exactly when the string is all trim spaces (the "blank" field). */
  lemma TrimEmptyIff(s: string)
    ensures Trim(s) == [] <==> AllTrimSpace(s)
  {
    var l := StripLeading(s);
    var r := StripTrailing(l);
    var cut := |s| - |l|;
    if r == [] {
      assert l[0..] == l;
      assert l == [];
      assert s[..cut] == s;
    } else {
      assert r[0] == l[0] == s[cut];
    }
  }

  /** A leading trim space is cut like the rest of the leading ones. */
  lemma TrimSkipsLeading(s: string)
    requires |s| > 0 && IsTrimSpace(s[0])
    ensures Trim(s) == Trim(s[1..])
  {
  }

  /** A string that starts and ends with a kept char is its own trim. */
  lemma TrimKeeps(s: string)
    requires |s| > 0 && !IsTrimSpace(s[0]) && !IsTrimSpace(s[|s| - 1])
    ensures Trim(s) == s
  {
    assert StripLeading(s) == s;
  }

  /** Trimming twice is trimming once. */
  lemma TrimIdempotent(s: string)
    ensures Trim(Trim(s)) == Trim(s)
  {
    var t := Trim(s);
    if t != [] {
      assert !IsTrimSpace(t[0]) && !IsTrimSpace(t[|t| - 1]);
      assert StripLeading(t) == t;
      assert StripTrailing(t) == t;
    }
  }

  // ---------------------------------------------------------------------------
  // String.length

  /** Java's `String.length`: UTF-16 code units, so a char outside the BMP counts twice. */
  function Utf16Length(s: string): (n: nat)
    ensures |s| <= n <= 2 * |s|
  {
    if s == [] then 0
    else (if s[0] as int > 0xFFFF then 2 else 1) + Utf16Length(s[1..])
  }

  /** On BMP-only text the Java length is the char count. */
  lemma {:induction false} Utf16LengthBmp(s: string)
    requires forall i :: 0 <= i < |s| ==> s[i] as int <= 0xFFFF
    ensures Utf16Length(s) == |s|
  {
    if s != [] {
      Utf16LengthBmp(s[1..]);
    }
  }

  // ---------------------------------------------------------------------------
  // The regular expressions `\d+` and `\d+(\.\d+)?`

  /** Java's `\d` without UNICODE_CHARACTER_CLASS is the range [0-9]. */
  predicate IsDigit(c: char)
  {
    '0' <= c <= '9'
  }

  /** `s.matches("\\d+")`: one or more decimal digits and nothing else. */
  predicate MatchesDigits(s: string): (b: bool)
    ensures b <==> |s| > 0 && DigitRun(s) == |s|
  {
    |s| > 0 && forall i :: 0 <= i < |s| ==> IsDigit(s[i])
  }

  /** Length of the run of digits at the start of `s`. */
  function DigitRun(s: string): (n: nat)
    ensures n <= |s|
    ensures forall i :: 0 <= i < n ==> IsDigit(s[i])
    ensures n < |s| ==> !IsDigit(s[n])
  {
    if |s| > 0 && IsDigit(s[0]) then 1 + DigitRun(s[1..]) else 0
  }

  /**
   * `s.matches("\\d+(\\.\\d+)?")`, as a left-to-right scan: a digit run, then either
   * the end of the input or a dot followed by digits up to the end.
   */
  predicate MatchesDecimal(s: string): (b: bool)
    ensures MatchesDigits(s) ==> b
    ensures b ==> |s| > 0 && IsDigit(s[0]) && IsDigit(s[|s| - 1])
    ensures b ==> forall i :: 0 <= i < |s| ==> IsDigit(s[i]) || (s[i] == '.' && i == DigitRun(s))
  {
    var n := DigitRun(s);
    n > 0 && (n == |s| || (s[n] == '.' && MatchesDigits(s[n + 1..]) &&
      assert forall i :: n < i < |s| ==> s[i] == s[n + 1..][i - n - 1];
      true))
  }

  /** The pattern read declaratively: an integer part, optionally a dot and a fraction part. */
  ghost predicate IsDecimalLiteral(s: string)
  {
    || MatchesDigits(s)
    || exists k :: 0 < k < |s| && s[k] == '.' && MatchesDigits(s[..k]) && MatchesDigits(s[k + 1..])
  }

  /** The scan accepts exactly the strings the pattern describes. */
  lemma MatchesDecimalIff(s: string)
    ensures MatchesDecimal(s) <==> IsDecimalLiteral(s)
  {
    var n := DigitRun(s);
    if MatchesDecimal(s) {
      if n < |s| {
        assert s[..n] == s[..n];
        assert MatchesDigits(s[..n]);
      }
    }
    if IsDecimalLiteral(s) {
      if !MatchesDigits(s) {
        var k :| 0 < k < |s| && s[k] == '.' && MatchesDigits(s[..k]) && MatchesDigits(s[k + 1..]);
        assert forall i :: 0 <= i < k ==> IsDigit(s[i]) by {
          forall i | 0 <= i < k ensures IsDigit(s[i]) { assert s[i] == s[..k][i]; }
        }
        assert n == k;
      } else {
        assert n == |s|;
      }
    }
  }

  // ---------------------------------------------------------------------------
  // Integer.parseInt and int-to-string

  function DigitValue(c: char): nat
    requires IsDigit(c)
  {
    c as int - '0' as int
  }

  function DigitChar(d: nat): (c: char)
    requires d < 10
    ensures IsDigit(c) && DigitValue(c) == d
  {
    ('0' as int + d) as char
  }

  /** The number a string of decimal digits denotes (the empty string denotes 0). */
  function DigitsValue(s: string): (v: nat)
    requires forall i :: 0 <= i < |s| ==> IsDigit(s[i])
    ensures |s| > 0 ==> v % 10 == DigitValue(s[|s| - 1])
  {
    if s == [] then 0
    else
      var prefix := s[..|s| - 1];
      DigitsValue(prefix) * 10 + DigitValue(s[|s| - 1])
  }

  /** Leading zeros do not change the value, so `parseInt("007")` is 7. */
  lemma {:induction false} DigitsValueLeadingZero(s: string)
    requires |s| > 0 && s[0] == '0' && forall i :: 0 <= i < |s| ==> IsDigit(s[i])
    ensures DigitsValue(s) == DigitsValue(s[1..])
  {
    if |s| > 1 {
      var prefix := s[..|s| - 1];
      DigitsValueLeadingZero(prefix);
      assert prefix[1..] == s[1..][..|s| - 2];
    }
  }

  /**
   * `Integer.parseInt(s)` with radix 10: an optional sign, then one or more digits,
   * with a value in the `int` range; `None` is a NumberFormatException.
   */
  function ParseInt(s: string): (r: Option<int>)
    ensures r.Some? ==> IntMin <= r.value <= IntMax
  {
    if |s| == 0 then None
    else if s[0] == '-' || s[0] == '+' then
      var body := s[1..];
      if !MatchesDigits(body) then None
      else
        var v: int := if s[0] == '-' then -(DigitsValue(body) as int) else DigitsValue(body) as int;
        if IntMin <= v <= IntMax then Some(v) else None
    else if MatchesDigits(s) && DigitsValue(s) <= IntMax then Some(DigitsValue(s))
    else None
  }

  /** On a string of digits, `Integer.parseInt` succeeds exactly when the value fits an `int`. */
  lemma ParseIntOfDigits(s: string)
    requires MatchesDigits(s)
    ensures ParseInt(s) == (if DigitsValue(s) <= IntMax then Some(DigitsValue(s)) else None)
  {
    assert IsDigit(s[0]);
  }

  /** The message of the NumberFormatException `Integer.parseInt(s)` throws. */
  function NumberFormatMessage(s: string): (m: string)
    ensures |m| == |s| + 20
    ensures m[..19] == "For input string: \"" && m[|m| - 1] == '"'
    ensures m[19..|m| - 1] == s
  {
    "For input string: \"" + s + "\""
  }

  /** The decimal digits of `n`, without leading zeros. */
  function NatToString(n: nat): (r: string)
    ensures MatchesDigits(r) && DigitsValue(r) == n
    ensures r[0] == '0' ==> n == 0
  {
    if n < 10 then
      assert DigitsValue([DigitChar(n)][..0]) == 0;
      [DigitChar(n)]
    else
      var prefix := NatToString(n / 10);
      var r := prefix + [DigitChar(n % 10)];
      assert r[..|r| - 1] == prefix;
      r
  }

  /** `"" + n` for a Java `int`. */
  function IntToString(n: int): (r: string)
    ensures |r| > 0
  {
    if n < 0 then "-" + NatToString(-n) else NatToString(n)
  }

  /** `Integer.parseInt` reads back what string concatenation wrote, for every `int`. */
  lemma ParseIntToString(n: int)
    requires IntMin <= n <= IntMax
    ensures ParseInt(IntToString(n)) == Some(n)
  {
    var d := NatToString(if n < 0 then -n else n);
    if n < 0 {
      var s := "-" + d;
      assert s[1..] == d;
      assert s[0] == '-';
    } else {
      assert IsDigit(d[0]);
    }
  }

  /** Distinct `int`s are written differently, so the id in a message names one row. */
  lemma IntToStringInjective(a: int, b: int)
    requires IntMin <= a <= IntMax && IntMin <= b <= IntMax
    requires IntToString(a) == IntToString(b)
    ensures a == b
  {
    ParseIntToString(a);
    ParseIntToString(b);
  }
}
