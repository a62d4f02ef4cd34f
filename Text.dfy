/**
  String-level building blocks shared by the whole pipeline: the .NET
  whitespace class, ASCII digit and word characters, the "D5" / "000"
  integer formats, ordinal left-to-right String.Replace, and the UTF-16
  length that StringBuilder.Length reports.
 */
module Text {

  datatype Option<T> = None | Some(value: T)

  /** char.IsWhiteSpace, which is also exactly the .NET regex class `\s`:
      U+0009..U+000D, U+0020, U+0085 and the separator categories Zs, Zl, Zp. */
  predicate IsWhiteSpace(c: char) {
    || ('\t' <= c <= '\r')
    || c == ' '
    || c == '\U{0085}'
    || c == '\U{00A0}'
    || c == '\U{1680}'
    || ('\U{2000}' <= c <= '\U{200A}')
    || c == '\U{2028}'
    || c == '\U{2029}'
    || c == '\U{202F}'
    || c == '\U{205F}'
    || c == '\U{3000}'
  }

  /** string.IsNullOrWhiteSpace (a Dafny string is never null). */
  predicate IsNullOrWhiteSpace(s: string) {
    forall i :: 0 <= i < |s| ==> IsWhiteSpace(s[i])
  }

  predicate IsDigit(c: char) { '0' <= c <= '9' }

  predicate AllDigits(s: string) {
    forall i :: 0 <= i < |s| ==> IsDigit(s[i])
  }

  /** The regex class `\w`, restricted to ASCII. */
  predicate IsWordChar(c: char) {
    ('a' <= c <= 'z') || ('A' <= c <= 'Z') || IsDigit(c) || c == '_'
  }

  function ToLowerChar(c: char): char {
    if 'A' <= c <= 'Z' then (c as int - 'A' as int + 'a' as int) as char else c
  }

  /** string.ToLower, restricted to ASCII letters. */
  function ToLower(s: string): (r: string)
    ensures |r| == |s|
    ensures forall i :: 0 <= i < |s| ==> r[i] == ToLowerChar(s[i])
  {
    if s == [] then [] else [ToLowerChar(s[0])] + ToLower(s[1..])
  }

  predicate StartsWith(s: string, p: string) {
    |p| <= |s| && s[..|p|] == p
  }

  // ---------------------------------------------------------------------
  // Decimal formatting: Int32.ToString("D5") and the custom format "000"
  // ---------------------------------------------------------------------

  function DigitChar(d: nat): char
    requires d < 10
  {
    ('0' as int + d) as char
  }

  /** The decimal digits of n, most significant first, without leading zeros. */
  function Digits(n: nat): string
  {
    if n < 10 then [DigitChar(n)] else Digits(n / 10) + [DigitChar(n % 10)]
  }

  function Zeros(k: nat): (z: string)
    ensures |z| == k && forall i :: 0 <= i < k ==> z[i] == '0'
  {
    seq(k, _ => '0')
  }

  /** n in decimal, left-padded with zeros to at least `width` digits. */
  function FormatDecimal(n: nat, width: nat): string
  {
    var ds := Digits(n);
    if |ds| >= width then ds else Zeros(width - |ds|) + ds
  }

  /** Node ids: `ToString("D5")`. */
  function D5(n: nat): string { FormatDecimal(n, 5) }

  /** The numeric value of a string of ASCII digits. */
  function DigitsValue(s: string): nat
    requires AllDigits(s)
  {
    if s == [] then 0 else DigitsValue(s[..|s| - 1]) * 10 + (s[|s| - 1] as int - '0' as int)
  }

  function Pow10(k: nat): nat { if k == 0 then 1 else 10 * Pow10(k - 1) }

  lemma {:induction false} DigitsAreDigits(n: nat)
    ensures AllDigits(Digits(n)) && 1 <= |Digits(n)|
  {
    if n >= 10 {
      DigitsAreDigits(n / 10);
    }
  }

  lemma {:induction false} DigitsValueOfDigits(n: nat)
    ensures AllDigits(Digits(n)) && DigitsValue(Digits(n)) == n
  {
    DigitsAreDigits(n);
    if n >= 10 {
      DigitsValueOfDigits(n / 10);
      var ds := Digits(n);
      assert ds[..|ds| - 1] == Digits(n / 10);
    }
  }

  lemma {:induction false} LeadingZerosValue(k: nat, s: string)
    requires AllDigits(s)
    ensures AllDigits(Zeros(k) + s) && DigitsValue(Zeros(k) + s) == DigitsValue(s)
  {
    var z := Zeros(k) + s;
    if s == [] {
      assert z == Zeros(k);
      ZerosValue(k);
    } else {
      assert z[..|z| - 1] == Zeros(k) + s[..|s| - 1];
      LeadingZerosValue(k, s[..|s| - 1]);
    }
  }

  lemma {:induction false} ZerosValue(k: nat)
    ensures AllDigits(Zeros(k)) && DigitsValue(Zeros(k)) == 0
  {
    if k > 0 {
      assert Zeros(k)[..k - 1] == Zeros(k - 1);
      ZerosValue(k - 1);
    }
  }

  /** Formatting is undone by reading the digits back: the format is injective. */
  lemma FormatDecimalValue(n: nat, width: nat)
    ensures AllDigits(FormatDecimal(n, width))
    ensures DigitsValue(FormatDecimal(n, width)) == n
    ensures |FormatDecimal(n, width)| >= width
  {
    DigitsValueOfDigits(n);
    var ds := Digits(n);
    if |ds| < width {
      LeadingZerosValue(width - |ds|, ds);
    }
  }

  lemma FormatDecimalInjective(n: nat, m: nat, width: nat)
    requires FormatDecimal(n, width) == FormatDecimal(m, width)
    ensures n == m
  {
    FormatDecimalValue(n, width);
    FormatDecimalValue(m, width);
  }

  lemma {:induction false} DigitsLength(n: nat, k: nat)
    requires 1 <= k
    ensures |Digits(n)| <= k <==> n < Pow10(k)
  {
    if n >= 10 {
      if k == 1 {
        DigitsAreDigits(n / 10);
      } else {
        DigitsLength(n / 10, k - 1);
        assert n / 10 < Pow10(k - 1) <==> n < 10 * Pow10(k - 1);
      }
    } else {
      assert Pow10(k) >= 10 by { Pow10AtLeastTen(k); }
    }
  }

  lemma {:induction false} Pow10AtLeastTen(k: nat)
    requires 1 <= k
    ensures Pow10(k) >= 10
  {
    if k > 1 {
      Pow10AtLeastTen(k - 1);
    }
  }

  /** Ids below 100000 are exactly five digits; from 100000 on they grow a
      sixth digit, which the edit parser's `\d{5}` no longer accepts. */
  lemma D5Length(n: nat)
    ensures AllDigits(D5(n))
    ensures n < 100000 ==> |D5(n)| == 5
    ensures n >= 100000 ==> |D5(n)| >= 6
  {
    FormatDecimalValue(n, 5);
    DigitsLength(n, 5);
    assert Pow10(5) == 100000;
  }

  // ---------------------------------------------------------------------
  // String.Replace(pattern, replacement): ordinal, left to right, non-overlapping
  // ---------------------------------------------------------------------

  function ReplaceAll(s: string, pat: string, rep: string): string
    requires pat != []
    decreases |s|
  {
    if |s| < |pat| then s
    else if s[..|pat|] == pat then rep + ReplaceAll(s[|pat|..], pat, rep)
    else [s[0]] + ReplaceAll(s[1..], pat, rep)
  }

  /** A prefix of the input at none of whose positions the pattern starts
      passes through Replace unchanged. */
  lemma {:induction false} ReplaceAllSkips(u: string, rest: string, pat: string, rep: string)
    requires pat != []
    requires forall i :: 0 <= i < |u| ==> !StartsWith((u + rest)[i..], pat)
    ensures ReplaceAll(u + rest, pat, rep) == u + ReplaceAll(rest, pat, rep)
  {
    if u != [] {
      var s := u + rest;
      assert s[0..] == s;
      assert !StartsWith(s, pat);
      assert s[1..] == u[1..] + rest;
      forall i | 0 <= i < |u[1..]|
        ensures !StartsWith((u[1..] + rest)[i..], pat)
      {
        assert (u[1..] + rest)[i..] == s[i + 1..];
      }
      ReplaceAllSkips(u[1..], rest, pat, rep);
      if |s| >= |pat| {
        assert ReplaceAll(s, pat, rep) == [u[0]] + ReplaceAll(u[1..] + rest, pat, rep);
        assert [u[0]] + u[1..] == u;
      }
    } else {
      assert u + rest == rest;
    }
  }

  function EscapeAmpersands(s: string): string { ReplaceAll(s, "&", "&amp;") }

  function UnescapeAmpersands(s: string): string { ReplaceAll(s, "&amp;", "&") }

  /** Escaping every `&` as `&amp;` loses nothing: replacing `&amp;` by `&`
      afterwards restores the input exactly. */
  lemma {:induction false} EscapeAmpersandsRoundTrip(s: string)
    ensures UnescapeAmpersands(EscapeAmpersands(s)) == s
  {
    if s != [] {
      var e := EscapeAmpersands(s[1..]);
      EscapeAmpersandsRoundTrip(s[1..]);
      if s[0] == '&' {
        assert EscapeAmpersands(s) == "&amp;" + e;
        assert ("&amp;" + e)[..5] == "&amp;";
        assert ("&amp;" + e)[5..] == e;
      } else {
        assert EscapeAmpersands(s) == [s[0]] + e;
        UnescapeNonAmpersand(s[0], e);
      }
    }
  }

  lemma UnescapeNonAmpersand(c: char, x: string)
    requires c != '&'
    ensures UnescapeAmpersands([c] + x) == [c] + UnescapeAmpersands(x)
  {
    var s := [c] + x;
    assert s[1..] == x;
    if |s| >= 5 {
      assert s[..5] != "&amp;" by { assert s[0] != '&'; }
    }
  }

  // ---------------------------------------------------------------------
  // Lengths and concatenation
  // ---------------------------------------------------------------------

  function Utf16Units(c: char): nat { if c as int > 0xFFFF then 2 else 1 }

  /** StringBuilder.Length: UTF-16 code units, two for a character outside the BMP. */
  function Utf16Length(s: string): nat
  {
    if s == [] then 0 else Utf16Length(s[..|s| - 1]) + Utf16Units(s[|s| - 1])
  }

  lemma {:induction false} Utf16LengthBounds(s: string)
    ensures |s| <= Utf16Length(s) <= 2 * |s|
  {
    if s != [] {
      Utf16LengthBounds(s[..|s| - 1]);
    }
  }

  lemma {:induction false} Utf16LengthAppend(a: string, b: string)
    ensures Utf16Length(a + b) == Utf16Length(a) + Utf16Length(b)
  {
    if b != [] {
      assert (a + b)[..|a + b| - 1] == a + b[..|b| - 1];
      Utf16LengthAppend(a, b[..|b| - 1]);
    } else {
      assert a + b == a;
    }
  }

  function Concat(ss: seq<string>): string
  {
    if ss == [] then [] else Concat(ss[..|ss| - 1]) + ss[|ss| - 1]
  }

  lemma {:induction false} ConcatAppend(a: seq<string>, b: seq<string>)
    ensures Concat(a + b) == Concat(a) + Concat(b)
  {
    if b != [] {
      assert (a + b)[..|a + b| - 1] == a + b[..|b| - 1];
      ConcatAppend(a, b[..|b| - 1]);
    } else {
      assert a + b == a;
    }
  }
}
