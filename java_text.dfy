/** The Java and Spring string primitives the validation rules rest on:
    `Character.isWhitespace`, the regular-expression class `\s`,
    `StringUtils.hasText`, `String.trim` and the decimal rendering of a
    `long` (`Long.toString`, which `String.valueOf` uses).
    A Dafny `char` is a Unicode scalar value; Java strings are UTF-16 code
    units. None of the predicates below holds of a surrogate, so the two
    views agree on them. */
module JavaText {
  import opened Wrappers

  /** `Character.isWhitespace`: the Unicode space, line and paragraph
      separators except the no-break spaces U+00A0, U+2007 and U+202F, plus
      the controls TAB, LF, VT, FF, CR and U+001C..U+001F. */
  predicate IsJavaWhitespace(c: char)
  {
    || ('\t' <= c <= '\r')
    || ('\U{1C}' <= c <= ' ')
    || c == '\U{1680}'
    || ('\U{2000}' <= c <= '\U{2006}')
    || ('\U{2008}' <= c <= '\U{200A}')
    || c == '\U{2028}' || c == '\U{2029}' || c == '\U{205F}' || c == '\U{3000}'
  }

  /** The regular-expression class `\s` without UNICODE_CHARACTER_CLASS:
      space, TAB, LF, VT, FF and CR. */
  predicate IsRegexSpace(c: char)
  {
    c == ' ' || c == '\t' || c == '\n' || c == '\U{0B}' || c == '\U{0C}' || c == '\r'
  }

  /** `StringUtils.hasText`: non-null and holding at least one character that
      is not `Character.isWhitespace`. */
  predicate HasText(s: Option<string>)
    ensures !HasText(s) <==> s.None? || forall i | 0 <= i < |s.value| :: IsJavaWhitespace(s.value[i])
  {
    s.Some? && exists i | 0 <= i < |s.value| :: !IsJavaWhitespace(s.value[i])
  }

  /** A character that `String.trim` strips (code point at most U+0020). */
  predicate IsTrimmable(c: char)
  {
    c <= ' '
  }

  /** A string `String.trim` leaves as it is: empty, or starting and ending
      with a character above U+0020. */
  predicate IsTrimmed(s: string)
  {
    s == [] || (!IsTrimmable(s[0]) && !IsTrimmable(s[|s| - 1]))
  }

  /** Number of leading characters `String.trim` strips. */
  function LeadingTrimmable(s: string): (n: nat)
    ensures n <= |s|
    ensures forall k :: 0 <= k < n ==> IsTrimmable(s[k])
    ensures n < |s| ==> !IsTrimmable(s[n])
  {
    if s == [] || !IsTrimmable(s[0]) then 0 else 1 + LeadingTrimmable(s[1..])
  }

  /** Number of trailing characters `String.trim` strips. */
  function TrailingTrimmable(s: string): (n: nat)
    ensures n <= |s|
    ensures forall k :: |s| - n <= k < |s| ==> IsTrimmable(s[k])
    ensures n < |s| ==> !IsTrimmable(s[|s| - n - 1])
  {
    if s == [] || !IsTrimmable(s[|s| - 1]) then 0 else 1 + TrailingTrimmable(s[..|s| - 1])
  }

  /** `String.trim`: skip the leading characters up to U+0020, then drop the
      trailing ones from what is left. */
  function Trim(s: string): (r: string)
    ensures IsTrimmed(r)
    ensures |r| <= |s|
  {
    var start := LeadingTrimmable(s);
    var rest := s[start..];
    rest[..|rest| - TrailingTrimmable(rest)]
  }

  /** The result of `Trim` is the infix of `s` that starts at the first
      character above U+0020 and ends at the last one: everything before and
      after it is at most U+0020. */
  lemma TrimIsInfix(s: string)
    ensures LeadingTrimmable(s) + |Trim(s)| <= |s|
    ensures Trim(s) == s[LeadingTrimmable(s)..LeadingTrimmable(s) + |Trim(s)|]
    ensures forall k :: 0 <= k < LeadingTrimmable(s) ==> IsTrimmable(s[k])
    ensures forall k :: LeadingTrimmable(s) + |Trim(s)| <= k < |s| ==> IsTrimmable(s[k])
  {
  }

  /** A string without any character above U+0020 trims to the empty string,
      and only such a string does. */
  lemma TrimEmptyIff(s: string)
    ensures Trim(s) == [] <==> forall k :: 0 <= k < |s| ==> IsTrimmable(s[k])
  {
    TrimIsInfix(s);
    if forall k :: 0 <= k < |s| ==> IsTrimmable(s[k]) {
      assert LeadingTrimmable(s) == |s|;
    }
  }

  /** Trimming is idempotent. */
  lemma TrimIdempotent(s: string)
    ensures Trim(Trim(s)) == Trim(s)
  {
    var t := Trim(s);
    if t != [] {
      assert LeadingTrimmable(t) == 0;
      assert TrailingTrimmable(t[0..]) == 0 by { assert t[0..] == t; }
    }
  }
  /** A string without characters up to U+0020 at its ends trims to itself. */
  lemma TrimOfPrintable(s: string)
    requires IsTrimmed(s)
    ensures Trim(s) == s
  {
    if s != [] {
      assert LeadingTrimmable(s) == 0;
      assert s[0..] == s;
    }
  }


  /** The characters on which `hasText` and `trim` disagree: control
      characters at most U+0020 that `Character.isWhitespace` does not
      count as white space (U+0000..U+0008 and U+000E..U+001B). */
  predicate IsTrimGap(c: char)
  {
    IsTrimmable(c) && !IsJavaWhitespace(c)
  }

  /** Exactly the strings made of characters up to U+0020, at least one of
      them in the gap, pass `hasText` and still trim to the empty string. */
  lemma HasTextButTrimsEmptyIff(s: string)
    ensures (HasText(Some(s)) && Trim(s) == [])
        <==> ((forall k :: 0 <= k < |s| ==> IsTrimmable(s[k]))
              && exists k :: 0 <= k < |s| && IsTrimGap(s[k]))
  {
    TrimEmptyIff(s);
  }

  /** Without gap characters, a string that has text keeps some text after
      trimming. */
  lemma HasTextTrimsNonEmpty(s: string)
    requires HasText(Some(s))
    requires forall k :: 0 <= k < |s| ==> !IsTrimGap(s[k])
    ensures Trim(s) != []
  {
    TrimEmptyIff(s);
    var i :| 0 <= i < |s| && !IsJavaWhitespace(s[i]);
    assert !IsTrimmable(s[i]);
  }

  /** The decimal digit for `d`. */
  function DigitChar(d: nat): (c: char)
    requires d < 10
    ensures '0' <= c <= '9' && c as int - '0' as int == d
  {
    ('0' as int + d) as char
  }

  predicate IsDigits(s: string)
  {
    forall i :: 0 <= i < |s| ==> '0' <= s[i] <= '9'
  }

  /** The decimal digits of `n`, most significant first, without leading
      zeros. */
  function NatToDecimal(n: nat): (r: string)
    ensures |r| >= 1 && IsDigits(r)
    ensures r[0] != '0' || n == 0
  {
    if n < 10 then [DigitChar(n)] else NatToDecimal(n / 10) + [DigitChar(n % 10)]
  }

  /** `Long.toString` (and so `String.valueOf` of a `Long`): an optional
      minus sign followed by the decimal digits. */
  function LongToString(n: int): string
  {
    if n < 0 then "-" + NatToDecimal(-n) else NatToDecimal(n)
  }

  /** The value of a string of decimal digits. */
  function DecimalValue(s: string): nat
    requires IsDigits(s)
  {
    if s == [] then 0 else 10 * DecimalValue(s[..|s| - 1]) + (s[|s| - 1] as int - '0' as int)
  }

  /** Reading the digits back gives the number. */
  lemma {:induction false} DecimalRoundTrip(n: nat)
    ensures DecimalValue(NatToDecimal(n)) == n
  {
    if n >= 10 {
      var prefix := NatToDecimal(n / 10);
      var r := prefix + [DigitChar(n % 10)];
      assert r[..|r| - 1] == prefix;
      DecimalRoundTrip(n / 10);
    }
  }

  /** The rendering of the identifier the not-found examples use. */
  lemma LongToString9999()
    ensures LongToString(9999) == "9999"
  {
    assert DigitChar(9) == '9';
    assert NatToDecimal(9) == "9";
    assert NatToDecimal(99) == NatToDecimal(9) + [DigitChar(9)] == "99";
    assert NatToDecimal(999) == NatToDecimal(99) + [DigitChar(9)] == "999";
    assert NatToDecimal(9999) == NatToDecimal(999) + [DigitChar(9)] == "9999";
  }

  /** A decimal reading of an optional minus sign and digits: the inverse of
      `LongToString`. */
  function ParseLong(s: string): Option<int>
  {
    if |s| >= 2 && s[0] == '-' && IsDigits(s[1..]) then Some(0 - DecimalValue(s[1..]))
    else if |s| >= 1 && IsDigits(s) then Some(DecimalValue(s))
    else None
  }

  /** Parsing the rendering of a `long` gives it back. */
  lemma LongRoundTrip(n: int)
    ensures ParseLong(LongToString(n)) == Some(n)
  {
    if n < 0 {
      var digits := NatToDecimal(-n);
      var s := "-" + digits;
      assert s == LongToString(n);
      assert |s| >= 2 && s[0] == '-';
      assert s[1..] == digits;
      DecimalRoundTrip(-n);
    } else {
      var digits := NatToDecimal(n);
      assert digits == LongToString(n);
      assert digits[0] != '-';
      DecimalRoundTrip(n);
    }
  }
}
