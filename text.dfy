/**
 * Character classes and decimal conversions as Python performs them on ASCII text:
 * `str.isdigit`, `str.isspace`/`str.strip`, `str(n)`, `int(s)` and `str.split(sep)`.
 */
module Text {
  import opened Wrappers

  predicate IsDigit(c: char) { '0' <= c <= '9' }

  /** Python's `str.isspace` restricted to ASCII: space, \t \n \v \f \r and the separators 0x1C-0x1F. */
  predicate IsSpace(c: char) { c == ' ' || '\U{9}' <= c <= '\U{D}' || '\U{1C}' <= c <= '\U{1F}' }

  /** The whitespace `int()` skips around a literal: space and \t \n \v \f \r, but not 0x1C-0x1F. */
  predicate IsIntSpace(c: char) { c == ' ' || '\U{9}' <= c <= '\U{D}' }

  /** `s.isdigit()` for ASCII text: at least one character and every character a digit. */
  predicate IsDigits(s: string) { |s| > 0 && AllDigits(s) }

  predicate AllDigits(s: string) { forall i :: 0 <= i < |s| ==> IsDigit(s[i]) }

  /** `not s.strip()`: the string is empty once surrounding whitespace is removed. */
  predicate IsBlank(s: string) { forall i :: 0 <= i < |s| ==> IsSpace(s[i]) }

  /** Nothing but the whitespace `int()` skips. */
  predicate IsIntBlank(s: string) { forall i :: 0 <= i < |s| ==> IsIntSpace(s[i]) }

  function DigitValue(c: char): (d: nat)
    requires IsDigit(c)
    ensures d < 10
  {
    (c as int) - ('0' as int)
  }

  function DigitChar(d: nat): (c: char)
    requires d < 10
    ensures IsDigit(c) && DigitValue(c) == d
  {
    (('0' as int) + d) as char
  }

  /** The value of a string of decimal digits (leading zeros allowed, as `int("007") == 7`). */
  function ParseNat(s: string): nat
    requires AllDigits(s)
  {
    if s == [] then 0 else 10 * ParseNat(s[..|s| - 1]) + DigitValue(s[|s| - 1])
  }

  /** `str(n)` for a non-negative integer: shortest decimal form, no leading zero. */
  function NatToString(n: nat): (r: string)
    ensures IsDigits(r)
    ensures |r| > 1 ==> r[0] != '0'
    ensures n < 10 <==> |r| == 1
  {
    if n < 10 then [DigitChar(n)] else NatToString(n / 10) + [DigitChar(n % 10)]
  }

  /** `str(i)` for any integer. */
  function IntToString(i: int): (r: string)
    ensures |r| > 0
    ensures r[0] == '-' <==> i < 0
  {
    if i < 0 then "-" + NatToString(-i) else NatToString(i)
  }

  lemma {:induction false} ParseNatToString(n: nat)
    ensures ParseNat(NatToString(n)) == n
  {
    if n >= 10 {
      var s := NatToString(n);
      assert s[..|s| - 1] == NatToString(n / 10);
      ParseNatToString(n / 10);
    }
  }

  function Pow10(k: nat): nat
  {
    if k == 0 then 1 else 10 * Pow10(k - 1)
  }

  /** A natural below `10^k` is written with at most `k` digits. */
  lemma {:induction false} NatToStringLength(n: nat, k: nat)
    requires 1 <= k && n < Pow10(k)
    ensures |NatToString(n)| <= k
  {
    if n >= 10 {
      assert n / 10 < Pow10(k - 1);
      NatToStringLength(n / 10, k - 1);
    }
  }

  /** A larger natural is written with at least as many digits. */
  lemma {:induction false} NatToStringMonotone(a: nat, b: nat)
    requires a <= b
    ensures |NatToString(a)| <= |NatToString(b)|
  {
    if a >= 10 {
      NatToStringMonotone(a / 10, b / 10);
    }
  }

  /** Every integer of fewer than thirteen digits is within the digit limit. */
  lemma ShortIntsWithinLimit(i: int)
    requires -1_000_000_000_000 < i < 1_000_000_000_000
    ensures WithinDigitLimit(i)
  {
    assert Pow10(12) == 1_000_000_000_000;
    NatToStringLength(if i < 0 then -i else i, 12);
  }

  /** A leading zero does not change the value of a digit string. */
  lemma {:induction false} ParseNatLeadingZero(s: string)
    requires AllDigits(s)
    ensures AllDigits("0" + s) && ParseNat("0" + s) == ParseNat(s)
  {
    var t := "0" + s;
    assert AllDigits(t) by {
      forall i | 0 <= i < |t| ensures IsDigit(t[i]) {
        if i > 0 { assert t[i] == s[i - 1]; }
      }
    }
    if s != [] {
      assert t[..|t| - 1] == "0" + s[..|s| - 1];
      ParseNatLeadingZero(s[..|s| - 1]);
    }
  }

  /** Two digits read as a two-digit number. */
  lemma ParseNatTwo(s: string)
    requires |s| == 2 && AllDigits(s)
    ensures ParseNat(s) == 10 * DigitValue(s[0]) + DigitValue(s[1])
  {
    var h := s[..1];
    assert s[..|s| - 1] == h && h[..|h| - 1] == [] && h[|h| - 1] == s[0];
    assert ParseNat(h) == DigitValue(s[0]);
  }

  // ---------------------------------------------------------------------------
  // Python's int(s) on text

  /** `s.strip()`: the string without its leading and trailing whitespace. */
  function Strip(s: string): (r: string)
    ensures |r| <= |s|
    ensures r == [] || (!IsSpace(r[0]) && !IsSpace(r[|r| - 1]))
    ensures r == [] <==> IsBlank(s)
  {
    StripRight(StripLeft(s, IsSpace), IsSpace)
  }

  /** The text without the leading characters of the class `space`. */
  function StripLeft(s: string, space: char -> bool): (r: string)
    ensures |r| <= |s|
    ensures r == [] || !space(r[0])
    ensures r == [] <==> forall i :: 0 <= i < |s| ==> space(s[i])
    ensures r == s[|s| - |r|..]
  {
    if s != [] && space(s[0]) then StripLeft(s[1..], space) else s
  }

  /** The text without the trailing characters of the class `space`. */
  function StripRight(s: string, space: char -> bool): (r: string)
    ensures |r| <= |s|
    ensures r == [] || !space(r[|r| - 1])
    ensures r == [] <==> forall i :: 0 <= i < |s| ==> space(s[i])
    ensures r == s[..|r|]
  {
    if s != [] && space(s[|s| - 1]) then StripRight(s[..|s| - 1], space) else s
  }

  /**
   * The digits of a decimal literal as `int()` accepts them: digits, where single
   * underscores may separate two digits (`"1_000"`).
   */
  predicate DecimalBody(b: string)
  {
    |b| > 0 && IsDigit(b[0]) && DigitGroups(b[1..])
  }

  /** What follows the first digit: digits, each possibly preceded by one underscore. */
  predicate DigitGroups(b: string)
    decreases |b|
  {
    || b == []
    || (IsDigit(b[0]) && DigitGroups(b[1..]))
    || (|b| >= 2 && b[0] == '_' && IsDigit(b[1]) && DigitGroups(b[2..]))
  }

  lemma {:induction false} DigitGroupsChars(b: string)
    requires DigitGroups(b)
    ensures forall i :: 0 <= i < |b| ==> IsDigit(b[i]) || b[i] == '_'
    decreases |b|
  {
    if b != [] {
      if IsDigit(b[0]) && DigitGroups(b[1..]) {
        DigitGroupsChars(b[1..]);
        assert forall i :: 1 <= i < |b| ==> b[i] == b[1..][i - 1];
      } else {
        DigitGroupsChars(b[2..]);
        assert forall i :: 2 <= i < |b| ==> b[i] == b[2..][i - 2];
      }
    }
  }

  lemma {:induction false} DigitsAreGroups(b: string)
    requires AllDigits(b)
    ensures DigitGroups(b)
    decreases |b|
  {
    if b != [] {
      DigitsAreGroups(b[1..]);
    }
  }

  lemma DigitsAreDecimalBody(b: string)
    requires IsDigits(b)
    ensures DecimalBody(b)
  {
    DigitsAreGroups(b[1..]);
  }

  function DropUnderscores(b: string): (r: string)
    ensures (forall i :: 0 <= i < |b| ==> IsDigit(b[i]) || b[i] == '_') ==> AllDigits(r)
    ensures AllDigits(b) ==> r == b
  {
    if b == [] then [] else (if b[0] == '_' then [] else [b[0]]) + DropUnderscores(b[1..])
  }

  /**
   * CPython's default `sys.int_max_str_digits`: `int()` of text spelling more digits than
   * this (leading zeros count, underscores do not) raises ValueError, and `str()` of an
   * integer that long raises too.
   */
  const MaxStrDigits: nat := 4300

  /** The text of the ValueError `int()` raises past the digit limit. */
  function IntLimitError(digits: nat): string
  {
    "Exceeds the limit (4300 digits) for integer string conversion: value has " + NatToString(digits)
      + " digits; use sys.set_int_max_str_digits() to increase the limit"
  }

  /** `str(i)` spells at most `MaxStrDigits` digits, so `str` and `int` accept it. */
  predicate WithinDigitLimit(i: int)
  {
    |NatToString(if i < 0 then -i else i)| <= MaxStrDigits
  }

  /**
   * `int(s)` in base 10: surrounding whitespace (`int()`'s own, narrower than `str.strip`'s),
   * an optional sign, then the digits; `None` is the ValueError.
   */
  function PyInt(s: string): (r: Option<int>)
    ensures r.Some? ==> !IsBlank(s) && !IsIntBlank(s)
  {
    var left := StripLeft(s, IsIntSpace);
    var t := StripRight(left, IsIntSpace);
    var r := SignedDecimal(t);
    assert r.Some? ==> t[0] == s[|s| - |left|] && (|t| > 1 ==> t[1] == s[|s| - |left| + 1]);
    r
  }

  /** A stripped literal: an optional sign, then a decimal body. */
  function SignedDecimal(t: string): (r: Option<int>)
    ensures r.Some? ==> |t| > 0 && (IsDigit(t[0]) || (|t| > 1 && IsDigit(t[1])))
  {
    if t == [] then None
    else
      var body := if t[0] == '-' || t[0] == '+' then t[1..] else t;
      if !DecimalBody(body) then None
      else if |DropUnderscores(body)| > MaxStrDigits then None
      else
        DecimalBodyChars(body);
        var n: int := ParseNat(DropUnderscores(body));
        Some(if t[0] == '-' then -n else n)
  }

  lemma DecimalBodyChars(b: string)
    requires DecimalBody(b)
    ensures forall i :: 0 <= i < |b| ==> IsDigit(b[i]) || b[i] == '_'
  {
    DigitGroupsChars(b[1..]);
    assert forall i :: 1 <= i < |b| ==> b[i] == b[1..][i - 1];
  }

  /** Text with no `int` whitespace at either end is read as a signed literal. */
  lemma PyIntOfTrimmed(s: string)
    requires s != [] && !IsIntSpace(s[0]) && !IsIntSpace(s[|s| - 1])
    ensures PyInt(s) == SignedDecimal(s)
  {
    StripNoSpace(s);
  }

  lemma StripNoSpace(s: string)
    requires s != [] && !IsIntSpace(s[0]) && !IsIntSpace(s[|s| - 1])
    ensures StripRight(StripLeft(s, IsIntSpace), IsIntSpace) == s
  {
  }

  /** A plain or negated digit string is read as its value, unless it is over the digit limit. */
  lemma SignedDecimalOfDigits(d: string)
    requires IsDigits(d)
    ensures SignedDecimal(d) == if |d| <= MaxStrDigits then Some(ParseNat(d)) else None
    ensures SignedDecimal("-" + d) == if |d| <= MaxStrDigits then Some(0 - ParseNat(d)) else None
  {
    DigitsAreDecimalBody(d);
    assert DropUnderscores(d) == d;
    PlainDecimal(d);
    NegatedDecimal(d);
  }

  lemma PlainDecimal(d: string)
    requires IsDigits(d) && DecimalBody(d) && DropUnderscores(d) == d
    ensures SignedDecimal(d) == if |d| <= MaxStrDigits then Some(ParseNat(d)) else None
  {
    assert d[0] != '-' && d[0] != '+';
  }

  lemma NegatedDecimal(d: string)
    requires IsDigits(d) && DecimalBody(d) && DropUnderscores(d) == d
    ensures SignedDecimal("-" + d) == if |d| <= MaxStrDigits then Some(0 - ParseNat(d)) else None
  {
    var t := "-" + d;
    assert t[0] == '-' && t[1..] == d;
    NegativeLiteral(t, d);
  }

  lemma NegativeLiteral(t: string, d: string)
    requires |t| > 0 && t[0] == '-' && t[1..] == d
    requires IsDigits(d) && DecimalBody(d) && DropUnderscores(d) == d
    ensures SignedDecimal(t) == if |d| <= MaxStrDigits then Some(0 - ParseNat(d)) else None
  {
  }

  /** `int` reads back what `str` writes, within the digit limit; past it `int` raises. */
  lemma {:induction false} PyIntOfIntToString(i: int)
    ensures PyInt(IntToString(i)) == if WithinDigitLimit(i) then Some(i) else None
  {
    var m: nat := if i < 0 then -i else i;
    var d := NatToString(m);
    var s := IntToString(i);
    assert !IsIntSpace(s[0]) && !IsIntSpace(s[|s| - 1]);
    PyIntOfTrimmed(s);
    SignedDecimalOfDigits(d);
    ParseNatToString(m);
    if i < 0 {
      assert s == "-" + d;
    } else {
      assert s == d;
    }
  }

  /**
   * A digit string, possibly followed by whitespace `int` skips such as a newline, is read
   * by `int` as its value; one of more than `MaxStrDigits` digits raises instead.
   */
  lemma {:induction false} PyIntOfDigits(s: string, tail: string)
    requires IsDigits(s) && IsIntBlank(tail)
    ensures PyInt(s + tail) == if |s| <= MaxStrDigits then Some(ParseNat(s)) else None
  {
    var u := s + tail;
    StripRightBlankTail(s, tail);
    SignedDecimalOfDigits(s);
    assert PyInt(u) == SignedDecimal(s);
  }

  /** `int()` of a bare digit string. */
  lemma DigitsReadByInt(s: string)
    requires IsDigits(s)
    ensures PyInt(s) == if |s| <= MaxStrDigits then Some(ParseNat(s)) else None
  {
    PyIntOfDigits(s, "");
    assert s + "" == s;
  }

  lemma {:induction false} StripRightBlankTail(s: string, tail: string)
    requires IsDigits(s) && IsIntBlank(tail)
    ensures StripRight(StripLeft(s + tail, IsIntSpace), IsIntSpace) == s
  {
    assert StripLeft(s + tail, IsIntSpace) == s + tail;
    StripRightBlank(s, tail);
  }

  lemma {:induction false} StripRightBlank(s: string, tail: string)
    requires IsDigits(s) && IsIntBlank(tail)
    ensures StripRight(s + tail, IsIntSpace) == s
    decreases |tail|
  {
    if tail == [] {
      assert s + tail == s;
    } else {
      var u := s + tail;
      assert u[..|u| - 1] == s + tail[..|tail| - 1];
      StripRightBlank(s, tail[..|tail| - 1]);
    }
  }

  /** `str.strip` removes a trailing separator 0x1C-0x1F: `"5\x1c".strip()` is `"5"`. */
  lemma {:induction false} StripRemovesSeparator(d: string, c: char)
    requires IsDigits(d) && '\U{1C}' <= c <= '\U{1F}'
    ensures Strip(d + [c]) == d
  {
    var s := d + [c];
    assert s[0] == d[0] && !IsSpace(s[0]);
    assert StripLeft(s, IsSpace) == s;
    assert s[..|s| - 1] == d && IsSpace(s[|s| - 1]);
    assert !IsSpace(d[|d| - 1]);
    assert StripRight(s, IsSpace) == StripRight(d, IsSpace);
  }

  /** `int()` does not skip those separators: `int("5\x1c")` raises. */
  lemma {:induction false} IntRefusesSeparator(d: string, c: char)
    requires IsDigits(d) && '\U{1C}' <= c <= '\U{1F}'
    ensures PyInt(d + [c]) == None
  {
    var s := d + [c];
    assert StripLeft(s, IsIntSpace) == s;
    assert StripRight(s, IsIntSpace) == s;
    if DigitGroups(s[1..]) {
      DigitGroupsChars(s[1..]);
      assert false;
    }
  }

  // ---------------------------------------------------------------------------
  // str.split(sep)

  /** `s.split(sep)`: the pieces between occurrences of `sep`; never empty. */
  function Split(s: string, sep: char): (parts: seq<string>)
    ensures |parts| >= 1
    ensures sep !in s ==> parts == [s]
  {
    assert [] + s == s;
    SplitFrom(s, sep, [])
  }

  function SplitFrom(s: string, sep: char, acc: string): (parts: seq<string>)
    ensures |parts| >= 1
    ensures sep !in s ==> parts == [acc + s]
    decreases |s|
  {
    if s == [] then assert acc + s == acc; [acc]
    else if s[0] == sep then [acc] + SplitFrom(s[1..], sep, [])
    else
      assert acc + s == (acc + [s[0]]) + s[1..];
      SplitFrom(s[1..], sep, acc + [s[0]])
  }

  /** Splitting `a + [sep] + b` where neither piece holds `sep` gives exactly the two pieces. */
  lemma SplitTwo(a: string, sep: char, b: string)
    requires sep !in a && sep !in b
    ensures Split(a + [sep] + b, sep) == [a, b]
  {
    SplitFromTwo(a, sep, b, []);
    assert [] + a == a;
  }

  lemma {:induction false} SplitFromTwo(a: string, sep: char, b: string, acc: string)
    requires sep !in a && sep !in b
    ensures SplitFrom(a + [sep] + b, sep, acc) == [acc + a, b]
    decreases |a|
  {
    var s := a + [sep] + b;
    if a == [] {
      assert s[0] == sep && s[1..] == b;
      assert SplitFrom(b, sep, []) == [[] + b];
      assert [] + b == b && acc + a == acc;
    } else {
      assert s[0] == a[0] && s[0] != sep;
      assert s[1..] == a[1..] + [sep] + b;
      SplitFromTwo(a[1..], sep, b, acc + [a[0]]);
      assert acc + [a[0]] + a[1..] == acc + a;
    }
  }
}
