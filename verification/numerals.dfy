/** Decimal and hexadecimal numerals as the .NET formatting and parsing
    routines produce and read them (invariant culture, ASCII digits). */
module Numerals {
  import opened Wrappers
  import opened Text
  import opened Int32

  predicate AllDigits(s: string) {
    forall i :: 0 <= i < |s| ==> IsDigit(s[i])
  }

  function DigitChar(d: nat): (c: char)
    requires d < 10
    ensures IsDigit(c)
  {
    ('0' as int + d) as char
  }

  function DigitValue(c: char): (d: nat)
    requires IsDigit(c)
    ensures d < 10 && DigitChar(d) == c
  {
    c as int - '0' as int
  }

  /** The value of a run of decimal digits, most significant first. */
  function DigitsValue(s: string): nat
    requires AllDigits(s)
  {
    if |s| == 0 then 0 else 10 * DigitsValue(s[..|s| - 1]) + DigitValue(s[|s| - 1])
  }

  /** Shortest decimal numeral of `n`. */
  function NatToString(n: nat): (r: string)
    ensures |r| >= 1 && AllDigits(r)
    ensures |r| > 1 ==> r[0] != '0'
  {
    if n < 10 then [DigitChar(n)] else NatToString(n / 10) + [DigitChar(n % 10)]
  }

  /** `int.ToString()`: a '-' sign for negative values, then the digits. */
  function IntToString(n: int): (r: string)
    ensures |r| >= 1 && (r[0] == '-' || IsDigit(r[0])) && IsDigit(r[|r| - 1])
    ensures r[0] == '-' <==> n < 0
  {
    if n < 0 then "-" + NatToString(-n) else NatToString(n)
  }

  /** `int.TryParse(s, out v)` with `NumberStyles.Integer`: optional white
      space around an optional sign and at least one digit; a value outside
      the range of `int` fails like malformed text. */
  function TryParseInt32(s: string): (r: Option<i32>)
    ensures AllWhiteSpace(s) ==> r.None?
  {
    ParseTrimmed(Trim(s))
  }

  /** The parse of text without surrounding white space. */
  function ParseTrimmed(t: string): (r: Option<i32>)
    ensures |t| == 0 ==> r.None?
  {
    if |t| == 0 then None
    else
      var digits := if t[0] == '-' || t[0] == '+' then t[1..] else t;
      if |digits| == 0 || !AllDigits(digits) then None
      else
        var v: int := if t[0] == '-' then -(DigitsValue(digits) as int) else DigitsValue(digits);
        if -0x8000_0000 <= v < 0x8000_0000 then Some(v) else None
  }

  lemma {:induction false} NatToStringValue(n: nat)
    ensures DigitsValue(NatToString(n)) == n
  {
    if n >= 10 {
      var s := NatToString(n);
      assert s[..|s| - 1] == NatToString(n / 10);
      NatToStringValue(n / 10);
    }
  }

  /** Parsing what `int.ToString()` prints gives the number back. */
  lemma ParseIntToString(n: i32)
    ensures TryParseInt32(IntToString(n)) == Some(n)
  {
    if n < 0 {
      ParseNegative(n);
    } else {
      ParseNonNegative(n);
    }
  }

  lemma TrimUntrimmed(s: string)
    requires |s| > 0 && !IsWhiteSpace(s[0]) && !IsWhiteSpace(s[|s| - 1])
    ensures Trim(s) == s
  {
    assert TrimStart(s) == s;
  }

  lemma ParseNegative(n: i32)
    requires n < 0
    ensures TryParseInt32(IntToString(n)) == Some(n)
  {
    var m: nat := -(n as int);
    var digits := NatToString(m);
    var s := "-" + digits;
    assert DigitsValue(digits) == m by {
      NatToStringValue(m);
    }
    assert IntToString(n) == s;
    assert ParseTrimmed(s) == Some(n) by {
      ParseSignedDigits(s, digits);
    }
    assert Trim(s) == s by {
      TrimUntrimmed(s);
    }
  }

  lemma ParseNonNegative(n: i32)
    requires n >= 0
    ensures TryParseInt32(IntToString(n)) == Some(n)
  {
    var s := NatToString(n);
    assert DigitsValue(s) == n by {
      NatToStringValue(n);
    }
    assert IntToString(n) == s;
    assert ParseTrimmed(s) == Some(n) by {
      ParseDigits(s);
    }
    assert Trim(s) == s by {
      TrimUntrimmed(s);
    }
  }

  /** A minus sign followed by the digits of a value in range parses. */
  lemma ParseSignedDigits(s: string, digits: string)
    requires s == "-" + digits && |digits| > 0 && AllDigits(digits)
    requires DigitsValue(digits) <= 0x8000_0000
    ensures ParseTrimmed(s) == Some(-(DigitsValue(digits) as int))
  {
    assert s[0] == '-' && s[1..] == digits;
  }

  /** Unsigned digits of a value in range parse. */
  lemma ParseDigits(s: string)
    requires |s| > 0 && AllDigits(s) && DigitsValue(s) < 0x8000_0000
    ensures ParseTrimmed(s) == Some(DigitsValue(s))
  {
  }

  // ----- hexadecimal ----------------------------------------------------------

  predicate IsLowerHex(c: char) { IsDigit(c) || 'a' <= c <= 'f' }
  predicate IsUpperHex(c: char) { IsDigit(c) || 'A' <= c <= 'F' }

  function UpperHexChar(d: nat): (c: char)
    requires d < 16
    ensures IsUpperHex(c)
  {
    if d < 10 then DigitChar(d) else ('A' as int + d - 10) as char
  }

  /** The value of one hexadecimal digit of either case. */
  function HexDigitValue(c: char): (d: nat)
    requires IsUpperHex(c) || IsLowerHex(c)
    ensures d < 16
  {
    if IsDigit(c) then DigitValue(c)
    else if 'a' <= c <= 'f' then c as int - 'a' as int + 10
    else c as int - 'A' as int + 10
  }

  function HexValue(s: string): nat
    requires forall i :: 0 <= i < |s| ==> IsUpperHex(s[i]) || IsLowerHex(s[i])
  {
    if |s| == 0 then 0 else 16 * HexValue(s[..|s| - 1]) + HexDigitValue(s[|s| - 1])
  }

  function Pow16(n: nat): (r: nat)
    ensures r >= 1
  {
    if n == 0 then 1 else 16 * Pow16(n - 1)
  }

  /** `v.ToString("X" + width)` for `v < 16^width`: upper-case digits,
      zero-padded on the left to `width`. */
  function UpperHex(v: nat, width: nat): (r: string)
    ensures |r| == width
    ensures forall i :: 0 <= i < |r| ==> IsUpperHex(r[i])
  {
    if width == 0 then [] else UpperHex(v / 16, width - 1) + [UpperHexChar(v % 16)]
  }

  lemma {:induction false} UpperHexValue(v: nat, width: nat)
    requires v < Pow16(width)
    ensures HexValue(UpperHex(v, width)) == v
  {
    if width > 0 {
      var s := UpperHex(v, width);
      assert s[..|s| - 1] == UpperHex(v / 16, width - 1);
      assert v / 16 < Pow16(width - 1) by {
        DivSixteenBound(v, Pow16(width - 1));
      }
      UpperHexValue(v / 16, width - 1);
      assert HexDigitValue(s[|s| - 1]) == v % 16 by {
        UpperHexDigit(v % 16);
      }
    }
  }

  lemma DivSixteenBound(v: nat, p: nat)
    requires v < 16 * p
    ensures v / 16 < p
  {
  }

  lemma UpperHexDigit(d: nat)
    requires d < 16
    ensures HexDigitValue(UpperHexChar(d)) == d
  {
  }

  /** Lower-casing keeps hexadecimal digits and their values. */
  lemma {:induction false} LowerHexValue(s: string)
    requires forall i :: 0 <= i < |s| ==> IsUpperHex(s[i])
    ensures forall i :: 0 <= i < |s| ==> IsLowerHex(ToLower(s)[i])
    ensures HexValue(ToLower(s)) == HexValue(s)
  {
    if |s| > 0 {
      var t := ToLower(s);
      assert t[..|t| - 1] == ToLower(s[..|s| - 1]);
      LowerHexValue(s[..|s| - 1]);
    }
  }

  lemma MulAssoc16(x: int, p: int)
    ensures x * (16 * p) == 16 * (x * p)
  {
  }

  /** The value of two numerals written one after the other. */
  lemma {:induction false} HexValueAppend(a: string, b: string)
    requires forall i :: 0 <= i < |a| ==> IsUpperHex(a[i]) || IsLowerHex(a[i])
    requires forall i :: 0 <= i < |b| ==> IsUpperHex(b[i]) || IsLowerHex(b[i])
    ensures HexValue(a + b) == HexValue(a) * Pow16(|b|) + HexValue(b)
  {
    if |b| == 0 {
      assert a + b == a;
    } else {
      var ab, b' := a + b, b[..|b| - 1];
      assert ab[..|ab| - 1] == a + b';
      assert ab[|ab| - 1] == b[|b| - 1];
      assert HexValue(ab) == 16 * HexValue(a + b') + HexDigitValue(b[|b| - 1]);
      assert HexValue(b) == 16 * HexValue(b') + HexDigitValue(b[|b| - 1]);
      assert ab[..|ab| - 1] == a + b';
      var x, p := HexValue(a), Pow16(|b'|);
      assert HexValue(a + b') == x * p + HexValue(b') by {
        HexValueAppend(a, b');
      }
      assert x * Pow16(|b|) == 16 * (x * p) by {
        MulAssoc16(x, p);
      }
    }
  }
}
