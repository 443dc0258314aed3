/** UTF-16, the code-unit view of text that .NET strings expose.

    A Dafny `char` is a Unicode scalar value; a .NET `string` is a sequence of
    16-bit code units in which a value above U+FFFF occupies a surrogate pair.
    `string.Length` counts code units and `Encoding.Unicode.GetBytes` writes
    each code unit as two bytes, least significant first. */
module Utf16 {
  import opened Wrappers
  import opened Int32

  type CodeUnit = u: int | 0 <= u < 0x1_0000

  predicate IsHighSurrogate(u: int) { 0xD800 <= u < 0xDC00 }
  predicate IsLowSurrogate(u: int) { 0xDC00 <= u < 0xE000 }

  /** The code units of one scalar value: itself below U+10000, otherwise a
      high surrogate carrying the upper ten bits and a low surrogate the lower. */
  function EncodeChar(c: char): (r: seq<CodeUnit>)
    ensures |r| == (if c as int < 0x1_0000 then 1 else 2)
    ensures |r| == 1 ==> !IsHighSurrogate(r[0]) && !IsLowSurrogate(r[0])
    ensures |r| == 2 ==> IsHighSurrogate(r[0]) && IsLowSurrogate(r[1])
  {
    if c as int < 0x1_0000 then [c as int]
    else
      var v := c as int - 0x1_0000;
      [0xD800 + v / 0x400, 0xDC00 + v % 0x400]
  }

  /** The code units of a string. */
  function Encode(s: string): (r: seq<CodeUnit>)
    ensures |r| >= |s|
  {
    if |s| == 0 then [] else EncodeChar(s[0]) + Encode(s[1..])
  }

  /** `string.Length`: the number of UTF-16 code units. */
  function Length(s: string): nat {
    |Encode(s)|
  }

  /** Reading code units back as text; an unpaired surrogate is not text. */
  function Decode(units: seq<CodeUnit>): (r: Option<string>)
    decreases |units|
  {
    if |units| == 0 then Some([])
    else if IsHighSurrogate(units[0]) then
      if |units| >= 2 && IsLowSurrogate(units[1]) then
        var c := (0x1_0000 + (units[0] as int - 0xD800) * 0x400 + (units[1] as int - 0xDC00)) as char;
        match Decode(units[2..])
        case Some(rest) => Some([c] + rest)
        case None => None
      else None
    else if IsLowSurrogate(units[0]) then None
    else
      match Decode(units[1..])
      case Some(rest) => Some([units[0] as char] + rest)
      case None => None
  }

  /** The code units of a string identify it: decoding gives the string back. */
  lemma {:induction false} DecodeEncode(s: string)
    ensures Decode(Encode(s)) == Some(s)
  {
    if |s| > 0 {
      var e, tail := EncodeChar(s[0]), Encode(s[1..]);
      DecodeEncode(s[1..]);
      DecodeChar(s[0], tail);
      assert [s[0]] + s[1..] == s;
    }
  }

  lemma DecodeChar(c: char, tail: seq<CodeUnit>)
    requires Decode(tail).Some?
    ensures Decode(EncodeChar(c) + tail) == Some([c] + Decode(tail).value)
  {
    var units := EncodeChar(c) + tail;
    if c as int < 0x1_0000 {
      assert units[1..] == tail;
    } else {
      assert units[2..] == tail;
      var v := c as int - 0x1_0000;
      assert units[0] == 0xD800 + v / 0x400 && units[1] == 0xDC00 + v % 0x400;
      assert (units[0] as int - 0xD800) * 0x400 + (units[1] as int - 0xDC00) == v;
    }
  }

  /** `Encoding.Unicode.GetBytes`: every code unit as two bytes, low first. */
  function LittleEndianBytes(units: seq<CodeUnit>): (r: seq<byte>)
    ensures |r| == 2 * |units|
    ensures forall i :: 0 <= i < |units| ==> r[2 * i] as int + 0x100 * r[2 * i + 1] as int == units[i]
  {
    if |units| == 0 then []
    else
      var rest := LittleEndianBytes(units[1..]);
      var r := [units[0] % 0x100, units[0] / 0x100] + rest;
      assert forall i :: 1 <= i < |units| ==> r[2 * i] == rest[2 * (i - 1)] && r[2 * i + 1] == rest[2 * (i - 1) + 1];
      r
  }

  /** The bytes of a string in the `Encoding.Unicode` (UTF-16LE) encoding. */
  function UnicodeBytes(s: string): (r: seq<byte>)
    ensures |r| == 2 * Length(s)
  {
    LittleEndianBytes(Encode(s))
  }

  /** Text made of characters below U+10000 has one code unit per character. */
  lemma {:induction false} BasicPlaneLength(s: string)
    requires forall i :: 0 <= i < |s| ==> s[i] as int < 0x1_0000
    ensures Length(s) == |s|
  {
    if |s| > 0 {
      BasicPlaneLength(s[1..]);
    }
  }

  /** The length of concatenated text is the sum of the lengths. */
  lemma {:induction false} EncodeAppend(a: string, b: string)
    ensures Encode(a + b) == Encode(a) + Encode(b)
  {
    if |a| == 0 {
      assert a + b == b;
    } else {
      assert (a + b)[1..] == a[1..] + b;
      EncodeAppend(a[1..], b);
    }
  }
}
