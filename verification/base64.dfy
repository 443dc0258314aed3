/** `Convert.ToBase64String`: the base 64 encoding of section 4 of RFC 4648
    (alphabet `A`-`Z`, `a`-`z`, `0`-`9`, `+`, `/`, with `=` padding), and the
    decoding that undoes it. */
module Base64 {
  import opened Wrappers
  import opened Int32

  type Sextet = i: int | 0 <= i < 64

  predicate IsAlphabetChar(c: char) {
    'A' <= c <= 'Z' || 'a' <= c <= 'z' || '0' <= c <= '9' || c == '+' || c == '/'
  }

  /** The value of an alphabet character (Table 1 of RFC 4648). */
  function CharIndex(c: char): (i: Sextet)
    requires IsAlphabetChar(c)
  {
    if 'A' <= c <= 'Z' then c as int - 'A' as int
    else if 'a' <= c <= 'z' then c as int - 'a' as int + 26
    else if '0' <= c <= '9' then c as int - '0' as int + 52
    else if c == '+' then 62
    else 63
  }

  /** The alphabet character of a value (Table 1 of RFC 4648). */
  function IndexChar(i: Sextet): (c: char)
    ensures IsAlphabetChar(c) && CharIndex(c) == i
  {
    if i < 26 then ('A' as int + i) as char
    else if i < 52 then ('a' as int + i - 26) as char
    else if i < 62 then ('0' as int + i - 52) as char
    else if i == 62 then '+'
    else '/'
  }

  /** Three bytes (24 bits) as four characters of six bits each. */
  function EncodeGroup(b0: byte, b1: byte, b2: byte): (r: string)
    ensures |r| == 4 && forall i :: 0 <= i < 4 ==> IsAlphabetChar(r[i])
  {
    [IndexChar(b0 / 4), IndexChar((b0 % 4) * 16 + b1 / 16), IndexChar((b1 % 16) * 4 + b2 / 64), IndexChar(b2 % 64)]
  }

  function Encode(b: seq<byte>): (r: string)
    ensures |r| == 4 * ((|b| + 2) / 3)
    ensures forall i :: 0 <= i < |r| ==> IsAlphabetChar(r[i]) || r[i] == '='
  {
    if |b| == 0 then []
    else if |b| == 1 then [IndexChar(b[0] / 4), IndexChar((b[0] % 4) * 16), '=', '=']
    else if |b| == 2 then [IndexChar(b[0] / 4), IndexChar((b[0] % 4) * 16 + b[1] / 16), IndexChar((b[1] % 16) * 4), '=']
    else EncodeGroup(b[0], b[1], b[2]) + Encode(b[3..])
  }

  /** Four alphabet characters back to three bytes. */
  function DecodeGroup(c0: char, c1: char, c2: char, c3: char): (r: seq<byte>)
    requires IsAlphabetChar(c0) && IsAlphabetChar(c1) && IsAlphabetChar(c2) && IsAlphabetChar(c3)
    ensures |r| == 3
  {
    var i0, i1, i2, i3 := CharIndex(c0), CharIndex(c1), CharIndex(c2), CharIndex(c3);
    [i0 * 4 + i1 / 16, (i1 % 16) * 16 + i2 / 4, (i2 % 4) * 64 + i3]
  }

  /** `Convert.FromBase64String` for text without white space: groups of four
      characters, the last of which may end in one or two `=`. */
  function Decode(s: string): (r: Option<seq<byte>>)
  {
    if |s| == 0 then Some([])
    else if |s| < 4 || !IsAlphabetChar(s[0]) || !IsAlphabetChar(s[1]) then None
    else if |s| == 4 && s[2] == '=' && s[3] == '=' then
      Some([CharIndex(s[0]) * 4 + CharIndex(s[1]) / 16])
    else if !IsAlphabetChar(s[2]) then None
    else if |s| == 4 && s[3] == '=' then
      Some([CharIndex(s[0]) * 4 + CharIndex(s[1]) / 16, (CharIndex(s[1]) % 16) * 16 + CharIndex(s[2]) / 4])
    else if !IsAlphabetChar(s[3]) then None
    else
      match Decode(s[4..])
      case Some(rest) => Some(DecodeGroup(s[0], s[1], s[2], s[3]) + rest)
      case None => None
  }

  /** Decoding undoes encoding, so the encoding loses nothing. */
  lemma {:induction false} DecodeEncode(b: seq<byte>)
    ensures Decode(Encode(b)) == Some(b)
  {
    if |b| == 1 {
      assert b == [b[0]];
      DecodeEncodeOne(b[0]);
    } else if |b| == 2 {
      assert b == [b[0], b[1]];
      DecodeEncodeTwo(b[0], b[1]);
    } else if |b| >= 3 {
      assert b == [b[0], b[1], b[2]] + b[3..];
      DecodeEncode(b[3..]);
      DecodeEncodeGroup(b[0], b[1], b[2], b[3..]);
    }
  }

  lemma DecodeEncodeOne(b0: byte)
    ensures Decode(Encode([b0])) == Some([b0])
  {
    Pack16(b0 % 4, 0);
  }

  lemma DecodeEncodeTwo(b0: byte, b1: byte)
    ensures Decode(Encode([b0, b1])) == Some([b0, b1])
  {
    var s := Encode([b0, b1]);
    Pack16(b0 % 4, b1 / 16);
    Pack4(b1 % 16, 0);
    assert s[2] != '=' && s[3] == '=';
    assert CharIndex(s[0]) * 4 + CharIndex(s[1]) / 16 == b0;
    assert (CharIndex(s[1]) % 16) * 16 + CharIndex(s[2]) / 4 == b1;
  }

  lemma DecodeEncodeGroup(b0: byte, b1: byte, b2: byte, rest: seq<byte>)
    requires Decode(Encode(rest)) == Some(rest)
    ensures Decode(Encode([b0, b1, b2] + rest)) == Some([b0, b1, b2] + rest)
  {
    var b := [b0, b1, b2] + rest;
    assert b[3..] == rest;
    var g, tail := EncodeGroup(b0, b1, b2), Encode(rest);
    var s := g + tail;
    assert Encode(b) == s;
    assert s[4..] == tail;
    assert s[2] != '=' && s[3] != '=';
    GroupRoundTrip(b0, b1, b2);
  }

  lemma GroupRoundTrip(b0: byte, b1: byte, b2: byte)
    ensures var g := EncodeGroup(b0, b1, b2); DecodeGroup(g[0], g[1], g[2], g[3]) == [b0, b1, b2]
  {
    Pack16(b0 % 4, b1 / 16);
    Pack4(b1 % 16, b2 / 64);
  }

  lemma Pack16(x: nat, y: nat)
    requires y < 16
    ensures (x * 16 + y) / 16 == x && (x * 16 + y) % 16 == y
  {
  }

  lemma Pack4(x: nat, y: nat)
    requires y < 4
    ensures (x * 4 + y) / 4 == x && (x * 4 + y) % 4 == y
  {
  }

  /** Eight bytes, the size of the UserChoice hash, take twelve characters of
      which exactly the last is padding. */
  lemma EncodeEight(b: seq<byte>)
    requires |b| == 8
    ensures var r := Encode(b); |r| == 12 && r[11] == '=' && forall i :: 0 <= i < 11 ==> r[i] != '='
  {
    var r, t := Encode(b), Encode(b[3..]);
    assert b[3..][3..] == b[6..];
    var g0, g1, last := EncodeGroup(b[0], b[1], b[2]), EncodeGroup(b[3], b[4], b[5]), Encode(b[6..]);
    assert t == g1 + last;
    assert r == g0 + g1 + last;
    assert last[3] == '=' && forall i :: 0 <= i < 3 ==> IsAlphabetChar(last[i]);
  }
}
