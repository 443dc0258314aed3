/** C# `int` (System.Int32) semantics on unbounded integers.

    A C# `int` is a Dafny `i32`.  Unchecked `+`, `-`, `*` and the truncating
    cast `(int)` of a `long` are all "compute exactly, then `Wrap`": keeping the
    low 32 bits of a two's-complement value is reduction modulo 2^32, and since
    2^32 divides 2^64 an intermediate 64-bit wrap-around cannot change the low
    32 bits.  Bitwise operators work on the 32-bit pattern, `Unsigned(x)`. */
module Int32 {

  type i32 = x: int | -0x8000_0000 <= x < 0x8000_0000
  type u32 = x: int | 0 <= x < 0x1_0000_0000
  type byte = b: int | 0 <= b < 0x100

  function Pow2(n: nat): (r: nat)
    ensures r >= 1
  {
    if n == 0 then 1 else 2 * Pow2(n - 1)
  }

  /** Truncation to 32 bits: the unique `i32` congruent to `x` modulo 2^32. */
  function Wrap(x: int): (r: i32)
    ensures (x - r) % 0x1_0000_0000 == 0
    ensures -0x8000_0000 <= x < 0x8000_0000 ==> r == x
  {
    var m := x % 0x1_0000_0000;
    if m >= 0x8000_0000 then m - 0x1_0000_0000 else m
  }

  /** The bit pattern of `x` read as an unsigned number, `(uint)x`. */
  function Unsigned(x: i32): (r: u32)
    ensures (r - x) % 0x1_0000_0000 == 0
    ensures x >= 0 <==> r < 0x8000_0000
  {
    if x < 0 then x + 0x1_0000_0000 else x
  }

  lemma WrapUnsigned(x: i32)
    ensures Wrap(Unsigned(x)) == x
  {
  }

  /** Wrapping only the right factor of a product first changes nothing modulo
      2^32 (and in particular not a later `Wrap`). */
  lemma WrapMulRight(a: int, b: int)
    ensures Wrap(a * Wrap(b)) == Wrap(a * b)
  {
    var k := (b - Wrap(b)) / 0x1_0000_0000;
    assert b - Wrap(b) == k * 0x1_0000_0000;
    assert a * b == a * Wrap(b) + (a * k) * 0x1_0000_0000;
    WrapShift(a * Wrap(b), a * k);
  }

  lemma WrapShift(x: int, k: int)
    ensures Wrap(x + k * 0x1_0000_0000) == Wrap(x)
  {
  }

  // ----- bitwise operators on 32-bit patterns -------------------------------

  datatype BitOp = AndOp | OrOp | XorOp

  predicate ApplyBit(op: BitOp, x: bool, y: bool) {
    match op
    case AndOp => x && y
    case OrOp => x || y
    case XorOp => x != y
  }

  /** The low `n` bits of `a op b`, bit by bit from the least significant. */
  function Bitwise(op: BitOp, a: nat, b: nat, n: nat): (r: nat)
    ensures r < Pow2(n)
  {
    if n == 0 then 0
    else (if ApplyBit(op, a % 2 == 1, b % 2 == 1) then 1 else 0) + 2 * Bitwise(op, a / 2, b / 2, n - 1)
  }

  /** `a & b`, `a | b`, `a ^ b` on C# ints. */
  function And(a: i32, b: i32): i32 { Wrap(Bitwise(AndOp, Unsigned(a), Unsigned(b), 32)) }
  function Or(a: i32, b: i32): i32 { Wrap(Bitwise(OrOp, Unsigned(a), Unsigned(b), 32)) }
  function Xor(a: i32, b: i32): i32 { Wrap(Bitwise(XorOp, Unsigned(a), Unsigned(b), 32)) }

  /** Splitting both operands at bit `m` splits the result there too. */
  lemma BitwiseSplit(op: BitOp, la: nat, lb: nat, ha: nat, hb: nat, m: nat, n: nat)
    requires la < Pow2(m) && lb < Pow2(m)
    ensures Bitwise(op, la + Pow2(m) * ha, lb + Pow2(m) * hb, m + n)
         == Bitwise(op, la, lb, m) + Pow2(m) * Bitwise(op, ha, hb, n)
  {
    BitwiseSplitAt(op, la, lb, ha, hb, Pow2(m), m, n);
  }

  /** `BitwiseSplit` with the power of two `P = 2^m` as a parameter. */
  lemma {:induction false} BitwiseSplitAt(op: BitOp, la: nat, lb: nat, ha: nat, hb: nat, P: nat, m: nat, n: nat)
    requires P == Pow2(m) && la < P && lb < P
    ensures Bitwise(op, la + P * ha, lb + P * hb, m + n)
         == Bitwise(op, la, lb, m) + P * Bitwise(op, ha, hb, n)
  {
    if m == 0 {
      assert la == 0 && lb == 0 && P == 1;
      assert la + P * ha == ha && lb + P * hb == hb;
    } else {
      var p := Pow2(m - 1);
      HalfBound(la, p);
      HalfBound(lb, p);
      BitwiseSplitAt(op, la / 2, lb / 2, ha, hb, p, m - 1, n);
      BitwiseSplitStep(op, la, lb, ha, hb, p, P, m, n);
    }
  }

  lemma HalfBound(l: nat, p: nat)
    requires l < 2 * p
    ensures l / 2 < p
  {
  }

  /** The inductive step of `BitwiseSplit`, with `P = 2p` standing for
      `Pow2(m)`: peel off the lowest bit of both sides. */
  lemma BitwiseSplitStep(op: BitOp, la: nat, lb: nat, ha: nat, hb: nat, p: nat, P: nat, m: nat, n: nat)
    requires m >= 1 && P == 2 * p
    requires Bitwise(op, la / 2 + p * ha, lb / 2 + p * hb, (m - 1) + n)
          == Bitwise(op, la / 2, lb / 2, m - 1) + p * Bitwise(op, ha, hb, n)
    ensures Bitwise(op, la + P * ha, lb + P * hb, m + n)
         == Bitwise(op, la, lb, m) + P * Bitwise(op, ha, hb, n)
  {
    var a, b := la + P * ha, lb + P * hb;
    HalfSplit(la, p, ha);
    HalfSplit(lb, p, hb);
    var high := Bitwise(op, ha, hb, n);
    BitwiseUnfold(op, a, b, m + n);
    BitwiseUnfold(op, la, lb, m);
    MulTwice(p, high);
  }

  lemma BitwiseUnfold(op: BitOp, a: nat, b: nat, n: nat)
    requires n > 0
    ensures Bitwise(op, a, b, n)
         == (if ApplyBit(op, a % 2 == 1, b % 2 == 1) then 1 else 0) + 2 * Bitwise(op, a / 2, b / 2, n - 1)
  {
  }

  /** Halving `l + 2p·h` keeps the lowest bit of `l` and halves `l` alone. */
  lemma HalfSplit(l: nat, p: nat, h: nat)
    ensures (l + (2 * p) * h) % 2 == l % 2
    ensures (l + (2 * p) * h) / 2 == l / 2 + p * h
  {
    MulTwice(p, h);
  }

  lemma MulTwice(p: int, x: int)
    ensures (2 * p) * x == 2 * (p * x)
  {
  }

  /** Bits of `a` against zero bits: `&` clears them, `|` and `^` keep them. */
  lemma {:induction false} BitwiseZero(op: BitOp, a: nat, n: nat)
    requires a < Pow2(n)
    ensures Bitwise(op, a, 0, n) == (if op == AndOp then 0 else a)
  {
    if n > 0 {
      BitwiseZero(op, a / 2, n - 1);
    }
  }

  /** A pattern XOR-ed with itself is zero. */
  lemma {:induction false} XorSelf(a: nat, n: nat)
    ensures Bitwise(XorOp, a, a, n) == 0
  {
    if n > 0 {
      XorSelf(a / 2, n - 1);
    }
  }

  /** The sign test `(value & 0x80000000) != 0` holds exactly for negative values. */
  lemma SignBitIsNegative(value: i32)
    ensures (Bitwise(AndOp, Unsigned(value), 0x8000_0000, 32) != 0) <==> value < 0
  {
    var u := Unsigned(value);
    assert Pow2(31) == 0x8000_0000 by { Pow2Values(); }
    var lo := u % 0x8000_0000;
    var hi := u / 0x8000_0000;
    assert u == lo + Pow2(31) * hi;
    assert 0x8000_0000 == 0 + Pow2(31) * 1;
    BitwiseSplit(AndOp, lo, 0, hi, 1, 31, 1);
    BitwiseZero(AndOp, lo, 31);
    assert Bitwise(AndOp, hi, 1, 1) == hi;
  }

  /** `x | 1` sets the lowest bit and keeps the others: the result is odd and
      exceeds `x` by one exactly when `x` is even. */
  lemma OrOneIsOdd(x: i32)
    ensures Or(x, 1) == (if x % 2 == 0 then x + 1 else x)
    ensures Or(x, 1) % 2 == 1
  {
    var u := Unsigned(x);
    assert Or(x, 1) == Wrap(Bitwise(OrOp, u, 1, 32)) by {
      assert Unsigned(1) == 1;
    }
    OrOneBits(u);
    WrapOrOne(x, Bitwise(OrOp, u, 1, 32));
  }

  /** The arithmetic of `OrOneIsOdd`: the pattern of `x` with its lowest bit
      set, wrapped back. */
  lemma WrapOrOne(x: i32, b: int)
    requires b == (if Unsigned(x) % 2 == 0 then Unsigned(x) + 1 else Unsigned(x))
    ensures Wrap(b) == (if x % 2 == 0 then x + 1 else x)
  {
    UnsignedSuccessor(x);
    if x % 2 != 0 {
      WrapUnsigned(x);
    }
  }

  /** The pattern of `x` has the parity of `x`, and the pattern of an even
      `x` plus one wraps to `x + 1`. */
  lemma UnsignedSuccessor(x: i32)
    ensures Unsigned(x) % 2 == x % 2
    ensures x % 2 == 0 ==> Wrap(Unsigned(x) + 1) == x + 1
  {
    if x < 0 {
      assert Unsigned(x) == x + 2 * 0x8000_0000;
    }
  }

  /** Reducing modulo 2^32 keeps the parity. */
  lemma WrapParity(y: int)
    ensures Wrap(y) % 2 == y % 2
  {
    var m := y % 0x1_0000_0000;
    var h := 0x8000_0000 * (y / 0x1_0000_0000);
    assert y == 2 * h + m;
    EvenShift(h, m);
    EvenShift(-0x8000_0000, m);
  }

  lemma EvenShift(h: int, m: int)
    ensures (2 * h + m) % 2 == m % 2
  {
  }

  /** `u | 1` on a 32-bit pattern, as a number. */
  lemma OrOneBits(u: u32)
    ensures Bitwise(OrOp, u, 1, 32) == (if u % 2 == 0 then u + 1 else u)
  {
    assert Pow2(1) == 2;
    assert Pow2(31) == 0x8000_0000 by { Pow2Values(); }
    assert u == u % 2 + Pow2(1) * (u / 2);
    assert 1 == 1 + Pow2(1) * 0;
    BitwiseSplit(OrOp, u % 2, 1, u / 2, 0, 1, 31);
    BitwiseZero(OrOp, u / 2, 31);
    assert Bitwise(OrOp, u % 2, 1, 1) == 1;
  }

  /** `u & 4` picks out bit 2 of the pattern. */
  lemma AndFour(u: u32)
    ensures Bitwise(AndOp, u, 4, 32) == 4 * ((u / 4) % 2)
  {
    assert Pow2(2) == 4;
    assert u == u % 4 + Pow2(2) * (u / 4);
    assert 4 == 0 + Pow2(2) * 1;
    BitwiseSplit(AndOp, u % 4, 0, u / 4, 1, 2, 30);
    BitwiseZero(AndOp, u % 4, 2);
    AndOne(u / 4, 30);
  }

  lemma AndOne(v: nat, n: nat)
    requires n >= 1
    ensures Bitwise(AndOp, v, 1, n) == v % 2
  {
    AndZero(v / 2, n - 1);
  }

  lemma {:induction false} AndZero(a: nat, n: nat)
    ensures Bitwise(AndOp, a, 0, n) == 0
  {
    if n > 0 {
      AndZero(a / 2, n - 1);
    }
  }

  lemma Pow2Values()
    ensures Pow2(16) == 0x1_0000
    ensures Pow2(31) == 0x8000_0000
    ensures Pow2(32) == 0x1_0000_0000
  {
    assert Pow2(8) == 0x100;
    assert Pow2(16) == 0x1_0000 by { assert Pow2(16) == Pow2(8) * Pow2(8) by { Pow2Add(8, 8); } }
    assert Pow2(31) == 0x8000_0000 by { Pow2Add(16, 15); assert Pow2(15) == 0x8000; }
    assert Pow2(32) == 0x1_0000_0000 by { Pow2Add(16, 16); }
  }

  lemma {:induction false} Pow2Add(m: nat, n: nat)
    ensures Pow2(m + n) == Pow2(m) * Pow2(n)
  {
    if m > 0 {
      Pow2Add(m - 1, n);
    }
  }

  // ----- shifts ---------------------------------------------------------------

  /** C#'s `value >> count` on an int: arithmetic (sign-propagating) shift by
      `count & 31`, which is floor division by a power of two. */
  function ShiftRightArith(value: i32, count: int): (r: i32)
    ensures value >= 0 ==> 0 <= r <= value
    ensures value < 0 ==> value <= r < 0
  {
    DivBounds(value, Pow2(count % 32));
    value / Pow2(count % 32)
  }

  lemma DivBounds(x: int, d: int)
    requires d >= 1
    ensures x >= 0 ==> 0 <= x / d <= x
    ensures x < 0 ==> x <= x / d < 0
  {
    if x >= 0 {
      NonNegativeDivBound(x, d);
    } else {
      NegativeDivBound(x, d);
    }
  }

  lemma NonNegativeDivBound(x: int, d: int)
    requires d >= 1 && x >= 0
    ensures 0 <= x / d <= x
  {
    var q, r := x / d, x % d;
    assert x == d * q + r && 0 <= r < d;
    if q > x {
      MulMonotone(q, 1, d);
      assert false;
    }
  }

  lemma NegativeDivBound(x: int, d: int)
    requires d >= 1 && x < 0
    ensures x <= x / d < 0
  {
    var q, r := x / d, x % d;
    assert x == d * q + r && 0 <= r < d;
    if q < x {
      NegativeDivHelper(d, q, x);
      assert false;
    }
  }

  lemma NegativeDivHelper(d: int, q: int, x: int)
    requires d >= 1 && x < 0 && q <= x - 1
    ensures d * q + d <= d * x <= x
  {
    MulMonotone(d, q, x - 1);
    assert d * (x - 1) == d * x - d;
    MulMonotone(-x, 1, d);
    assert (-x) * d == -(d * x);
  }

  lemma MulMonotone(d: int, a: int, b: int)
    requires d >= 0 && a <= b
    ensures d * a <= d * b
  {
  }

  // ----- byte layout (BitConverter, little-endian) ---------------------------

  /** `BitConverter.GetBytes(int)`: four bytes, least significant first. */
  function GetBytes(x: i32): (r: seq<byte>)
    ensures |r| == 4
  {
    var u := Unsigned(x);
    [u % 0x100, (u / 0x100) % 0x100, (u / 0x1_0000) % 0x100, u / 0x100_0000]
  }

  /** The unsigned value of four bytes, least significant first. */
  function LittleEndian(b0: byte, b1: byte, b2: byte, b3: byte): (r: u32)
  {
    b0 as int + 0x100 * (b1 as int) + 0x1_0000 * (b2 as int) + 0x100_0000 * (b3 as int)
  }

  /** `BitConverter.ToInt32(buf, off)`: the little-endian int at `off`. */
  function ToInt32(buf: seq<byte>, off: nat): i32
    requires off + 4 <= |buf|
  {
    Wrap(LittleEndian(buf[off], buf[off + 1], buf[off + 2], buf[off + 3]))
  }

  /** Reading back the bytes of an int gives the int. */
  lemma ToInt32GetBytes(x: i32, prefix: seq<byte>, suffix: seq<byte>)
    ensures ToInt32(prefix + GetBytes(x) + suffix, |prefix|) == x
  {
    var buf := prefix + GetBytes(x) + suffix;
    var bs := GetBytes(x);
    var k := |prefix|;
    assert buf[k] == bs[0] && buf[k + 1] == bs[1] && buf[k + 2] == bs[2] && buf[k + 3] == bs[3];
    assert LittleEndian(bs[0], bs[1], bs[2], bs[3]) == Unsigned(x) by {
      ByteDecomposition(Unsigned(x));
    }
    WrapUnsigned(x);
  }

  lemma ByteDecomposition(u: u32)
    ensures u == u % 0x100 + 0x100 * ((u / 0x100) % 0x100) + 0x1_0000 * ((u / 0x1_0000) % 0x100)
                 + 0x100_0000 * (u / 0x100_0000)
  {
  }

  /** Writing out the int read at `off` gives the four bytes read. */
  lemma GetBytesToInt32(buf: seq<byte>, off: nat)
    requires off + 4 <= |buf|
    ensures GetBytes(ToInt32(buf, off)) == buf[off..off + 4]
  {
    var v := LittleEndian(buf[off], buf[off + 1], buf[off + 2], buf[off + 3]);
    UnsignedWrap(v);
    LittleEndianBytes(buf[off], buf[off + 1], buf[off + 2], buf[off + 3]);
  }

  lemma UnsignedWrap(v: u32)
    ensures Unsigned(Wrap(v)) == v
  {
  }

  lemma LittleEndianBytes(b0: byte, b1: byte, b2: byte, b3: byte)
    ensures var v := LittleEndian(b0, b1, b2, b3);
      v % 0x100 == b0 && (v / 0x100) % 0x100 == b1 && (v / 0x1_0000) % 0x100 == b2 && v / 0x100_0000 == b3
  {
    var v := LittleEndian(b0, b1, b2, b3);
    assert v % 0x100 == b0;
    assert (v / 0x100) % 0x100 == b1 by {
      assert v / 0x100 == b1 as int + 0x100 * (b2 as int + 0x100 * b3 as int);
    }
    assert (v / 0x1_0000) % 0x100 == b2 by {
      assert v / 0x1_0000 == b2 as int + 0x100 * b3 as int;
    }
    assert v / 0x100_0000 == b3;
  }

  /** `Math.Clamp(v, lo, hi)`, which throws unless `lo <= hi`. */
  function Clamp(v: int, lo: int, hi: int): (r: int)
    requires lo <= hi
    ensures lo <= r <= hi
    ensures lo <= v <= hi ==> r == v
    ensures v < lo ==> r == lo
    ensures v > hi ==> r == hi
  {
    if v < lo then lo else if v > hi then hi else v
  }
}
