/** The UserChoice hash: the value Windows stores next to a user's chosen
    ProgId for a file extension, which this program computes itself so that
    it can set itself as the default handler.

    MD5 and the conversion of a local time to a Windows file time are
    parameters of the model: the former is a function from bytes to a 16-byte
    digest, the latter is represented by its result. */
module UserChoiceHash {
  import opened Wrappers
  import opened Int32
  import opened Text
  import opened Numerals
  import opened Utf16
  import Base64

  /** The fixed text mixed into every hash. */
  const UserExperience: string :=
    "User Choice set via Windows User Experience {D18B6DD5-6124-4341-9318-804003BAFA0B}"

  /** The longest string the .NET runtime allocates, in code units. */
  const MaxStringLength: nat := 0x3FFF_FFDF

  /** A Windows file time: 100-nanosecond intervals since 1601-01-01 UTC.
      `DateTime.ToFileTimeUtc` yields only non-negative `long` values. */
  type FileTime = t: int | 0 <= t < 0x8000_0000_0000_0000

  type Digest = d: seq<byte> | |d| == 16 witness seq(16, _ => 0)

  // ----- the helper `ShiftRight` ---------------------------------------------

  /** `ShiftRight(value, count)`: for a negative value, the arithmetic shift
      XOR-ed with the pattern 0xFFFF0000 (which is -0x10000 as an int). The
      sign test `(value & 0x80000000) != 0` is evaluated in 64 bits in C#,
      where it looks at the same bit 31 as the 32-bit test written here. */
  function ShiftRight(value: i32, count: int): (r: i32)
    ensures count % 32 == 16 ==> r == Unsigned(value) / 0x1_0000 && 0 <= r < 0x1_0000
  {
    SignBitIsNegative(value);
    if Bitwise(AndOp, Unsigned(value), 0x8000_0000, 32) != 0 then
      var r := Xor(ShiftRightArith(value, count), -0x1_0000);
      if count % 32 == 16 then
        NegativeShift16(value);
        r
      else r
    else
      if count % 32 == 16 then
        assert Pow2(16) == 0x1_0000 by { Pow2Values(); }
        ShiftRightArith(value, count)
      else ShiftRightArith(value, count)
  }

  /** For a negative value, clearing the sixteen sign-extended bits of the
      arithmetic shift gives the logical shift. */
  lemma NegativeShift16(value: i32)
    requires value < 0
    ensures Xor(ShiftRightArith(value, 16), -0x1_0000) == Unsigned(value) / 0x1_0000
  {
    Pow2Values();
    var s := ShiftRightArith(value, 16);
    assert s == value / 0x1_0000;
    var u := Unsigned(s);
    var la := u % 0x1_0000;
    ShiftLowBits(value, s, u, la);
    XorHighClear(la, 0xFFFF, 16);
  }

  /** XOR-ing equal upper halves clears them and keeps the lower half. */
  lemma XorHighClear(la: nat, h: nat, m: nat)
    requires la < Pow2(m)
    ensures Bitwise(XorOp, la + Pow2(m) * h, 0 + Pow2(m) * h, m + m) == la
  {
    BitwiseSplit(XorOp, la, 0, h, h, m, m);
    BitwiseZero(XorOp, la, m);
    XorSelf(h, m);
  }

  lemma ShiftLowBits(value: i32, s: int, u: int, la: int)
    requires value < 0 && s == value / 0x1_0000
    requires u == s + 0x1_0000_0000 && la == u % 0x1_0000
    ensures u / 0x1_0000 == 0xFFFF
    ensures la == Unsigned(value) / 0x1_0000
  {
  }

  // ----- the text that is hashed ---------------------------------------------

  /** The file time as sixteen lower-case hexadecimal digits: `(uint)(t >> 32)`
      and `(uint)(t & 0xFFFFFFFF)`, each formatted "X8", then lower-cased. */
  function DateTimeHex(fileTime: FileTime): (r: string)
    ensures |r| == 16
  {
    var hi := (fileTime / 0x1_0000_0000) % 0x1_0000_0000;
    var low := fileTime % 0x1_0000_0000;
    ToLower(UpperHex(hi, 8) + UpperHex(low, 8))
  }

  /** The sixteen digits are lower-case and spell out the whole file time: the
      high word first, then the low word. */
  lemma DateTimeHexValue(fileTime: FileTime)
    ensures forall i :: 0 <= i < 16 ==> IsLowerHex(DateTimeHex(fileTime)[i])
    ensures HexValue(DateTimeHex(fileTime)) == fileTime
  {
    var hi := (fileTime / 0x1_0000_0000) % 0x1_0000_0000;
    var low := fileTime % 0x1_0000_0000;
    var a, b := UpperHex(hi, 8), UpperHex(low, 8);
    assert DateTimeHex(fileTime) == ToLower(a + b);
    assert HexValue(a + b) == fileTime by {
      Pow16Eight();
      UpperHexValue(hi, 8);
      UpperHexValue(low, 8);
      HexValueAppend(a, b);
      FileTimeWords(fileTime);
    }
    LowerHexValue(a + b);
  }

  lemma Pow16Eight()
    ensures Pow16(8) == 0x1_0000_0000
  {
  }

  /** A file time is its high word times 2^32 plus its low word. */
  lemma FileTimeWords(fileTime: FileTime)
    ensures ((fileTime / 0x1_0000_0000) % 0x1_0000_0000) * 0x1_0000_0000 + fileTime % 0x1_0000_0000 == fileTime
  {
  }

  /** The text that is hashed: extension, user SID, ProgId, file time and the
      fixed text, each lower-cased. */
  function BaseInfo(extension: string, userSid: string, progId: string, fileTime: FileTime): (r: string)
    ensures |r| == |extension| + |userSid| + |progId| + 16 + |UserExperience|
  {
    ToLower(extension) + ToLower(userSid) + ToLower(progId) + DateTimeHex(fileTime) + ToLower(UserExperience)
  }

  /** Where the file time sits in the hashed text, and what follows it. */
  lemma BaseInfoLayout(extension: string, userSid: string, progId: string, fileTime: FileTime)
    ensures var r, k := BaseInfo(extension, userSid, progId, fileTime), |extension| + |userSid| + |progId|;
      r[..k] == ToLower(extension + userSid + progId)
      && r[k..k + 16] == DateTimeHex(fileTime)
      && HexValue(r[k..k + 16]) == fileTime
      && r[k + 16..] == ToLower(UserExperience)
  {
    DateTimeHexValue(fileTime);
    LowerAppend(extension, userSid);
    LowerAppend(extension + userSid, progId);
  }

  lemma LowerAppend(a: string, b: string)
    ensures ToLower(a + b) == ToLower(a) + ToLower(b)
  {
  }

  /** The hashed text is at least 98 code units long. */
  lemma BaseInfoLength(extension: string, userSid: string, progId: string, fileTime: FileTime)
    ensures Length(BaseInfo(extension, userSid, progId, fileTime)) >= 98
  {
    var text := BaseInfo(extension, userSid, progId, fileTime);
    assert |UserExperience| == 82;
    assert Length(text) >= |text|;
  }

  // ----- sizes -----------------------------------------------------------------

  /** The `length` computed from a text of `units` code units:
      `((L & 4) <= 1 ? 0 : 1) + (L >> 2) - 1` with `L = units * 2 + 2`. */
  function IterationLength(units: nat): i32 {
    var lengthBase := Wrap(units * 2 + 2);
    Wrap((if And(lengthBase, 4) <= 1 then 0 else 1) + ShiftRightArith(lengthBase, 2) - 1)
  }

  /** For any string .NET can hold, `L & 4` is bit 2 of `L` and `L >> 2` is `L / 4`;
      the hash is empty exactly for texts of at most four code units. */
  lemma IterationLengthValue(units: nat)
    requires units <= MaxStringLength
    ensures var l := 2 * units + 2; IterationLength(units) == (l / 4) % 2 + l / 4 - 1
    ensures IterationLength(units) >= 2 <==> units >= 5
  {
    var l := 2 * units + 2;
    assert Wrap(units * 2 + 2) == l;
    assert Unsigned(l) == l && Unsigned(4) == 4;
    AndFour(l);
    assert Pow2(2) == 4;
    assert ShiftRightArith(l, 2) == l / 4;
  }

  /** `Array.Resize` to `size` when the buffer is shorter: the contents are
      kept and the new bytes are zero. */
  function ZeroExtend(buf: seq<byte>, size: int): (r: seq<byte>)
    ensures |r| == if |buf| < size then size else |buf|
    ensures r[..|buf|] == buf
    ensures forall i :: |buf| <= i < |r| ==> r[i] == 0
  {
    if |buf| < size then buf + seq(size - |buf|, _ => 0) else buf
  }

  // ----- the two mixing loops --------------------------------------------------

  datatype Loop = FirstLoop | SecondLoop

  /** The two values a loop carries from round to round. */
  datatype LoopState = LoopState(outHash1: i32, cache: i32)

  /** The multiplicative keys of a loop, taken from the first two words of the
      MD5 digest with the lowest bit set (plus a constant in the first loop). */
  function Keys(loop: Loop, digest: Digest): (keys: (i32, i32))
  {
    var w0, w1 := Or(ToInt32(digest, 0), 1), Or(ToInt32(digest, 4), 1);
    match loop
    case FirstLoop => (Wrap(w0 + 0x69FB0000), Wrap(w1 + 0x13DB0000))
    case SecondLoop => (w0, w1)
  }

  /** Every key is odd, so every multiplication by a key is invertible modulo
      2^32. */
  lemma KeysOdd(loop: Loop, digest: Digest)
    ensures Keys(loop, digest).0 % 2 == 1 && Keys(loop, digest).1 % 2 == 1
  {
    var a, b := ToInt32(digest, 0), ToInt32(digest, 4);
    KeyOdd(a, if loop == FirstLoop then 0x69FB0000 else 0);
    KeyOdd(b, if loop == FirstLoop then 0x13DB0000 else 0);
  }

  /** `(x | 1) + c` wraps to an odd number when `c` is even. */
  lemma KeyOdd(x: i32, c: int)
    requires c % 2 == 0
    ensures Wrap(Or(x, 1) + c) % 2 == 1
  {
    OrOneIsOdd(x);
    WrapOddSum(Or(x, 1), c);
  }

  /** An odd number plus an even one wraps to an odd number. */
  lemma WrapOddSum(o: int, c: int)
    requires o % 2 == 1 && c % 2 == 0
    ensures Wrap(o + c) % 2 == 1
  {
    WrapParity(o + c);
  }

  /** One round of the first loop on the word read at `pData` and the word
      `r1Value` read after it. */
  function FirstRound(md51: i32, md52: i32, st: LoopState, word: i32, r1Value: i32): LoopState {
    var r0 := Wrap(word + st.outHash1);
    var r1 := Wrap(r0 * md51);
    var r2 := Wrap(0x79F8A395 * r1 + 0x689B6B9F * ShiftRight(r1, 16));
    var r3 := Wrap(0xEA970001 * r2 - 0x3C101569 * ShiftRight(r2, 16));
    var r4 := Wrap(r3 + r1Value);
    var r5 := Wrap(st.cache + r3);
    var r6 := Wrap(r4 * md52);
    var r7 := Wrap(0x59C3AF2D * r6 - 0x2232E0F1 * ShiftRight(r6, 16));
    var outHash1 := Wrap(0x1EC90001 * r7 + 0x35BD1EC9 * ShiftRight(r7, 16));
    LoopState(outHash1, Wrap(r5 + outHash1))
  }

  /** One round of the second loop. */
  function SecondRound(md51: i32, md52: i32, st: LoopState, word: i32, r1Value: i32): LoopState {
    var r0 := Wrap(word + st.outHash1);
    var r1 := Wrap(r0 * md51);
    var r2 := Wrap(0xB1110000 * r1 - 0x30674EEF * ShiftRight(r1, 16));
    var r3 := Wrap(0x5B9F0000 * r2 - 0x78F7A461 * ShiftRight(r2, 16));
    var r4 := Wrap(0x12CEB96D * ShiftRight(r3, 16) - 0x46930000 * r3);
    var r5 := Wrap(0x1D830000 * r4 + 0x257E1D83 * ShiftRight(r4, 16));
    var r6 := Wrap(md52 * (r5 + r1Value));
    var r7 := Wrap(0x16F50000 * r6 - 0x5D8BE90B * ShiftRight(r6, 16));
    var r8 := Wrap(0x96FF0000 * r7 - 0x2C7C6901 * ShiftRight(r7, 16));
    var r9 := Wrap(0x2B890000 * r8 + 0x7C932B89 * ShiftRight(r8, 16));
    var outHash1 := Wrap(0x9F690000 * r9 - 0x405B6097 * ShiftRight(r9, 16));
    LoopState(outHash1, Wrap(outHash1 + st.cache + r5))
  }

  /** In the second loop `r6` multiplies by a 64-bit sum; summing in 32 bits
      first would give the same low 32 bits. */
  lemma SecondRoundSum(md52: i32, r5: i32, r1Value: i32)
    ensures Wrap(md52 * (r5 + r1Value)) == Wrap(md52 * Wrap(r5 + r1Value))
  {
    WrapMulRight(md52, r5 + r1Value);
  }

  /** The round of a loop under its keys, as a step from state and the two
      words read to the next state. */
  function Round(loop: Loop, keys: (i32, i32)): (LoopState, i32, i32) -> LoopState {
    match loop
    case FirstLoop => (st: LoopState, word: i32, r1Value: i32) => FirstRound(keys.0, keys.1, st, word, r1Value)
    case SecondLoop => (st: LoopState, word: i32, r1Value: i32) => SecondRound(keys.0, keys.1, st, word, r1Value)
  }

  /** A read of the buffer in one round: the word at `pData`, and the word
      after it when `pData + 4` is still inside the buffer (0 otherwise).
      `None` when that second word runs past the end, where
      `BitConverter.ToInt32` throws. */
  function ReadWords(buf: seq<byte>, pData: nat): (r: Option<(i32, i32)>)
    requires pData + 4 <= |buf|
    ensures r.None? <==> pData + 4 < |buf| < pData + 8
  {
    if pData + 4 < |buf| then
      if pData + 8 <= |buf| then Some((ToInt32(buf, pData), ToInt32(buf, pData + 4))) else None
    else Some((ToInt32(buf, pData), 0))
  }

  /** The loop `while (counter > 0)` from offset `pData` on: it stops early
      when fewer than four bytes are left, and is `None` if a read throws. */
  function RunLoop(step: (LoopState, i32, i32) -> LoopState, buf: seq<byte>, pData: nat, counter: int, st: LoopState): Option<LoopState>
    decreases if counter > 0 then counter else 0
  {
    if counter <= 0 || pData + 4 > |buf| then Some(st)
    else
      match ReadWords(buf, pData)
      case None => None
      case Some(words) => RunLoop(step, buf, pData + 8, counter - 1, step(st, words.0, words.1))
  }

  /** With room for `counter` strides of eight bytes, no read fails, the early
      exit is never taken and the second word is always read from the buffer. */
  lemma {:induction false} RunLoopInBounds(step: (LoopState, i32, i32) -> LoopState, buf: seq<byte>, pData: nat, counter: int, st: LoopState)
    requires pData + 8 * counter <= |buf|
    ensures RunLoop(step, buf, pData, counter, st).Some?
    ensures counter > 0 ==> ReadWords(buf, pData) == Some((ToInt32(buf, pData), ToInt32(buf, pData + 4)))
    decreases if counter > 0 then counter else 0
  {
    if counter > 0 {
      RunLoopInBounds(step, buf, pData + 8, counter - 1, step(st, ToInt32(buf, pData), ToInt32(buf, pData + 4)));
    }
  }

  /** The loop as written: it returns the final state, the number of rounds run
      and the offset it stopped at. */
  method MixingLoop(step: (LoopState, i32, i32) -> LoopState, buf: seq<byte>, counter0: i32)
      returns (result: Option<LoopState>, rounds: nat, pData: nat)
    ensures result == RunLoop(step, buf, 0, counter0, LoopState(0, 0))
    ensures pData == 8 * rounds
    ensures 8 * counter0 <= |buf| ==> result.Some? && rounds == (if counter0 > 0 then counter0 else 0)
  {
    var st := LoopState(0, 0);
    var counter: int := counter0;
    pData, rounds := 0, 0;
    while counter > 0
      invariant pData == 8 * rounds
      invariant counter0 > 0 ==> 0 <= counter == counter0 - rounds
      invariant counter0 <= 0 ==> rounds == 0 && counter == counter0
      invariant RunLoop(step, buf, pData, counter, st) == RunLoop(step, buf, 0, counter0, LoopState(0, 0))
      invariant 8 * counter0 <= |buf| ==> pData + 8 * counter <= |buf|
      decreases counter
    {
      if pData + 4 > |buf| {
        break;
      }
      var word := ToInt32(buf, pData);
      var r1Value: i32;
      if pData + 4 < |buf| {
        if pData + 8 > |buf| {
          return None, rounds, pData;
        }
        r1Value := ToInt32(buf, pData + 4);
      } else {
        r1Value := 0;
      }
      pData := pData + 8;
      st := step(st, word, r1Value);
      counter := counter - 1;
      rounds := rounds + 1;
    }
    result := Some(st);
    if 8 * counter0 <= |buf| {
      RunLoopInBounds(step, buf, 0, counter0, LoopState(0, 0));
    }
  }

  // ----- output ----------------------------------------------------------------

  /** The eight bytes that are Base64-encoded: the 16-byte `outHash` holds the
      two final states of both loops, and its words are XOR-ed pairwise. */
  function HashBytes(first: LoopState, second: LoopState): (r: seq<byte>)
    ensures r == GetBytes(Xor(second.outHash1, first.outHash1)) + GetBytes(Xor(second.cache, first.cache))
  {
    var outHash := GetBytes(first.outHash1) + GetBytes(first.cache) + GetBytes(second.outHash1) + GetBytes(second.cache);
    OutHashWords(first, second);
    var hashValue1 := Xor(ToInt32(outHash, 8), ToInt32(outHash, 0));
    var hashValue2 := Xor(ToInt32(outHash, 12), ToInt32(outHash, 4));
    GetBytes(hashValue1) + GetBytes(hashValue2)
  }

  lemma OutHashWords(first: LoopState, second: LoopState)
    ensures var outHash := GetBytes(first.outHash1) + GetBytes(first.cache) + GetBytes(second.outHash1) + GetBytes(second.cache);
      ToInt32(outHash, 0) == first.outHash1 && ToInt32(outHash, 4) == first.cache
      && ToInt32(outHash, 8) == second.outHash1 && ToInt32(outHash, 12) == second.cache
  {
    var a, b, c, d := GetBytes(first.outHash1), GetBytes(first.cache), GetBytes(second.outHash1), GetBytes(second.cache);
    var outHash := a + b + c + d;
    assert outHash == [] + a + (b + c + d);
    ToInt32GetBytes(first.outHash1, [], b + c + d);
    assert outHash == a + b + (c + d);
    ToInt32GetBytes(first.cache, a, c + d);
    assert outHash == (a + b) + c + d;
    ToInt32GetBytes(second.outHash1, a + b, d);
    assert outHash == (a + b + c) + d + [];
    ToInt32GetBytes(second.cache, a + b + c, []);
  }

  // ----- the whole computation -------------------------------------------------

  /** `ComputeHash(baseInfo)`: `None` stands for an exception from
      `BitConverter.ToInt32`. */
  function ComputeHash(baseInfo: string, md5: seq<byte> -> Digest): Option<string> {
    var bytesFinal := UnicodeBytes(baseInfo) + [0, 0];
    var digest := md5(bytesFinal);
    var length := IterationLength(Length(baseInfo));
    if length <= 1 then Some([])
    else
      var half := ShiftRightArith(length, 1);
      var buf := ZeroExtend(bytesFinal, Wrap((half + 1) * 8));
      var counter := Wrap(half + 1);
      match RunLoop(Round(FirstLoop, Keys(FirstLoop, digest)), buf, 0, counter, LoopState(0, 0))
      case None => None
      case Some(first) =>
        match RunLoop(Round(SecondLoop, Keys(SecondLoop, digest)), buf, 0, counter, LoopState(0, 0))
        case None => None
        case Some(second) => Some(Base64.Encode(HashBytes(first, second)))
  }

  /** `Generate(extension, progId, userSid, timestamp)` with the file time of
      the timestamp. */
  function Generate(extension: string, progId: string, userSid: string, fileTime: FileTime,
                    md5: seq<byte> -> Digest): Option<string> {
    ComputeHash(BaseInfo(extension, userSid, progId, fileTime), md5)
  }

  /** For a text of at least five code units the loop count, the minimum
      buffer size and the count of rounds are computed without wrap-around,
      and the buffer is made long enough for every round. */
  lemma RoundCount(units: nat)
    requires 5 <= units <= MaxStringLength
    ensures var length := IterationLength(units); var half := ShiftRightArith(length, 1);
      length >= 2 && half == length / 2 && Wrap(half + 1) == half + 1 && Wrap((half + 1) * 8) == 8 * (half + 1)
  {
    IterationLengthValue(units);
    var length := IterationLength(units);
    assert Pow2(1) == 2;
    assert ShiftRightArith(length, 1) == length / 2;
  }

  /** No read of the hash ever fails for text .NET can hold; the hash is empty
      exactly for texts of at most four code units, and otherwise twelve
      Base64 characters of which only the last is padding. */
  lemma ComputeHashShape(baseInfo: string, md5: seq<byte> -> Digest)
    requires Length(baseInfo) <= MaxStringLength
    ensures ComputeHash(baseInfo, md5).Some?
    ensures ComputeHash(baseInfo, md5).value == [] <==> Length(baseInfo) <= 4
    ensures Length(baseInfo) >= 5 ==>
      var r := ComputeHash(baseInfo, md5).value;
      |r| == 12 && r[11] == '=' && forall i :: 0 <= i < 11 ==> r[i] != '='
  {
    var n := Length(baseInfo);
    IterationLengthValue(n);
    if n >= 5 {
      RoundCount(n);
      var bytesFinal := UnicodeBytes(baseInfo) + [0, 0];
      var digest := md5(bytesFinal);
      var half := ShiftRightArith(IterationLength(n), 1);
      var counter := half + 1;
      var buf := ZeroExtend(bytesFinal, Wrap((half + 1) * 8));
      assert |buf| >= 8 * counter;
      var step1, step2 := Round(FirstLoop, Keys(FirstLoop, digest)), Round(SecondLoop, Keys(SecondLoop, digest));
      RunLoopInBounds(step1, buf, 0, counter, LoopState(0, 0));
      RunLoopInBounds(step2, buf, 0, counter, LoopState(0, 0));
      var first, second := RunLoop(step1, buf, 0, counter, LoopState(0, 0)).value, RunLoop(step2, buf, 0, counter, LoopState(0, 0)).value;
      assert ComputeHash(baseInfo, md5) == Some(Base64.Encode(HashBytes(first, second)));
      Base64.EncodeEight(HashBytes(first, second));
    }
  }

  /** `Generate` always yields a twelve-character hash ending in one `=`. */
  lemma GenerateShape(extension: string, progId: string, userSid: string, fileTime: FileTime, md5: seq<byte> -> Digest)
    requires Length(BaseInfo(extension, userSid, progId, fileTime)) <= MaxStringLength
    ensures Generate(extension, progId, userSid, fileTime, md5).Some?
    ensures var r := Generate(extension, progId, userSid, fileTime, md5).value;
      |r| == 12 && r[11] == '=' && forall i :: 0 <= i < 11 ==> r[i] != '='
  {
    BaseInfoLength(extension, userSid, progId, fileTime);
    ComputeHashShape(BaseInfo(extension, userSid, progId, fileTime), md5);
  }
}
