/**
 * The Base58 codec of packages/chain/src/base58.ts: base conversion in growing little-endian
 * arrays with a running carry, one leading '1' for each leading zero byte.
 */
module Base58 {
  import opened Radix

  type Byte = b: nat | b < 256

  datatype Result<+T> = Ok(value: T) | InvalidCharacter

  // ---------------------------------------------------------------- JavaScript's 32-bit operators

  /** ToInt32 of an integer: reduction modulo 2^32 into the signed range. */
  function ToInt32(x: int): int {
    var m := x % 0x1_0000_0000;
    if m >= 0x8000_0000 then m - 0x1_0000_0000 else m
  }

  /** `x | 0` */
  function OrZero(x: int): int { ToInt32(x) }

  /** `x << 8` */
  function ShiftLeft8(x: int): int { ToInt32(ToInt32(x) * 256) }

  /** `x >> 8`, the arithmetic shift, which rounds down */
  function ShiftRight8(x: int): int { ToInt32(x) / 256 }

  /** `x & 0xff` */
  function LowByte(x: int): int { x % 256 }

  // ---------------------------------------------------------------- the alphabet

  /** The character at position `d` of the alphabet. */
  function Letter(d: nat): char
    requires d < 58
  {
    if d < 9 then ('1' as int + d) as char
    else if d < 17 then ('A' as int + d - 9) as char
    else if d < 22 then ('J' as int + d - 17) as char
    else if d < 33 then ('P' as int + d - 22) as char
    else if d < 44 then ('a' as int + d - 33) as char
    else ('m' as int + d - 44) as char
  }

  /** The position of `c` in the alphabet; 58 when it is not there. */
  function Position(c: char): (i: nat)
    ensures i <= 58
    ensures i < 58 ==> Letter(i) == c
    ensures forall d: nat :: d < 58 && Letter(d) == c ==> i == d
  {
    if '1' <= c <= '9' then c as nat - '1' as nat
    else if 'A' <= c <= 'H' then c as nat - 'A' as nat + 9
    else if 'J' <= c <= 'N' then c as nat - 'J' as nat + 17
    else if 'P' <= c <= 'Z' then c as nat - 'P' as nat + 22
    else if 'a' <= c <= 'k' then c as nat - 'a' as nat + 33
    else if 'm' <= c <= 'z' then c as nat - 'm' as nat + 44
    else 58
  }

  function Slice(lo: nat, hi: nat): string
    requires lo <= hi <= 58
  {
    seq(hi - lo, i requires 0 <= i < hi - lo => Letter(lo + i))
  }

  /** `Letter` spells the alphabet of the source. */
  lemma AlphabetSpelling()
    ensures Slice(0, 9) == "123456789"
    ensures Slice(9, 17) == "ABCDEFGH"
    ensures Slice(17, 22) == "JKLMN"
    ensures Slice(22, 33) == "PQRSTUVWXYZ"
    ensures Slice(33, 44) == "abcdefghijk"
    ensures Slice(44, 58) == "mnopqrstuvwxyz"
  {
    assert Letter(0) == '1' && Letter(1) == '2' && Letter(2) == '3' && Letter(3) == '4' && Letter(4) == '5'
        && Letter(5) == '6' && Letter(6) == '7' && Letter(7) == '8' && Letter(8) == '9';
  }

  predicate InAlphabet(s: string) {
    forall i :: 0 <= i < |s| ==> Position(s[i]) < 58
  }

  function CharsOf(ds: seq<nat>): (s: string)
    requires IsDigits(ds, 58)
    ensures |s| == |ds|
    ensures forall i :: 0 <= i < |ds| ==> s[i] == Letter(ds[i])
  {
    seq(|ds|, i requires 0 <= i < |ds| => Letter(ds[i]))
  }

  function PositionsOf(s: string): (ds: seq<nat>)
    ensures |ds| == |s|
    ensures forall i :: 0 <= i < |s| ==> ds[i] == Position(s[i])
  {
    seq(|s|, i requires 0 <= i < |s| => Position(s[i]))
  }

  // ---------------------------------------------------------------- what the codec computes

  function Encode(bytes: seq<Byte>): string {
    assert IsDigits(bytes, 256);
    ConvertRoundTrip(bytes, 256, 58);
    CharsOf(Convert(bytes, 256, 58))
  }

  function Decode(str: string): Result<seq<Byte>> {
    if !InAlphabet(str) then InvalidCharacter else
      ConvertRoundTrip(PositionsOf(str), 58, 256);
      Ok(Convert(PositionsOf(str), 58, 256))
  }

  // ---------------------------------------------------------------- the loops

  lemma SmallIsInt32(x: nat)
    requires x < 0x8000_0000
    ensures ToInt32(x) == x
  {
  }

  /** Carries never exceed 255 while encoding, so the 32-bit operators are exact division by 58. */
  lemma EncodeCarry(carry: nat, d: nat)
    requires carry <= 255 && d < 58
    ensures ShiftLeft8(d) == d * 256
    ensures OrZero((carry + d * 256) / 58) == (carry + d * 256) / 58 <= 255
    ensures OrZero(carry / 58) == carry / 58 <= 255
    ensures carry > 0 ==> OrZero(carry / 58) < carry
  {
    hide ToInt32;
    SmallIsInt32(d);
    SmallIsInt32(d * 256);
    SmallIsInt32((carry + d * 256) / 58);
    SmallIsInt32(carry / 58);
  }

  /** Carries never exceed 57 while decoding, so the 32-bit operators are exact division by 256. */
  lemma DecodeCarry(carry: nat, d: nat)
    requires carry <= 57 && d < 256
    ensures 0 <= ShiftRight8(carry + d * 58) == (carry + d * 58) / 256 <= 57
    ensures 0 <= LowByte(carry + d * 58) == (carry + d * 58) % 256
    ensures 0 <= ShiftRight8(carry) == carry / 256 <= 57
    ensures 0 <= LowByte(carry) == carry % 256
    ensures carry > 0 ==> ShiftRight8(carry) < carry
  {
    hide ToInt32;
    SmallIsInt32(carry + d * 58);
    SmallIsInt32(carry);
  }

  lemma MulAddSplit(before: seq<nat>, j: nat, factor: nat, carry: nat, base: nat)
    requires j < |before| && base >= 2
    ensures var t := carry + before[j] * factor;
            MulAdd(before[j..], factor, carry, base)
            == [t % base] + MulAdd(before[j + 1..], factor, t / base, base)
  {
    assert before[j..] == [before[j]] + before[j + 1..];
    MulAddCons(before[j], before[j + 1..], factor, carry, base);
  }

  /** Writing position `j` of a half-rewritten array moves it from the old part to the new part. */
  lemma Overwrite(out: seq<nat>, before: seq<nat>, j: nat, x: nat)
    requires |out| == j < |before|
    ensures (out + before[j..])[j] == before[j]
    ensures (out + before[j..])[j := x] == (out + [x]) + before[j + 1..]
  {
  }

  lemma AllDigits(ds: seq<nat>, base: nat)
    requires IsDigits(ds, base)
    ensures forall i :: 0 <= i < |ds| ==> ds[i] < base
  {
  }

  lemma Regroup(out: seq<nat>, x: nat, rest: seq<nat>)
    ensures out + ([x] + rest) == (out + [x]) + rest
  {
  }

  /** One step of a carry pass over a half-rewritten array: digit `t % base` is written, `t / base` is carried. */
  lemma CarryStep(before: seq<nat>, j: nat, out: seq<nat>, factor: nat, carry: nat, base: nat)
    requires |out| == j < |before| && base >= 2
    ensures (out + before[j..])[j] == before[j]
    ensures var t := carry + before[j] * factor;
            && (out + before[j..])[j := t % base] == (out + [t % base]) + before[j + 1..]
            && out + MulAdd(before[j..], factor, carry, base)
               == (out + [t % base]) + MulAdd(before[j + 1..], factor, t / base, base)
  {
    hide MulAdd;
    var t := carry + before[j] * factor;
    MulAddSplit(before, j, factor, carry, base);
    Overwrite(out, before, j, t % base);
    Regroup(out, t % base, MulAdd(before[j + 1..], factor, t / base, base));
  }

  /** Lines 13-24: the body of the loop over the bytes, one carry pass over the digits. */
  method AbsorbByte(before: seq<nat>, byte: Byte) returns (digits: seq<nat>)
    requires IsDigits(before, 58)
    ensures digits == MulAdd(before, 256, byte, 58)
  {
    hide *;
    AllDigits(before, 58);
    digits := before;
    var carry: nat := byte;
    var j := 0;
    ghost var out: seq<nat> := [];
    while j < |digits|
      invariant j <= |digits| == |before|
      invariant carry <= 255 && digits == out + before[j..] && |out| == j
      invariant out + MulAdd(before[j..], 256, carry, 58) == MulAdd(before, 256, byte, 58)
    {
      CarryStep(before, j, out, 256, carry, 58);
      EncodeCarry(carry, digits[j]);
      carry := carry + ShiftLeft8(digits[j]);
      digits := digits[j := carry % 58];
      out := out + [carry % 58];
      carry := OrZero(carry / 58);
      j := j + 1;
    }
    assert before[j..] == [];
    MulAddEnd(256, carry, 58);
    while carry > 0
      invariant carry <= 255
      invariant digits + Digits(carry, 58) == MulAdd(before, 256, byte, 58)
    {
      EncodeCarry(carry, 0);
      DigitsUnfold(carry, 58);
      Regroup(digits, carry % 58, Digits(carry / 58, 58));
      digits := digits + [carry % 58];
      carry := OrZero(carry / 58);
    }
    DigitsUnfold(0, 58);
  }

  /** The fallback of line 37 is never taken: a nonempty input never encodes to the empty string. */
  lemma NotEmpty(bytes: seq<Byte>)
    requires |bytes| > 0
    ensures |Encode(bytes)| > 0
  {
    var z := LeadingZeros(bytes);
    if z == 0 {
      DigitsOfValue(bytes, 256);
      DigitsProps(Value(bytes, 256), 58);
    }
  }

  /** Lines 8-38: the digits of the whole input, then one '1' for each leading zero byte. */
  method Base58Encode(bytes: seq<Byte>) returns (str: string)
    ensures str == Encode(bytes)
  {
    hide Value, Digits, Reverse;
    NoDigits(256, 58);
    if |bytes| == 0 {
      return "";
    }
    var digits: seq<nat> := [];
    for i := 0 to |bytes|
      invariant digits == Digits(Value(bytes[..i], 256), 58)
    {
      ghost var n := Value(bytes[..i], 256);
      DigitsProps(n, 58);
      digits := AbsorbByte(digits, bytes[i]);
      MulAddIsExact(n, 256, bytes[i], 58);
      ValueSnoc(bytes[..i], bytes[i], 256);
      assert bytes[..i + 1] == bytes[..i] + [bytes[i]];
    }
    assert bytes[..|bytes|] == bytes;
    DigitsProps(Value(bytes, 256), 58);

    str := "";
    var z := 0;
    while z < |bytes| && bytes[z] == 0
      invariant z <= LeadingZeros(bytes)
      invariant str == CharsOf(Zeros(z))
    {
      str := str + "1";
      z := z + 1;
    }
    assert z == LeadingZeros(bytes);
    var i := |digits|;
    ghost var tail := Reverse(digits);
    while i > 0
      invariant 0 <= i <= |digits|
      invariant IsDigits(Zeros(z) + tail[..|digits| - i], 58)
      invariant str == CharsOf(Zeros(z) + tail[..|digits| - i])
    {
      i := i - 1;
      str := str + [Letter(digits[i])];
    }
    assert tail[..|digits|] == tail;
    NotEmpty(bytes);
    str := if |str| > 0 then str else "1";
  }

  /** Lines 50-59: the body of the loop over the characters, one carry pass over the bytes. */
  method AbsorbChar(before: seq<nat>, val: nat) returns (bytes: seq<nat>)
    requires IsDigits(before, 256) && val < 58
    ensures bytes == MulAdd(before, 58, val, 256)
  {
    hide *;
    AllDigits(before, 256);
    bytes := before;
    var carry: nat := val;
    var j := 0;
    ghost var out: seq<nat> := [];
    while j < |bytes|
      invariant j <= |bytes| == |before|
      invariant carry <= 57 && bytes == out + before[j..] && |out| == j
      invariant out + MulAdd(before[j..], 58, carry, 256) == MulAdd(before, 58, val, 256)
    {
      CarryStep(before, j, out, 58, carry, 256);
      DecodeCarry(carry, before[j]);
      carry := carry + bytes[j] * 58;
      bytes := bytes[j := LowByte(carry)];
      out := out + [LowByte(carry)];
      carry := ShiftRight8(carry);
      j := j + 1;
    }
    assert before[j..] == [];
    MulAddEnd(58, carry, 256);
    while carry > 0
      invariant carry <= 57
      invariant bytes + Digits(carry, 256) == MulAdd(before, 58, val, 256)
    {
      DecodeCarry(carry, 0);
      DigitsUnfold(carry, 256);
      Regroup(bytes, carry % 256, Digits(carry / 256, 256));
      bytes := bytes + [LowByte(carry)];
      carry := ShiftRight8(carry);
    }
    DigitsUnfold(0, 256);
  }

  lemma FirstLetter(c: char)
    ensures Position(c) == 0 <==> c == '1'
  {
  }

  /** Lines 68-72: the zero bytes, then the computed bytes from the top one down. */
  method WriteOut(zeros: nat, bytes: seq<nat>) returns (out: seq<Byte>)
    requires IsDigits(bytes, 256)
    ensures out == Zeros(zeros) + Reverse(bytes)
  {
    out := seq(zeros + |bytes|, i => 0);
    for i := 0 to |bytes|
      invariant |out| == zeros + |bytes|
      invariant forall k :: 0 <= k < |out| - i ==> out[k] == 0
      invariant forall k :: |out| - i <= k < |out| ==> out[k] == bytes[|out| - 1 - k]
    {
      out := out[|out| - 1 - i := bytes[i]];
    }
  }

  /** Lines 40-73: the bytes of the whole input, then one zero byte for each leading '1'. */
  method Base58Decode(str: string) returns (r: Result<seq<Byte>>)
    ensures r == Decode(str)
  {
    hide Value, Digits, Letter, Position;
    NoDigits(58, 256);
    if |str| == 0 {
      return Ok([]);
    }
    var bytes: seq<nat> := [];
    for i := 0 to |str|
      invariant InAlphabet(str[..i])
      invariant bytes == Digits(Value(PositionsOf(str[..i]), 58), 256)
    {
      var val := Position(str[i]);
      if val == 58 {
        return InvalidCharacter;
      }
      ghost var n := Value(PositionsOf(str[..i]), 58);
      DigitsProps(n, 256);
      bytes := AbsorbChar(bytes, val);
      MulAddIsExact(n, 58, val, 256);
      ValueSnoc(PositionsOf(str[..i]), val, 58);
      assert PositionsOf(str[..i + 1]) == PositionsOf(str[..i]) + [val];
    }
    assert str[..|str|] == str;
    DigitsProps(Value(PositionsOf(str), 58), 256);

    var zeros := 0;
    while zeros < |str| && str[zeros] == '1'
      invariant zeros <= LeadingZeros(PositionsOf(str))
    {
      FirstLetter(str[zeros]);
      zeros := zeros + 1;
    }
    if zeros < |str| {
      FirstLetter(str[zeros]);
    }
    assert zeros == LeadingZeros(PositionsOf(str));
    var out := WriteOut(zeros, bytes);
    return Ok(out);
  }

  // ---------------------------------------------------------------- the codec is a bijection

  lemma PositionsOfChars(ds: seq<nat>)
    requires IsDigits(ds, 58)
    ensures InAlphabet(CharsOf(ds)) && PositionsOf(CharsOf(ds)) == ds
  {
    forall i | 0 <= i < |ds|
      ensures Position(CharsOf(ds)[i]) == ds[i]
    {
      var c := Letter(ds[i]);
      assert CharsOf(ds)[i] == c;
    }
  }

  /** Decoding what was encoded gives the bytes back, for every byte sequence. */
  lemma DecodeEncode(bytes: seq<Byte>)
    ensures InAlphabet(Encode(bytes))
    ensures Decode(Encode(bytes)) == Ok(bytes)
  {
    ConvertRoundTrip(bytes, 256, 58);
    PositionsOfChars(Convert(bytes, 256, 58));
  }

  /** Encoding what was decoded gives the string back, for every string over the alphabet. */
  lemma EncodeDecode(str: string)
    requires InAlphabet(str)
    ensures Decode(str).Ok? && Encode(Decode(str).value) == str
  {
    var ds := PositionsOf(str);
    ConvertRoundTrip(ds, 58, 256);
    assert CharsOf(ds) == str;
  }
}
