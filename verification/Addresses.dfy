/**
 * The length and alphabet checks of packages/chain/src/addresses.ts, and why every key and every
 * signature the codec prints passes them.
 */
module Addresses {
  import opened Radix
  import opened Base58

  const PUBKEY_MIN := 32
  const PUBKEY_MAX := 44
  const SIG_MIN := 80
  const SIG_MAX := 90

  /** The character class of the source's regular expression. */
  predicate Base58Class(c: char) {
    || '1' <= c <= '9' || 'A' <= c <= 'H' || 'J' <= c <= 'N'
    || 'P' <= c <= 'Z' || 'a' <= c <= 'k' || 'm' <= c <= 'z'
  }

  predicate IsValidBase58(value: string) {
    |value| > 0 && forall i :: 0 <= i < |value| ==> Base58Class(value[i])
  }

  predicate IsValidSolanaPubkey(value: string) {
    IsValidBase58(value) && PUBKEY_MIN <= |value| <= PUBKEY_MAX
  }

  predicate IsValidTxSignature(value: string) {
    IsValidBase58(value) && SIG_MIN <= |value| <= SIG_MAX
  }

  /** The validator's alphabet is the codec's: it accepts exactly the nonempty decodable strings. */
  lemma ValidIffDecodable(value: string)
    ensures IsValidBase58(value) <==> value != "" && Decode(value).Ok?
  {
    forall i | 0 <= i < |value|
      ensures Base58Class(value[i]) <==> Position(value[i]) < 58
    {
    }
  }

  // ---------------------------------------------------------------- lengths

  /** The fewest characters that 11 base-58 digits for 8 bytes allow for `k` bytes. */
  function MaxChars(k: nat): nat { (11 * k + 7) / 8 }

  lemma PowStep(b: nat, e: nat)
    ensures Pow(b, e + 1) == b * Pow(b, e)
  {
  }

  lemma Powers58()
    ensures Pow(58, 0) == 1
    ensures Pow(58, 2) == 3364
    ensures Pow(58, 3) == 195112
    ensures Pow(58, 5) == 656356768
    ensures Pow(58, 6) == 38068692544
    ensures Pow(58, 7) == 2207984167552
    ensures Pow(58, 9) == 7427658739644928
    ensures Pow(58, 10) == 430804206899405824
    ensures Pow(58, 11) == 24986644000165537792
  {
    PowStep(58, 0); PowStep(58, 1); PowStep(58, 2); PowStep(58, 3); PowStep(58, 4); PowStep(58, 5);
    PowStep(58, 6); PowStep(58, 7); PowStep(58, 8); PowStep(58, 9); PowStep(58, 10);
  }

  lemma Powers256()
    ensures Pow(256, 0) == 1 && Pow(256, 1) == 0x100 && Pow(256, 2) == 0x1_0000
    ensures Pow(256, 3) == 0x100_0000 && Pow(256, 4) == 0x1_0000_0000
    ensures Pow(256, 5) == 0x100_0000_0000 && Pow(256, 6) == 0x1_0000_0000_0000
    ensures Pow(256, 7) == 0x100_0000_0000_0000 && Pow(256, 8) == 0x1_0000_0000_0000_0000
  {
    PowStep(256, 0); PowStep(256, 1); PowStep(256, 2); PowStep(256, 3);
    PowStep(256, 4); PowStep(256, 5); PowStep(256, 6); PowStep(256, 7);
  }

  lemma MulMonotoneRight(c: nat, a: nat, b: nat)
    requires a <= b
    ensures c * a <= c * b
  {
    MulMonotone(a, b, c);
  }

  /** `k` bytes never need more than `MaxChars(k)` base-58 digits. */
  lemma {:induction false} BytesFit(k: nat)
    ensures Pow(256, k) <= Pow(58, MaxChars(k))
  {
    hide Pow;
    Powers58();
    Powers256();
    if k >= 8 {
      BytesFit(k - 8);
      PowAdd(256, k - 8, 8);
      PowAdd(58, MaxChars(k - 8), 11);
      MulMonotone(Pow(256, k - 8), Pow(58, MaxChars(k - 8)), Pow(256, 8));
      MulMonotoneRight(Pow(58, MaxChars(k - 8)), Pow(256, 8), Pow(58, 11));
    }
  }

  lemma {:induction false} PowBaseMonotone(a: nat, b: nat, e: nat)
    requires a <= b
    ensures Pow(a, e) <= Pow(b, e)
  {
    if e > 0 {
      PowBaseMonotone(a, b, e - 1);
      MulMonotone(a, b, Pow(a, e - 1));
      MulMonotoneRight(b, Pow(a, e - 1), Pow(b, e - 1));
    }
  }

  /** An input of `n` bytes is printed in `n` to `MaxChars(n)` characters. */
  lemma EncodedLength(bytes: seq<Byte>)
    ensures |bytes| <= |Encode(bytes)| <= MaxChars(|bytes|)
  {
    hide Value, Digits, Pow;
    var z := LeadingZeros(bytes);
    var rest := bytes[z..];
    var v := Value(bytes, 256);
    assert bytes == Zeros(z) + rest;
    ValueOfZerosPlus(z, rest, 256);
    ConvertRoundTrip(bytes, 256, 58);
    assert |Encode(bytes)| == z + |Digits(v, 58)|;
    ValueBelowPow(rest, 256);
    BytesFit(|rest|);
    DigitCount(v, 58, MaxChars(|rest|));
    if |rest| > 0 {
      ValueAbovePow(rest, 256);
      PowBaseMonotone(58, 256, |rest| - 1);
      DigitCount(v, 58, |rest| - 1);
    }
  }

  /** Every 32-byte key is printed in 32 to 44 characters and passes the key check. */
  lemma EncodedKeyIsValid(key: seq<Byte>)
    requires |key| == 32
    ensures 32 <= |Encode(key)| <= 44
    ensures IsValidSolanaPubkey(Encode(key))
  {
    EncodedLength(key);
    DecodeEncode(key);
    ValidIffDecodable(Encode(key));
  }

  lemma KeyByLength(bytes: seq<Byte>)
    ensures IsValidSolanaPubkey(Encode(bytes)) <==> 32 <= |Encode(bytes)| <= 44
  {
    DecodeEncode(bytes);
    ValidIffDecodable(Encode(bytes));
    hide Encode, IsValidBase58, Decode;
  }

  lemma LengthIs(bytes: seq<Byte>)
    ensures |Encode(bytes)| == LeadingZeros(bytes) + |Digits(Value(bytes, 256), 58)|
  {
    hide Value, Digits, Pow;
    ConvertRoundTrip(bytes, 256, 58);
  }

  /**
   * Which byte strings print as a valid key: exactly those whose zeros and value take 32 to 44 characters.
   * 32 bytes always do; some shorter and some longer strings do too.
   */
  lemma KeyValidIff(bytes: seq<Byte>)
    ensures var z, v := LeadingZeros(bytes), Value(bytes, 256);
            IsValidSolanaPubkey(Encode(bytes))
            <==> z <= 44 && v < Pow(58, 44 - z) && (z < 32 ==> v >= Pow(58, 31 - z))
  {
    hide Value, Digits, Pow, Encode, LeadingZeros, IsValidSolanaPubkey;
    var z, v := LeadingZeros(bytes), Value(bytes, 256);
    KeyByLength(bytes);
    LengthIs(bytes);
    if z <= 44 {
      DigitCount(v, 58, 44 - z);
    }
    if z < 32 {
      DigitCount(v, 58, 31 - z);
    }
  }

  lemma FourFactors(a: nat, x: nat, b: nat, y: nat)
    ensures (a * x) * (b * y) == (a * b) * (x * y)
  {
    assert (a * x) * (b * y) == a * (x * (b * y)) == a * (b * (x * y));
  }

  lemma {:induction false} PowProduct(a: nat, b: nat, e: nat)
    ensures Pow(a, e) * Pow(b, e) == Pow(a * b, e)
  {
    if e > 0 {
      PowProduct(a, b, e - 1);
      FourFactors(a, Pow(a, e - 1), b, Pow(b, e - 1));
    }
  }

  /** 43 base-58 digits hold no more than 63 hexadecimal digits, which is tight to within 8%. */
  lemma Pow58To43()
    ensures Pow(58, 43) <= Pow(16, 63)
  {
    Powers58();
    PowAdd(58, 11, 10);
    PowAdd(58, 11, 11);
    PowAdd(58, 22, 21);
    assert Pow(58, 21) == 24986644000165537792 * 430804206899405824 == 10764351351569111513009094806216900608;
    assert Pow(58, 22) == 24986644000165537792 * 24986644000165537792 == 624332378391008467754527498760580235264;
    assert Pow(58, 43) == 624332378391008467754527498760580235264 * 10764351351569111513009094806216900608 == 6720533081161609950612561534326096425053356165724989121353049538245544640512;
    PowStep(16, 0); PowStep(16, 1); PowStep(16, 2); PowStep(16, 3); PowStep(16, 4); PowStep(16, 5); PowStep(16, 6);
    PowAdd(16, 7, 7);
    PowAdd(16, 14, 7);
    PowAdd(16, 21, 21);
    PowAdd(16, 42, 21);
    assert Pow(16, 7) == 268435456;
    assert Pow(16, 14) == 268435456 * 268435456 == 72057594037927936;
    assert Pow(16, 21) == 72057594037927936 * 268435456 == 19342813113834066795298816;
    assert Pow(16, 42) == 19342813113834066795298816 * 19342813113834066795298816 == 374144419156711147060143317175368453031918731001856;
    assert Pow(16, 63) == 374144419156711147060143317175368453031918731001856 * 19342813113834066795298816 == 7237005577332262213973186563042994240829374041602535252466099000494570602496;
  }

  lemma Pow58To86()
    ensures Pow(58, 86) <= Pow(256, 63)
  {
    Pow58To43();
    PowAdd(58, 43, 43);
    PowProduct(16, 16, 63);
    MulMonotone(Pow(58, 43), Pow(16, 63), Pow(58, 43));
    MulMonotoneRight(Pow(16, 63), Pow(58, 43), Pow(16, 63));
  }

  /**
   * Which 64-byte signatures pass the signature check: exactly those that are large enough for the
   * zero bytes they start with. Nothing else about the bytes matters.
   */
  lemma SignatureValidIff(signature: seq<Byte>)
    requires |signature| == 64
    ensures IsValidTxSignature(Encode(signature))
            <==> Value(signature, 256) >= Pow(58, 79 - LeadingZeros(signature))
  {
    hide Value, Digits, Pow, IsValidBase58;
    var z, v := LeadingZeros(signature), Value(signature, 256);
    EncodedLength(signature);
    DecodeEncode(signature);
    ValidIffDecodable(Encode(signature));
    ConvertRoundTrip(signature, 256, 58);
    assert |Encode(signature)| == z + |Digits(v, 58)|;
    DigitCount(v, 58, 79 - z);
  }

  lemma Square(x: nat, y: nat)
    requires x <= y
    ensures x * x <= y * y
  {
    MulMonotone(x, y, x);
    MulMonotoneRight(y, x, y);
  }

  lemma Pow58To15()
    ensures Pow(58, 15) <= Pow(256, 11)
  {
    Powers58();
    Powers256();
    PowAdd(58, 10, 5);
    PowAdd(256, 8, 3);
    assert Pow(58, 15) == 430804206899405824 * 656356768;
    assert Pow(256, 11) == 0x1_0000_0000_0000_0000 * 0x100_0000;
  }

  /** 60 base-58 digits hold no more than 44 bytes. */
  lemma Pow58To60()
    ensures Pow(58, 60) <= Pow(256, 44)
  {
    Pow58To15();
    Square(Pow(58, 15), Pow(256, 11));
    PowAdd(58, 15, 15);
    PowAdd(256, 11, 11);
    Square(Pow(58, 30), Pow(256, 22));
    PowAdd(58, 30, 30);
    PowAdd(256, 22, 22);
  }

  /** Up to 19 leading zero bytes never stop a signature from passing. */
  lemma FewZerosPass(signature: seq<Byte>)
    requires |signature| == 64 && LeadingZeros(signature) <= 19
    ensures IsValidTxSignature(Encode(signature))
  {
    hide Value, Pow;
    var z := LeadingZeros(signature);
    var rest := signature[z..];
    assert signature == Zeros(z) + rest;
    ValueOfZerosPlus(z, rest, 256);
    ValueAbovePow(rest, 256);
    Pow58To60();
    PowBaseMonotone(58, 256, 19 - z);
    PowAdd(58, 60, 19 - z);
    PowAdd(256, 44, 19 - z);
    MulMonotone(Pow(58, 60), Pow(256, 44), Pow(58, 19 - z));
    MulMonotoneRight(Pow(256, 44), Pow(58, 19 - z), Pow(256, 19 - z));
    SignatureValidIff(signature);
  }

  /** Every 64-byte signature with a nonzero first byte is printed in 87 or 88 characters. */
  lemma EncodedSignatureIsValid(signature: seq<Byte>)
    requires |signature| == 64 && signature[0] != 0
    ensures 87 <= |Encode(signature)| <= 88
    ensures IsValidTxSignature(Encode(signature))
  {
    EncodedLength(signature);
    ValueAbovePow(signature, 256);
    Pow58To86();
    DigitCount(Value(signature, 256), 58, 86);
    ConvertRoundTrip(signature, 256, 58);
    FewZerosPass(signature);
  }

  /** The all-zero string is refused: it is printed in 64 characters. */
  lemma ZeroSignatureIsRefused()
    ensures |Encode(Zeros(64))| == 64
    ensures !IsValidTxSignature(Encode(Zeros(64)))
  {
    hide Value, Digits, Pow;
    var s: seq<Byte> := Zeros(64);
    assert s == Zeros(64) + [];
    LeadingZerosOf(64, []);
    ValueOfZerosPlus(64, [], 256);
    NoDigits(256, 58);
    ConvertRoundTrip(s, 256, 58);
    PowMonotone(58, 0, 15);
    SignatureValidIff(s);
  }

  // ---------------------------------------------------------------- constant-time comparison

  lemma XorOr(diff: bv16, x: bv16, y: bv16)
    ensures diff | (x ^ y) == 0 <==> diff == 0 && x == y
  {
    if diff | (x ^ y) == 0 {
      assert diff == 0 && x ^ y == 0;
      assert x == (x ^ y) ^ y;
    }
  }

  /** One step of the comparison; it stays zero exactly while the code units agree. */
  function Mix(diff: bv16, x: bv16, y: bv16): (r: bv16)
    ensures r == 0 <==> diff == 0 && x == y
  {
    XorOr(diff, x, y);
    diff | (x ^ y)
  }

  /** Lines 47-55: XOR every pair of code units and OR the differences together. */
  method SecureEqual(a: seq<bv16>, b: seq<bv16>) returns (equal: bool)
    ensures equal <==> a == b
  {
    hide Mix;
    if |a| != |b| {
      return false;
    }
    var diff: bv16 := 0;
    for i := 0 to |a|
      invariant diff == 0 <==> a[..i] == b[..i]
    {
      assert a[..i + 1] == a[..i] + [a[i]] && b[..i + 1] == b[..i] + [b[i]];
      diff := Mix(diff, a[i], b[i]);
    }
    assert a[..|a|] == a && b[..|b|] == b;
    return diff == 0;
  }
}
