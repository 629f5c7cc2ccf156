/** The BCH codes of the type-info and version-info words: the bit-length
    helper, the remainder loop over 32-bit integers, and the two word
    builders that append to a bit buffer. */
module Bch {
  import opened GF2
  import opened BitVectors
  import opened Faults
  import opened QrTables

  /** A signed 32-bit integer. */
  type Int32 = v: int | -0x8000_0000 <= v < 0x8000_0000

  /** The bits of v read as an unsigned 32-bit integer. */
  function Unsigned(v: Int32): (u: nat)
    ensures u < 0x1_0000_0000
    ensures 0 <= v ==> u == v
  {
    if v < 0 then v + 0x1_0000_0000 else v
  }

  /** Position of the most significant set bit, counting from 1; 0 for 0. The value is shifted as unsigned. */
  method FindMsbSet(value: Int32) returns (numDigits: nat)
    ensures numDigits == BitLength(Unsigned(value))
    ensures numDigits <= 32
  {
    numDigits := 0;
    var v: Int32 := value;
    Pow2Values();
    BitLengthBelow(Unsigned(value), 32);
    while v != 0
      invariant numDigits + BitLength(Unsigned(v)) == BitLength(Unsigned(value))
      decreases Unsigned(v)
    {
      v := Unsigned(v) / 2;
      numDigits := numDigits + 1;
    }
  }

  /** The examples the source documents: 0, 1 and 255 have 0, 1 and 8 significant bits. */
  lemma FindMsbSetExamples()
    ensures BitLength(0) == 0 && BitLength(1) == 1 && BitLength(255) == 8
  {
  }

  /** The BCH code of value over generator poly: the remainder of value * x^(L-1) divided by poly, L the bit length of poly. */
  function BchCode(value: nat, poly: nat): (r: nat)
    requires poly > 0
    ensures BitLength(r) < BitLength(poly)
  {
    var shifted := value * Pow2(BitLength(poly) - 1);
    PolyModIsRemainder(shifted, poly);
    PolyMod(shifted, poly)
  }

  /** The BCH code is the remainder of the shifted value: shorter than the generator, the shifted
      value XOR the code is a carry-less multiple of the generator, and it is the only such value. */
  lemma BchCodeRemainder(value: nat, poly: nat, q: nat, r: nat)
    requires poly > 0
    ensures var shifted := value * Pow2(BitLength(poly) - 1);
      Xor(shifted, BchCode(value, poly)) == CMul(PolyQuot(shifted, poly), poly)
    ensures var shifted := value * Pow2(BitLength(poly) - 1);
      BitLength(r) < BitLength(poly) && Xor(shifted, r) == CMul(q, poly) ==> r == BchCode(value, poly)
  {
    var shifted := value * Pow2(BitLength(poly) - 1);
    PolyModIsRemainder(shifted, poly);
    if BitLength(r) < BitLength(poly) && Xor(shifted, r) == CMul(q, poly) {
      PolyModUnique(shifted, poly, q, r);
    }
  }

  /** Reducing by a multiple of p leaves the remainder unchanged. */
  lemma PolyModXorMultiple(a: nat, q: nat, p: nat)
    requires p > 0
    ensures PolyMod(Xor(a, CMul(q, p)), p) == PolyMod(a, p)
  {
    var c := CMul(q, p);
    var r := PolyMod(a, p);
    PolyModIsRemainder(a, p);
    var q0 := PolyQuot(a, p);
    calc {
      Xor(Xor(a, c), r);
      { XorAssoc(a, c, r); XorComm(c, r); XorAssoc(a, r, c); }
      Xor(Xor(a, r), c);
      { CMulXor(q0, q, p); }
      CMul(Xor(q0, q), p);
    }
    PolyModUnique(Xor(a, c), p, Xor(q0, q), r);
  }

  /** A value already shorter than p is its own remainder. */
  lemma PolyModShort(a: nat, p: nat)
    requires p > 0 && BitLength(a) < BitLength(p)
    ensures PolyMod(a, p) == a
  {
  }

  lemma Pow2Values()
    ensures Pow2(31) == 0x8000_0000 && Pow2(32) == 0x1_0000_0000
  {
    assert Pow2(8) == 256 && Pow2(7) == 128;
    Pow2Add(8, 8);
    Pow2Add(8, 7);
    Pow2Add(16, 15);
    Pow2Add(16, 16);
  }

  /** One step of the remainder loop: cancelling the top bit of v with poly shifted left by s stays within 31 bits, shortens v and keeps its remainder. */
  lemma ReductionStep(v: nat, poly: nat, s: nat)
    requires 0 < poly && v < 0x8000_0000 && BitLength(v) == BitLength(poly) + s
    ensures 0 < poly * Pow2(s) < 0x8000_0000 && s < 32
    ensures Xor(v, poly * Pow2(s)) < 0x8000_0000
    ensures BitLength(Xor(v, poly * Pow2(s))) < BitLength(v)
    ensures PolyMod(Xor(v, poly * Pow2(s)), poly) == PolyMod(v, poly)
  {
    Pow2Values();
    BitLengthBelow(v, 31);
    BitLengthShift(poly, s);
    BitLengthBounds(poly * Pow2(s));
    BitLengthBounds(poly);
    Pow2Mono(BitLength(v), 31);
    XorTopCancels(v, poly * Pow2(s));
    CMulPow2(s, poly);
    PolyModXorMultiple(v, Pow2(s), poly);
    BitLengthBounds(Xor(v, poly * Pow2(s)));
    Pow2Mono(BitLength(Xor(v, poly * Pow2(s))), 31);
  }

  /** The BCH remainder loop over 32-bit integers, for a value whose shift does not overflow. */
  method CalculateBchCode(value: Int32, poly: Int32) returns (r: Int32)
    requires 0 <= value && 0 < poly
    requires value * Pow2(BitLength(poly) - 1) < 0x8000_0000
    ensures r == BchCode(value, poly)
    ensures BitLength(r) < BitLength(poly)
  {
    var msbSetInPoly := FindMsbSet(poly);
    Pow2Values();
    BitLengthBelow(poly, 31);
    // value <<= msbSetInPoly - 1, which stays below 2^31 by the precondition
    MulDouble(value, Pow2(msbSetInPoly - 1));
    var v: Int32 := value * Pow2(msbSetInPoly - 1);
    ghost var v0: nat := v;
    var msbValue := FindMsbSet(v);
    while msbValue >= msbSetInPoly
      invariant 0 <= v && msbValue == BitLength(v)
      invariant PolyMod(v, poly) == PolyMod(v0, poly)
      decreases msbValue
    {
      var s := msbValue - msbSetInPoly;
      ReductionStep(v, poly, s);
      var shiftedPoly: nat := poly * Pow2(s);
      var reduced := Xor(v, shiftedPoly);
      // value ^= poly << s, on two non-negative 32-bit values
      v := reduced;
      msbValue := FindMsbSet(v);
    }
    PolyModShort(v, poly);
    r := v;
  }

  /** Bit lengths of the two generators: 11 for the type-info one, 13 for the version-info one. */
  lemma GeneratorLengths()
    ensures BitLength(TYPE_INFO_POLY) == 11 && BitLength(VERSION_INFO_POLY) == 13
  {
    assert Pow2(10) == 1024 && Pow2(11) == 2048;
    BitLengthUnique(TYPE_INFO_POLY, 11);
    assert Pow2(12) == 4096 && Pow2(13) == 8192;
    BitLengthUnique(VERSION_INFO_POLY, 13);
  }

  /** The source's worked example: the version-info BCH code of version 7 is 0xc94 (x^14 + x^13 + x^12 divided by the generator leaves x^11 + x^10 + x^7 + x^4 + x^2). */
  lemma BchCodeOfVersion7()
    ensures BchCode(7, VERSION_INFO_POLY) == 0xc94
  {
    GeneratorLengths();
    assert Pow2(12) == 4096 && Pow2(11) == 2048;
    assert Pow2(2) == 4;
    XorDisjoint(7, 12, 0xc94);
    CMulPow2(2, VERSION_INFO_POLY);
    BitLengthUnique(0xc94, 12);
    PolyModUnique(7 * 4096, VERSION_INFO_POLY, 4, 0xc94);
  }

  /** The mask ids QRCode accepts: 0 to 7 (its check is not part of this model). */
  predicate IsValidMaskPattern(mask: int)
  {
    0 <= mask < 8
  }

  /** The two bits an error correction level contributes to the type info. */
  type EcBits = b: nat | b < 4

  /** The type-info word appended to the buffer bits: 5 bits of (ecBits << 3) | mask, its
      10-bit BCH code, all XORed with 0x5412; the XOR refuses a buffer that is not then 15 long. */
  function TypeInfoBits(ecBits: EcBits, mask: int, bits: seq<bool>): (r: Result<seq<bool>>)
    ensures r.Ok? ==> |r.value| == 15
    ensures r.Err? <==> !IsValidMaskPattern(mask) || |bits| != 0
    ensures !IsValidMaskPattern(mask) ==> r == Err(InvalidMaskPattern)
  {
    if !IsValidMaskPattern(mask) then Err(InvalidMaskPattern)
    else
      // (ecBits << 3) | mask: the mask fits in the low three bits
      var typeInfo := 8 * ecBits + mask;
      var appended := AppendBits(AppendBits(bits, typeInfo, 5), BchCode(typeInfo, TYPE_INFO_POLY), 10);
      if |appended| != 15 then Err(SizesDiffer)
      else Ok(XorBits(appended, BitsOf(TYPE_INFO_MASK_PATTERN, 15)))
  }

  /** The version-info word appended to the buffer bits: the version in 6 bits, then its 12-bit BCH code;
      a buffer that is not then 18 long is refused. */
  function VersionInfoBits(version: nat, bits: seq<bool>): (r: Result<seq<bool>>)
    requires version < 64
    ensures r.Ok? <==> |bits| == 0
    ensures r.Ok? ==> |r.value| == 18
  {
    var appended := AppendBits(AppendBits(bits, version, 6), BchCode(version, VERSION_INFO_POLY), 12);
    if |appended| != 18 then Err(UnexpectedSize(|appended|)) else Ok(appended)
  }

  /** Builds the type-info word into the caller's buffer, computing the BCH code with the remainder loop. */
  method MakeTypeInfoBits(ecBits: EcBits, mask: int, bits: seq<bool>) returns (r: Result<seq<bool>>)
    ensures r == TypeInfoBits(ecBits, mask, bits)
  {
    if !IsValidMaskPattern(mask) {
      return Err(InvalidMaskPattern);
    }
    var typeInfo := 8 * ecBits + mask;
    var buffer := AppendBits(bits, typeInfo, 5);
    ShiftFits(typeInfo, 5, TYPE_INFO_POLY);
    var bchCode := CalculateBchCode(typeInfo, TYPE_INFO_POLY);
    buffer := AppendBits(buffer, bchCode, 10);
    var maskBits := AppendBits([], TYPE_INFO_MASK_PATTERN, 15);
    if |buffer| != |maskBits| {
      return Err(SizesDiffer);
    }
    r := Ok(XorBits(buffer, maskBits));
  }

  /** Builds the version-info word into the caller's buffer, computing the BCH code with the remainder loop. */
  method MakeVersionInfoBits(version: nat, bits: seq<bool>) returns (r: Result<seq<bool>>)
    requires version < 64
    ensures r == VersionInfoBits(version, bits)
  {
    var buffer := AppendBits(bits, version, 6);
    ShiftFits(version, 6, VERSION_INFO_POLY);
    var bchCode := CalculateBchCode(version, VERSION_INFO_POLY);
    buffer := AppendBits(buffer, bchCode, 12);
    if |buffer| != 18 {
      return Err(UnexpectedSize(|buffer|));
    }
    r := Ok(buffer);
  }

  /** A type-info value (5 bits) or a version (6 bits) shifted past its BCH code stays below 2^31. */
  lemma ShiftFits(value: nat, width: nat, poly: nat)
    requires (width, poly) == (5, TYPE_INFO_POLY) || (width, poly) == (6, VERSION_INFO_POLY)
    requires value < Pow2(width)
    ensures poly > 0 && value * Pow2(BitLength(poly) - 1) < 0x8000_0000
  {
    GeneratorLengths();
    assert Pow2(5) == 32 && Pow2(6) == 64 && Pow2(10) == 1024 && Pow2(12) == 4096;
  }

  /** A value of at most n bits is below 2^n. */
  lemma BelowPow2(v: nat, n: nat)
    requires BitLength(v) <= n
    ensures v < Pow2(n)
  {
    BitLengthBounds(v);
    if v > 0 {
      Pow2Mono(BitLength(v), n);
    }
  }

  /** t in tLen bits followed by c in cLen bits reads as t, then as t * 2^cLen + c. */
  lemma ConcatValue(t: nat, tLen: nat, c: nat, cLen: nat)
    requires t < Pow2(tLen) && c < Pow2(cLen)
    ensures var w := BitsOf(t, tLen) + BitsOf(c, cLen);
      ValueOf(w[..tLen]) == t && ValueOf(w) == t * Pow2(cLen) + c
  {
    var w := BitsOf(t, tLen) + BitsOf(c, cLen);
    assert w[..tLen] == BitsOf(t, tLen);
    ValueOfBitsOf(t, tLen);
    ValueOfBitsOf(c, cLen);
    ValueOfConcat(BitsOf(t, tLen), BitsOf(c, cLen));
  }

  /** t shifted past the code, plus the code, is divisible by the generator. */
  lemma ShiftedPlusCodeDivisible(t: nat, p: nat, cLen: nat)
    requires p > 0 && cLen == BitLength(p) - 1
    ensures BchCode(t, p) < Pow2(cLen)
    ensures PolyMod(t * Pow2(cLen) + BchCode(t, p), p) == 0
  {
    var shifted := t * Pow2(cLen);
    var c := BchCode(t, p);
    assert c == PolyMod(shifted, p);
    BelowPow2(c, cLen);
    XorDisjoint(t, cLen, c);
    PolyModIsRemainder(shifted, p);
    var q := PolyQuot(shifted, p);
    assert shifted + c == CMul(q, p);
    MultipleHasZeroRemainder(q, p);
  }

  /** A BCH codeword: t in tLen bits followed by its code in cLen bits, cLen one less than the generator's
      bit length. Its first tLen bits read back as t, and the whole word is divisible by the generator. */
  lemma Codeword(t: nat, tLen: nat, p: nat, cLen: nat)
    requires t < Pow2(tLen) && p > 0 && cLen == BitLength(p) - 1
    ensures var w := BitsOf(t, tLen) + BitsOf(BchCode(t, p), cLen);
      ValueOf(w[..tLen]) == t && PolyMod(ValueOf(w), p) == 0
  {
    ShiftedPlusCodeDivisible(t, p, cLen);
    ConcatValue(t, tLen, BchCode(t, p), cLen);
  }

  /** Removing the 0x5412 mask from the type-info word leaves the codeword of (ecBits << 3) | mask. */
  lemma TypeInfoUnmasked(ecBits: EcBits, mask: int)
    requires IsValidMaskPattern(mask)
    ensures TypeInfoBits(ecBits, mask, []).Ok?
    ensures var t := 8 * ecBits + mask;
      XorBits(TypeInfoBits(ecBits, mask, []).value, BitsOf(TYPE_INFO_MASK_PATTERN, 15)) ==
      BitsOf(t, 5) + BitsOf(BchCode(t, TYPE_INFO_POLY), 10)
  {
    var t := 8 * ecBits + mask;
    var w := BitsOf(t, 5) + BitsOf(BchCode(t, TYPE_INFO_POLY), 10);
    assert [] + BitsOf(t, 5) == BitsOf(t, 5);
    Unmask(TypeInfoBits(ecBits, mask, []), w, BitsOf(TYPE_INFO_MASK_PATTERN, 15));
  }

  /** The first two of the five type-info bits are the error correction bits. */
  lemma EcField(ecBits: EcBits, mask: int)
    requires IsValidMaskPattern(mask)
    ensures ValueOf(BitsOf(8 * ecBits + mask, 5)[..2]) == ecBits
  {
    assert Pow2(3) == 8 && Pow2(2) == 4;
    var w := BitsOf(ecBits, 2) + BitsOf(mask, 3);
    assert w == BitsOf(8 * ecBits + mask, 5) by {
      BitsOfConcat(ecBits, 2, mask, 3);
      assert ecBits * Pow2(3) == 8 * ecBits;
    }
    assert w[..2] == BitsOf(ecBits, 2);
    ValueOfBitsOf(ecBits, 2);
  }

  /** For a valid mask the type-info word has 15 bits; removing the 0x5412 mask leaves a codeword of the
      type-info generator whose first five bits are the error correction bits and the mask id. */
  lemma TypeInfoWord(ecBits: EcBits, mask: int)
    requires IsValidMaskPattern(mask)
    ensures TypeInfoBits(ecBits, mask, []).Ok?
    ensures var u := XorBits(TypeInfoBits(ecBits, mask, []).value, BitsOf(TYPE_INFO_MASK_PATTERN, 15));
      |u| == 15 && ValueOf(u[..5]) == 8 * ecBits + mask && ValueOf(u[..2]) == ecBits &&
      PolyMod(ValueOf(u), TYPE_INFO_POLY) == 0
  {
    TypeInfoUnmasked(ecBits, mask);
    TypeInfoCodeword(ecBits, mask);
  }

  /** The codeword of (ecBits << 3) | mask: its first five bits read back as that value, its first two as
      the error correction bits, and it is divisible by the type-info generator. */
  lemma TypeInfoCodeword(ecBits: EcBits, mask: int)
    requires IsValidMaskPattern(mask)
    ensures var t := 8 * ecBits + mask;
      var w := BitsOf(t, 5) + BitsOf(BchCode(t, TYPE_INFO_POLY), 10);
      ValueOf(w[..5]) == t && ValueOf(w[..2]) == ecBits && PolyMod(ValueOf(w), TYPE_INFO_POLY) == 0
  {
    var t := 8 * ecBits + mask;
    assert Pow2(5) == 32;
    GeneratorLengths();
    Codeword(t, 5, TYPE_INFO_POLY, 10);
    EcField(ecBits, mask);
    PrefixValue(BitsOf(t, 5), BitsOf(BchCode(t, TYPE_INFO_POLY), 10), 2, ecBits);
  }

  /** A buffer masked with m is unmasked by masking it with m again. */
  lemma Unmask(r: Result<seq<bool>>, w: seq<bool>, m: seq<bool>)
    requires |w| == |m| && r == Ok(XorBits(w, m))
    ensures XorBits(r.value, m) == w
  {
    XorBitsTwice(w, m);
  }

  /** Appending to a buffer leaves the value of its first k bits unchanged. */
  lemma PrefixValue(a: seq<bool>, b: seq<bool>, k: nat, v: nat)
    requires k <= |a| && ValueOf(a[..k]) == v
    ensures ValueOf((a + b)[..k]) == v
  {
    assert (a + b)[..k] == a[..k];
  }

  /** Different (error correction bits, mask id) pairs give different type-info words. */
  lemma TypeInfoInjective(e1: EcBits, m1: int, e2: EcBits, m2: int)
    requires IsValidMaskPattern(m1) && IsValidMaskPattern(m2)
    requires TypeInfoBits(e1, m1, []) == TypeInfoBits(e2, m2, [])
    ensures e1 == e2 && m1 == m2
  {
    TypeInfoWord(e1, m1);
    TypeInfoWord(e2, m2);
  }

  /** The version-info word has 18 bits: a codeword of the version-info generator whose first six bits are the version. */
  lemma VersionInfoWord(version: nat)
    requires version < 64
    ensures VersionInfoBits(version, []).Ok?
    ensures var w := VersionInfoBits(version, []).value;
      ValueOf(w[..6]) == version && PolyMod(ValueOf(w), VERSION_INFO_POLY) == 0
  {
    assert Pow2(6) == 64;
    GeneratorLengths();
    Codeword(version, 6, VERSION_INFO_POLY, 12);
    assert [] + BitsOf(version, 6) == BitsOf(version, 6);
  }

  /** Version 7's word is 000111 followed by 110010010100, i.e. 0x07c94 in 18 bits. */
  lemma VersionInfoOfVersion7()
    ensures VersionInfoBits(7, []) == Ok(BitsOf(0x07c94, 18))
  {
    BchCodeOfVersion7();
    assert Pow2(12) == 4096;
    BitsOfConcat(7, 6, 0xc94, 12);
    assert 7 * Pow2(12) + 0xc94 == 0x07c94;
    var appended := AppendBits(AppendBits([], 7, 6), BchCode(7, VERSION_INFO_POLY), 12);
    assert appended == BitsOf(7, 6) + BitsOf(0xc94, 12);
  }

  /** Writing a in n bits and then b in m bits is writing a * 2^m + b in n + m bits. */
  lemma {:induction false} BitsOfConcat(a: nat, n: nat, b: nat, m: nat)
    requires b < Pow2(m)
    ensures BitsOf(a, n) + BitsOf(b, m) == BitsOf(a * Pow2(m) + b, n + m)
    decreases m
  {
    if m > 0 {
      var v := a * Pow2(m) + b;
      ShiftHalf(a, m, b);
      BitsOfConcat(a, n, b / 2, m - 1);
      calc {
        BitsOf(a, n) + BitsOf(b, m);
        BitsOf(a, n) + (BitsOf(b / 2, m - 1) + [b % 2 == 1]);
        (BitsOf(a, n) + BitsOf(b / 2, m - 1)) + [b % 2 == 1];
        BitsOf(v / 2, n + m - 1) + [v % 2 == 1];
      }
    }
  }

  /** Halving a * 2^m + b, for m > 0 and b below 2^m, halves b and shifts a by one place less. */
  lemma ShiftHalf(a: nat, m: nat, b: nat)
    requires m > 0 && b < Pow2(m)
    ensures b / 2 < Pow2(m - 1)
    ensures (a * Pow2(m) + b) / 2 == a * Pow2(m - 1) + b / 2
    ensures (a * Pow2(m) + b) % 2 == b % 2
  {
    var h := a * Pow2(m - 1);
    MulDouble(a, Pow2(m - 1));
    assert a * Pow2(m) == 2 * h;
  }
}
