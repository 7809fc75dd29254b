/**
 The integer conversions of the scalar field encoders and decoders: sign reinterpretation,
 zigzag, and the clamping check against the width of the struct member.
 */
module Integers {
  import opened Wire
  import opened Descriptor

  /** A C cast to the signed integer type of `width` bytes. */
  function WrapSigned(v: int, width: nat): (r: int)
    ensures -(Modulus(width) / 2) <= r < Modulus(width) / 2
  {
    var m := v % Modulus(width);
    if m < Modulus(width) / 2 then m else m - Modulus(width)
  }

  /** A C cast to the unsigned integer type of `width` bytes. */
  function WrapUnsigned(v: int, width: nat): (r: nat)
    ensures r < Modulus(width)
  {
    v % Modulus(width)
  }

  /** The 64-bit word that pb_encode_svarint writes: `~((uint64_t)v << 1)` or `(uint64_t)v << 1`. */
  function ZigZag(v: int): (u: nat)
    ensures u < TWO_64
  {
    var shifted := (v % TWO_64) * 2 % TWO_64;
    if v < 0 then TWO_64 - 1 - shifted else shifted
  }

  /** The value that pb_decode_svarint reads: `(int64_t)(~(u >> 1))` or `(int64_t)(u >> 1)`. */
  function UnZigZag(u: nat): int {
    if u % 2 == 1 then WrapSigned(TWO_64 - 1 - u / 2, 8) else WrapSigned(u / 2, 8)
  }

  /** The 64-bit word written for the integer `n`: pb_enc_varint, pb_enc_uvarint, pb_enc_svarint. */
  function ToWire(ltype: LType, n: int): (u: nat)
    ensures u < TWO_64
  {
    if ltype.SVarint? then ZigZag(n) else n % TWO_64
  }

  /** The integer a 64-bit word stands for, before it is narrowed to the struct member. */
  function Meaning(ltype: LType, width: nat, u: nat): int {
    if ltype.Varint? then WrapSigned(u, if width == 8 then 8 else 4)
    else if ltype.SVarint? then UnZigZag(u)
    else u
  }

  /** The C cast to the type of the struct member. */
  function Clamp(ltype: LType, width: nat, n: int): (r: int)
    ensures InRange(ltype, width, r)
  {
    if ltype.Varint? || ltype.SVarint? then WrapSigned(n, width) else WrapUnsigned(n, width)
  }

  /** pb_dec_varint, pb_dec_uvarint, pb_dec_svarint after the varint has been read. */
  function FromWire(ltype: LType, width: nat, u: nat): (r: Option<int>)
    ensures r.Some? ==> InRange(ltype, width, r.value)
  {
    var n := Meaning(ltype, width, u);
    if Clamp(ltype, width, n) == n then Some(n) else None
  }

  lemma WrapIsIdentity(n: int, width: nat)
    ensures -(Modulus(width) / 2) <= n < Modulus(width) / 2 <==> WrapSigned(n, width) == n
    ensures 0 <= n < Modulus(width) <==> WrapUnsigned(n, width) == n
  {
    var m := Modulus(width);
    if 0 <= n < m {
      SmallRemainder(n, m);
    } else if -m <= n < 0 {
      Remainder(n, -1, m, n + m);
    }
  }

  /** Two words that differ by a multiple of the modulus are the same after a signed cast. */
  lemma WrapOfWord(n: int, width: nat)
    requires -(Modulus(width) / 2) <= n < Modulus(width) / 2
    requires width in {1, 2, 4, 8}
    ensures WrapSigned(n % TWO_64, width) == n
  {
    if n < 0 {
      Remainder(n, -1, TWO_64, n + TWO_64);
      Remainder(n + TWO_64, TWO_64 / Modulus(width) - 1, Modulus(width), n + Modulus(width));
    } else {
      SmallRemainder(n, TWO_64);
      SmallRemainder(n, Modulus(width));
    }
  }

  /** The C expressions compute the zigzag map 2n, -2n - 1. */
  lemma ZigZagMeaning(n: int)
    requires InRange(SVarint, 8, n)
    ensures ZigZag(n) == if n < 0 then -2 * n - 1 else 2 * n
  {
    if n < 0 {
      Remainder(n, -1, TWO_64, n + TWO_64);
      Remainder((n + TWO_64) * 2, 1, TWO_64, 2 * n + TWO_64);
    } else {
      SmallRemainder(n, TWO_64);
      SmallRemainder(2 * n, TWO_64);
    }
  }

  lemma UnZigZagMeaning(u: nat)
    requires u < TWO_64
    ensures UnZigZag(u) == if u % 2 == 1 then -(u / 2) - 1 else u / 2
    ensures InRange(SVarint, 8, UnZigZag(u))
  {
    if u % 2 == 1 {
      SmallRemainder(TWO_64 - 1 - u / 2, TWO_64);
    } else {
      SmallRemainder(u / 2, TWO_64);
    }
  }

  /** Zigzag is a bijection between the signed and the unsigned 64-bit integers. */
  lemma ZigZagBijection(n: int, u: nat)
    requires InRange(SVarint, 8, n) && u < TWO_64
    ensures UnZigZag(ZigZag(n)) == n
    ensures ZigZag(UnZigZag(u)) == u
  {
    ZigZagMeaning(n);
    UnZigZagMeaning(ZigZag(n));
    UnZigZagMeaning(u);
    ZigZagMeaning(UnZigZag(u));
  }

  /** An integer that fits its struct member survives the wire at every width and signedness. */
  lemma IntegerRoundTrip(ltype: LType, width: nat, n: int)
    requires ltype.Integer() && width in {1, 2, 4, 8} && InRange(ltype, width, n)
    ensures FromWire(ltype, width, ToWire(ltype, n)) == Some(n)
  {
    WrapIsIdentity(n, width);
    match ltype
    case Varint =>
      WrapOfWord(n, if width == 8 then 8 else 4);
    case SVarint =>
      ZigZagBijection(n, 0);
    case UVarint =>
      SmallRemainder(n, TWO_64);
  }

  /** Decoding fails exactly when the integer does not fit the struct member. */
  lemma FromWireExact(ltype: LType, width: nat, u: nat)
    requires ltype.Integer() && u < TWO_64
    ensures FromWire(ltype, width, u) ==
            if InRange(ltype, width, Meaning(ltype, width, u)) then Some(Meaning(ltype, width, u)) else None
  {
    WrapIsIdentity(Meaning(ltype, width, u), width);
  }

  /**
   A negative int32 written as a 5-byte varint, and the same number written as a sign
   extended 10-byte varint, decode alike into members of at most 4 bytes.
   */
  lemma ShortNegativesDecodeAlike(width: nat, n: int)
    requires width in {1, 2, 4} && -(Modulus(4) / 2) <= n < 0
    ensures FromWire(Varint, width, n + TWO_32) == FromWire(Varint, width, n + TWO_64)
  {
    SmallRemainder(n + TWO_32, TWO_32);
    Remainder(n + TWO_64, TWO_64 / TWO_32 - 1, TWO_32, n + TWO_32);
  }

  // ---------------------------------------------------------------- accepted words

  /** A two's complement number of the given number of bits. */
  predicate InSignedRange(n: int, bits: nat) {
    0 - Pow2(bits) <= 2 * n < Pow2(bits)
  }

  lemma ModulusIsPower(width: nat)
    requires width in {1, 2, 4, 8}
    ensures Modulus(width) == Pow2(8 * width)
  {
    assert Pow2(4) == 16;
    Pow2Add(4, 4);
    Pow2Add(8, 8);
    Pow2Values(8 * width);
  }

  /** A word is accepted for an unsigned member of `width` bytes iff it is below 256^width, as itself. */
  lemma UnsignedExact(width: nat, u: nat)
    requires width in {1, 2, 4, 8} && u < TWO_64
    ensures FromWire(UVarint, width, u) == if u < Pow2(8 * width) then Some(u) else None
  {
    ModulusIsPower(width);
    FromWireExact(UVarint, width, u);
  }

  /** A zigzag word stands for u / 2 or -(u / 2) - 1 by its parity; accepted iff that fits the signed member. */
  lemma ZigZagExact(width: nat, u: nat)
    requires width in {1, 2, 4, 8} && u < TWO_64
    ensures var n := if u % 2 == 0 then u / 2 else -(u / 2) - 1;
            FromWire(SVarint, width, u) == if InSignedRange(n, 8 * width) then Some(n) else None
  {
    ModulusIsPower(width);
    UnZigZagMeaning(u);
    FromWireExact(SVarint, width, u);
  }

  /**
   A word stands, for a signed member, for the number `n` that is congruent to it modulo 2^64, or
   modulo 2^32 if the member is narrower than 8 bytes, in the signed range of that word. It is
   accepted iff `n` fits the member.
   */
  lemma SignedExact(width: nat, u: nat, n: int)
    requires width in {1, 2, 4, 8} && u < TWO_64
    requires var bits := if width == 8 then 64 else 32; (u - n) % Pow2(bits) == 0 && InSignedRange(n, bits)
    ensures FromWire(Varint, width, u) == if InSignedRange(n, 8 * width) then Some(n) else None
  {
    ModulusIsPower(width);
    ModulusIsPower(4);
    ModulusIsPower(8);
    CongruentWrap(u, n, if width == 8 then 8 else 4);
    FromWireExact(Varint, width, u);
  }

  /** There is such a number for every word. */
  lemma SignedExists(width: nat, u: nat) returns (n: int)
    requires width in {1, 2, 4, 8} && u < TWO_64
    ensures var bits := if width == 8 then 64 else 32; (u - n) % Pow2(bits) == 0 && InSignedRange(n, bits)
  {
    ModulusIsPower(4);
    ModulusIsPower(8);
    var m := Modulus(if width == 8 then 8 else 4);
    var r, q := u % m, u / m;
    n := if 2 * r < m then r else r - m;
    Remainder(u - n, if 2 * r < m then q else q + 1, m, 0);
  }

  lemma CongruentWrap(u: nat, n: int, width: nat)
    requires width in {4, 8} && (u - n) % Modulus(width) == 0
    requires 0 - Modulus(width) <= 2 * n < Modulus(width)
    ensures WrapSigned(u, width) == n
  {
    var m := Modulus(width);
    var q := (u - n) / m;
    if n >= 0 {
      Remainder(u, q, m, n);
    } else {
      Remainder(u, q - 1, m, n + m);
    }
  }

  /** The word that is written: the number itself, in two's complement of 64 bits if it is negative. */
  lemma SentWord(ltype: LType, n: int)
    requires ltype.Varint? || ltype.UVarint?
    requires 0 - Pow2(63) <= n < Pow2(64)
    ensures ToWire(ltype, n) == if n >= 0 then n else n + Pow2(64)
  {
    ModulusIsPower(8);
    Pow2Add(63, 1);
    if n >= 0 {
      SmallRemainder(n, TWO_64);
    } else {
      Remainder(n, -1, TWO_64, n + TWO_64);
    }
  }
}
