/**
 The byte level of the Protocol Buffers wire format: base-128 varints, little-endian
 words, length-prefixed blocks and record tags, as parsers and printers on byte sequences.

 A C shift `v << k` on a w-bit word is written `(v * Pow2(k)) % Pow2(w)`, a shift `v >> k`
 is a division, and `|=` on words with no common bit is an addition.
 */
module Wire {

  type Byte = b: int | 0 <= b < 0x100
  type Bytes = seq<Byte>

  const TWO_32: nat := 0x1_0000_0000
  const TWO_64: nat := 0x1_0000_0000_0000_0000

  // pb_wire_type_t
  const WT_VARINT: nat := 0
  const WT_64BIT: nat := 1
  const WT_STRING: nat := 2
  const WT_32BIT: nat := 5

  datatype Option<+T> = None | Some(value: T)

  /** What a parser makes of its input: nothing, or a value and the bytes it left over. */
  datatype Parse<+T> = Failure | Success(value: T, rest: Bytes)

  function Pow2(n: nat): (p: nat)
    ensures p > 0
  {
    if n == 0 then 1 else 2 * Pow2(n - 1)
  }

  lemma {:induction false} Pow2Add(a: nat, b: nat)
    ensures Pow2(a + b) == Pow2(a) * Pow2(b)
  {
    if b > 0 {
      Pow2Add(a, b - 1);
    }
  }

  /** The powers in use, on a variable exponent so that nothing is computed where it is called. */
  lemma Pow2Values(n: nat)
    ensures n == 32 ==> Pow2(n) == TWO_32
    ensures n == 64 ==> Pow2(n) == TWO_64
    ensures n == 35 ==> Pow2(n) == 8 * TWO_32
    ensures n == 70 ==> Pow2(n) == 64 * TWO_64
  {
    if n == 32 || n == 35 {
      Pow2Doubling();
      Pow2Add(32, n - 32);
    } else if n == 64 || n == 70 {
      Pow2Doubling();
      Pow2Add(64, n - 64);
    }
    assert Pow2(3) == 8 && Pow2(6) == 64;
  }

  lemma Pow2Doubling()
    ensures Pow2(32) == TWO_32 && Pow2(64) == TWO_64
  {
    assert Pow2(8) == 0x100;
    Pow2Add(8, 8);
    Pow2Add(16, 16);
    Pow2Add(32, 32);
  }

  lemma Pow2Shift7(n: nat)
    ensures Pow2(n + 7) == 128 * Pow2(n)
  {
    Pow2Add(n, 7);
    assert Pow2(7) == 128;
  }

  /** Adding a shifted, truncated digit above all bits of `low` truncates the exact sum. */
  lemma ShiftedDigit(low: nat, digit: nat, bitpos: nat, width: nat)
    requires low < Pow2(bitpos) && bitpos <= width
    ensures low + (digit * Pow2(bitpos)) % Pow2(width) == (low + digit * Pow2(bitpos)) % Pow2(width)
  {
    Pow2Add(bitpos, width - bitpos);
    SplitDigit(low, digit, Pow2(bitpos), Pow2(width - bitpos));
  }

  lemma SplitDigit(low: nat, digit: nat, p: nat, q: nat)
    requires low < p && q > 0
    ensures p * q > 0 && low + (digit * p) % (p * q) == (low + digit * p) % (p * q)
  {
    var k, d := digit / q, digit % q;
    var dp := d * p;
    MulDistributes(k * q, d, p);
    MulAssociates(k, q, p);
    MulMonotone(d + 1, q, p);
    MulDistributes(d, 1, p);
    MulMonotone(0, d, p);
    MulMonotone(1, q, p);
    var pq := p * q;
    Remainder(digit * p, k, pq, dp);
    Remainder(low + digit * p, k, pq, low + dp);
  }

  lemma MulDistributes(a: int, b: int, c: int)
    ensures (a + b) * c == a * c + b * c
  {}

  lemma MulAssociates(a: int, b: int, c: int)
    ensures a * b * c == a * (c * b)
  {}

  lemma MulMonotone(a: int, b: int, c: nat)
    requires a <= b
    ensures a * c <= b * c
  {
    MulDistributes(a, b - a, c);
  }

  lemma SmallRemainder(n: nat, m: nat)
    requires n < m
    ensures n % m == n
  {}

  lemma Remainder(n: int, k: int, m: nat, r: nat)
    requires m > 0 && n == k * m + r && r < m
    ensures n % m == r
  {
    var k' := n / m;
    MulDistributes(k', -k, m);
    if k' > k {
      MulMonotone(1, k' - k, m);
    } else if k' < k {
      MulMonotone(k' - k, -1, m);
    }
  }

  // ---------------------------------------------------------------- varints

  /** pb_encode_varint's output. */
  function VarintBytes(v: nat): (r: Bytes)
    ensures |r| >= 1
  {
    if v < 128 then [v] else [v % 128 + 128] + VarintBytes(v / 128)
  }

  /** The unbounded base-128 number at the front of `s`; fails when no byte ends it. */
  function Base128(s: Bytes): (r: Parse<nat>)
    ensures r.Success? ==> |r.rest| < |s|
  {
    if s == [] then Failure
    else if s[0] < 128 then Success(s[0], s[1..])
    else
      match Base128(s[1..])
      case Failure => Failure
      case Success(v, rest) => Success(s[0] - 128 + 128 * v, rest)
  }

  /** pb_decode_varint: at most 10 bytes, the value modulo 2^64. */
  function ReadVarint64(s: Bytes): (r: Parse<nat>)
    ensures r.Success? ==> |r.rest| < |s| && r.value < TWO_64
  {
    match Base128(s)
    case Failure => Failure
    case Success(v, rest) => if |s| - |rest| <= 10 then Success(v % TWO_64, rest) else Failure
  }

  /** pb_decode_varint32: at most 5 bytes, the value modulo 2^32. */
  function ReadVarint32(s: Bytes): (r: Parse<nat>)
    ensures r.Success? ==> |r.rest| < |s| && r.value < TWO_32
  {
    match Base128(s)
    case Failure => Failure
    case Success(v, rest) => if |s| - |rest| <= 5 then Success(v % TWO_32, rest) else Failure
  }

  lemma {:induction false} VarintRoundTrip(v: nat, t: Bytes)
    ensures Base128(VarintBytes(v) + t) == Success(v, t)
  {
    var s := VarintBytes(v) + t;
    if v < 128 {
      assert s[1..] == t;
    } else {
      VarintRoundTrip(v / 128, t);
      assert s[1..] == VarintBytes(v / 128) + t;
    }
  }

  /** A varint has the least number of base-128 digits that can hold its value. */
  lemma {:induction false} VarintLength(v: nat, n: nat)
    requires n >= 1
    ensures |VarintBytes(v)| <= n <==> v < Pow2(7 * n)
    decreases n
  {
    Pow2Shift7(7 * n - 7);
    assert Pow2(0) == 1;
    if v >= 128 && n > 1 {
      VarintLength(v / 128, n - 1);
    } else if n > 1 {
      assert Pow2(7 * n - 7) >= 1;
    }
  }

  lemma VarintFits(v: nat, n: nat)
    requires (n == 5 && v < TWO_32) || (n == 10 && v < TWO_64)
    ensures |VarintBytes(v)| <= n
  {
    Pow2Values(7 * n);
    VarintLength(v, n);
  }

  /** Decoding inverts encoding on all 64-bit values, in 1 to 10 bytes. */
  lemma Varint64RoundTrip(v: nat, t: Bytes)
    requires v < TWO_64
    ensures ReadVarint64(VarintBytes(v) + t) == Success(v, t)
    ensures 1 <= |VarintBytes(v)| <= 10
  {
    var e := VarintBytes(v);
    assert |e| <= 10 by { VarintFits(v, 10); }
    assert Base128(e + t) == Success(v, t) by { VarintRoundTrip(v, t); }
    SmallRemainder(v, TWO_64);
  }

  lemma Varint32RoundTrip(v: nat, t: Bytes)
    requires v < TWO_32
    ensures ReadVarint32(VarintBytes(v) + t) == Success(v, t)
    ensures 1 <= |VarintBytes(v)| <= 5
  {
    var e := VarintBytes(v);
    assert |e| <= 5 by { VarintFits(v, 5); }
    assert Base128(e + t) == Success(v, t) by { VarintRoundTrip(v, t); }
    SmallRemainder(v, TWO_32);
  }

  /** The positional base-128 sum of the low seven bits of each byte. */
  function DigitSum(s: Bytes): nat {
    if s == [] then 0 else DigitSum(s[..|s| - 1]) + (s[|s| - 1] % 128) * Pow2(7 * (|s| - 1))
  }

  lemma {:induction false} DigitSumFront(s: Bytes)
    requires s != []
    ensures DigitSum(s) == s[0] % 128 + 128 * DigitSum(s[1..])
  {
    var n := |s| - 1;
    if n == 0 {
      assert s[..0] == [] && s[1..] == [];
      assert Pow2(0) == 1;
    } else {
      DigitSumFront(s[..n]);
      assert s[..n][1..] == s[1..][..n - 1];
      Pow2Shift7(7 * (n - 1));
      var d, p := s[n] % 128, Pow2(7 * (n - 1));
      assert Pow2(7 * n) == 128 * p;
      assert d * (128 * p) == 128 * (d * p);
    }
  }

  /** The first `n` bytes of `s` are a varint: all but the last carry the continuation bit. */
  predicate TerminatesAt(s: Bytes, n: nat) {
    1 <= n <= |s| && s[n - 1] < 128 && forall j :: 0 <= j < n - 1 ==> s[j] >= 128
  }

  lemma OneDigit(s: Bytes)
    requires TerminatesAt(s, 1)
    ensures DigitSum(s[..1]) == s[0] && Base128(s) == Success(s[0], s[1..])
  {
    DigitSumFront(s[..1]);
    assert DigitSum(s[..1][1..]) == 0;
  }

  lemma TerminatesNext(s: Bytes, n: nat)
    requires TerminatesAt(s, n) && n > 1
    ensures TerminatesAt(s[1..], n - 1) && s[1..][n - 1..] == s[n..]
    ensures DigitSum(s[..n]) == s[0] - 128 + 128 * DigitSum(s[1..][..n - 1])
  {
    DigitSumFront(s[..n]);
    assert s[..n][1..] == s[1..][..n - 1];
    assert forall j :: 0 <= j < n - 2 ==> s[1..][j] == s[j + 1];
  }

  lemma {:induction false} Base128IsDigitSum(s: Bytes, n: nat)
    requires TerminatesAt(s, n)
    ensures Base128(s) == Success(DigitSum(s[..n]), s[n..])
  {
    if n == 1 {
      OneDigit(s);
    } else {
      TerminatesNext(s, n);
      Base128IsDigitSum(s[1..], n - 1);
    }
  }

  lemma {:induction false} Base128Terminates(s: Bytes) returns (n: nat)
    requires Base128(s).Success?
    ensures TerminatesAt(s, n)
  {
    if s[0] < 128 {
      n := 1;
    } else {
      var m := Base128Terminates(s[1..]);
      n := m + 1;
      assert forall j :: 1 <= j < n ==> s[j] == s[1..][j - 1];
    }
  }

  /**
   On arbitrary input the 64-bit reader succeeds exactly when a terminator occurs within
   10 available bytes, consumes up to it, and returns the base-128 sum modulo 2^64.
   */
  lemma Varint64Exact(s: Bytes)
    ensures ReadVarint64(s).Success? <==> exists n: nat :: n <= 10 && TerminatesAt(s, n)
    ensures forall n: nat :: n <= 10 && TerminatesAt(s, n) ==>
                          ReadVarint64(s) == Success(DigitSum(s[..n]) % TWO_64, s[n..])
  {
    forall n: nat | n <= 10 && TerminatesAt(s, n)
      ensures ReadVarint64(s) == Success(DigitSum(s[..n]) % TWO_64, s[n..])
    {
      Base128IsDigitSum(s, n);
    }
    if ReadVarint64(s).Success? {
      var n := Base128Terminates(s);
      Base128IsDigitSum(s, n);
    }
  }

  /** The same for the 32-bit reader, which allows 5 bytes and keeps 32 bits. */
  lemma Varint32Exact(s: Bytes)
    ensures ReadVarint32(s).Success? <==> exists n: nat :: n <= 5 && TerminatesAt(s, n)
    ensures forall n: nat :: n <= 5 && TerminatesAt(s, n) ==>
                          ReadVarint32(s) == Success(DigitSum(s[..n]) % TWO_32, s[n..])
  {
    forall n: nat | n <= 5 && TerminatesAt(s, n)
      ensures ReadVarint32(s) == Success(DigitSum(s[..n]) % TWO_32, s[n..])
    {
      Base128IsDigitSum(s, n);
    }
    if ReadVarint32(s).Success? {
      var n := Base128Terminates(s);
      Base128IsDigitSum(s, n);
    }
  }

  /** Where both readers succeed they consume the same bytes and agree modulo 2^32. */
  lemma Varint32AgreesWith64(s: Bytes)
    requires ReadVarint32(s).Success?
    ensures ReadVarint64(s).Success?
    ensures ReadVarint64(s).rest == ReadVarint32(s).rest
    ensures ReadVarint64(s).value % TWO_32 == ReadVarint32(s).value
  {
    var v := Base128(s).value;
    var m := v % TWO_64;
    Remainder(v, v / TWO_64 * TWO_32 + m / TWO_32, TWO_32, m % TWO_32);
  }

  // ---------------------------------------------------------------- other primitives

  function TakeBytes(s: Bytes, n: nat): (r: Parse<Bytes>)
    ensures r.Success? ==> |r.rest| == |s| - n && |r.value| == n
  {
    if n <= |s| then Success(s[..n], s[n..]) else Failure
  }

  /** pb_make_string_substream: a varint32 length and that many bytes. */
  function ReadBlock(s: Bytes): (r: Parse<Bytes>)
    ensures r.Success? ==> |r.rest| + |r.value| < |s|
  {
    match ReadVarint32(s)
    case Failure => Failure
    case Success(n, rest) => TakeBytes(rest, n)
  }

  /** A length-prefixed block, as pb_encode_string and pb_encode_submessage write it. */
  function Block(body: Bytes): (r: Bytes)
    ensures |r| > |body|
  {
    VarintBytes(|body|) + body
  }

  lemma BlockRoundTrip(body: Bytes, t: Bytes)
    requires |body| < TWO_32
    ensures ReadBlock(Block(body) + t) == Success(body, t)
    ensures ReadVarint32(Block(body) + t) == Success(|body|, body + t)
  {
    Varint32RoundTrip(|body|, body + t);
    assert Block(body) + t == VarintBytes(|body|) + (body + t);
    assert (body + t)[..|body|] == body && (body + t)[|body|..] == t;
  }

  /** `n` bytes of `v`, least significant first. */
  function FixedBytes(v: nat, n: nat): (r: Bytes)
    ensures |r| == n
  {
    if n == 0 then [] else [v % 256] + FixedBytes(v / 256, n - 1)
  }

  function LittleEndian(s: Bytes): nat {
    if s == [] then 0 else s[0] + 256 * LittleEndian(s[1..])
  }

  lemma {:induction false} FixedRoundTrip(v: nat, n: nat)
    requires v < Pow2(8 * n)
    ensures LittleEndian(FixedBytes(v, n)) == v
  {
    if n > 0 {
      Pow2Add(8 * n - 8, 8);
      assert Pow2(8) == 256;
      FixedRoundTrip(v / 256, n - 1);
      assert FixedBytes(v, n)[1..] == FixedBytes(v / 256, n - 1);
    }
  }

  lemma {:induction false} LittleEndianBound(s: Bytes)
    ensures LittleEndian(s) < Pow2(8 * |s|)
  {
    if s != [] {
      LittleEndianBound(s[1..]);
      Pow2Add(8 * |s| - 8, 8);
      assert Pow2(8) == 256;
    }
  }

  /** pb_encode_tag. */
  function TagBytes(wireType: nat, tag: nat): (r: Bytes)
    ensures |r| >= 1
  {
    VarintBytes(tag * 8 + wireType)
  }

  /** What pb_decode_tag makes of the bytes: a record header, the end of the message, an error. */
  datatype Header =
    | Record(tag: nat, wireType: nat, rest: Bytes)
    | End(rest: Bytes)
    | Malformed

  /**
   pb_decode_tag. A header that cannot be read counts as the end of the message when the
   failed read used up the stream, and so does the header 0.
   */
  function ReadTag(s: Bytes): (h: Header)
    ensures h.Record? ==> |h.rest| < |s|
    ensures h.End? ==> |h.rest| <= |s|
  {
    match ReadVarint32(s)
    case Failure => if |s| <= 5 then End([]) else Malformed
    case Success(v, rest) => if v == 0 then End(rest) else Record(v / 8, v % 8, rest)
  }

  lemma TagRoundTrip(wireType: nat, tag: nat, t: Bytes)
    requires wireType < 8 && 1 <= tag < TWO_32 / 8
    ensures ReadTag(TagBytes(wireType, tag) + t) == Record(tag, wireType, t)
  {
    Varint32RoundTrip(tag * 8 + wireType, t);
  }

  /** pb_skip_field. */
  function SkipField(wireType: nat, s: Bytes): (r: Parse<()>)
    ensures r.Success? ==> |r.rest| < |s|
  {
    if wireType == WT_VARINT then
      match Base128(s)
      case Failure => Failure
      case Success(_, rest) => Success((), rest)
    else if wireType == WT_64BIT then
      if |s| >= 8 then Success((), s[8..]) else Failure
    else if wireType == WT_STRING then
      match ReadBlock(s)
      case Failure => Failure
      case Success(_, rest) => Success((), rest)
    else if wireType == WT_32BIT then
      if |s| >= 4 then Success((), s[4..]) else Failure
    else Failure
  }
}
