/** The input stream of pb_decode.c over a memory buffer, and the primitive readers. */
module InputStream {
  import opened Wire

  class IStream {
    // the input buffer is only read
    const data: Bytes
    var pos: nat
    var bytesLeft: nat

    ghost predicate Valid()
      reads this
    {
      pos + bytesLeft <= |data|
    }

    /** The bytes the stream may still read. */
    function Window(): (w: Bytes)
      requires Valid()
      reads this
      ensures |w| == bytesLeft
    {
      data[pos..pos + bytesLeft]
    }

    /** Where the window ends. No successful step moves it. */
    function End(): nat
      reads this
    {
      pos + bytesLeft
    }

    /** pb_istream_from_buffer, and the substreams. */
    constructor (data: Bytes, pos: nat, size: nat)
      requires pos + size <= |data|
      ensures Valid() && this.data == data && Window() == data[pos..pos + size] && End() == pos + size
      ensures this.pos == pos && this.bytesLeft == size
    {
      this.data, this.pos, this.bytesLeft := data, pos, size;
    }

    /** pb_read. */
    method Read(count: nat) returns (ok: bool, bytes: Bytes)
      requires Valid()
      modifies this
      ensures Valid() && End() == old(End())
      ensures ok == (count <= old(bytesLeft))
      ensures ok ==> bytes == old(Window())[..count] && Window() == old(Window())[count..]
      ensures !ok ==> bytes == [] && Window() == old(Window())
    {
      if bytesLeft < count {
        return false, [];
      }
      bytes := data[pos..pos + count];
      pos := pos + count;
      bytesLeft := bytesLeft - count;
      return true, bytes;
    }

    /** pb_readbyte. */
    method ReadByte() returns (ok: bool, b: Byte)
      requires Valid()
      modifies this
      ensures Valid() && End() == old(End())
      ensures ok == (old(Window()) != [])
      ensures ok ==> b == old(Window())[0] && Window() == old(Window())[1..]
      ensures !ok ==> Window() == old(Window())
    {
      if bytesLeft == 0 {
        return false, 0;
      }
      b := data[pos];
      pos := pos + 1;
      bytesLeft := bytesLeft - 1;
      return true, b;
    }

    /** pb_decode_varint32. */
    method DecodeVarint32() returns (ok: bool, dest: nat)
      requires Valid()
      modifies this
      ensures Valid() && End() == old(End())
      ensures ok == ReadVarint32(old(Window())).Success?
      ensures ok ==> ReadVarint32(old(Window())) == Success(dest, Window())
      ensures !ok ==> (bytesLeft == 0 <==> |old(Window())| <= 5)
    {
      ghost var s := Window();
      var b: Byte;
      ok, b := ReadByte();
      if !ok {
        return false, 0;
      }
      FirstByte(s);
      if b < 0x80 {
        return true, b;
      }
      var bitpos, result: nat := 7, b % 128;
      ghost var i := 1;
      while true
        invariant Valid() && End() == old(End())
        invariant 1 <= i <= 5 && bitpos == 7 * i && bytesLeft + i == |s|
        invariant VarintLoop(Window(), bitpos, result, 32, TWO_32) == ReadVarint32(s)
        decreases 5 - i
      {
        if bitpos >= 32 {
          return false, 0;
        }
        ok, b := ReadByte();
        if !ok {
          return false, 0;
        }
        result := result + ShiftLeft(b % 128, bitpos, TWO_32);
        bitpos := bitpos + 7;
        i := i + 1;
        if b < 0x80 {
          return true, result;
        }
      }
    }

    /** pb_decode_varint. */
    method DecodeVarint() returns (ok: bool, dest: nat)
      requires Valid()
      modifies this
      ensures Valid() && End() == old(End())
      ensures ok == ReadVarint64(old(Window())).Success?
      ensures ok ==> ReadVarint64(old(Window())) == Success(dest, Window())
    {
      ghost var s := Window();
      VarintLoopIsReader(s);
      var b: Byte;
      var bitpos, result: nat := 0, 0;
      while true
        invariant Valid() && End() == old(End())
        invariant 0 <= bitpos <= 70
        invariant VarintLoop(Window(), bitpos, result, 64, TWO_64) == ReadVarint64(s)
        decreases 70 - bitpos
      {
        if bitpos >= 64 {
          return false, 0;
        }
        ok, b := ReadByte();
        if !ok {
          return false, 0;
        }
        result := result + ShiftLeft(b % 128, bitpos, TWO_64);
        bitpos := bitpos + 7;
        if b < 0x80 {
          return true, result;
        }
      }
    }

    /** pb_skip_varint. */
    method SkipVarint() returns (ok: bool)
      requires Valid()
      modifies this
      ensures Valid() && End() == old(End())
      ensures ok == Base128(old(Window())).Success?
      ensures ok ==> Window() == Base128(old(Window())).rest
    {
      var bytes: Bytes;
      while true
        invariant Valid() && End() == old(End())
        invariant Base128(Window()).Success? == Base128(old(Window())).Success?
        invariant Base128(Window()).Success? ==> Base128(Window()).rest == Base128(old(Window())).rest
        decreases bytesLeft
      {
        ok, bytes := Read(1);
        if !ok {
          return false;
        }
        if bytes[0] < 0x80 {
          return true;
        }
      }
    }

    /** pb_skip_string. */
    method SkipString() returns (ok: bool)
      requires Valid()
      modifies this
      ensures Valid() && End() == old(End())
      ensures ok == ReadBlock(old(Window())).Success?
      ensures ok ==> Window() == ReadBlock(old(Window())).rest
    {
      var length;
      ok, length := DecodeVarint32();
      if !ok {
        return false;
      }
      var skipped: Bytes;
      ok, skipped := Read(length);
    }

    /** pb_skip_field. */
    method Skip(wireType: nat) returns (ok: bool)
      requires Valid()
      modifies this
      ensures Valid() && End() == old(End())
      ensures ok == SkipField(wireType, old(Window())).Success?
      ensures ok ==> Window() == SkipField(wireType, old(Window())).rest
      ensures wireType == 0 ==> ok == Base128(old(Window())).Success?
      ensures wireType == 0 && ok ==> Window() == Base128(old(Window())).rest
      ensures wireType == 1 ==> ok == (old(bytesLeft) >= 8) && (ok ==> Window() == old(Window())[8..])
      ensures wireType == 2 ==> ok == ReadBlock(old(Window())).Success?
      ensures wireType == 2 && ok ==> Window() == ReadBlock(old(Window())).rest
      ensures wireType == 5 ==> ok == (old(bytesLeft) >= 4) && (ok ==> Window() == old(Window())[4..])
      ensures wireType !in {0, 1, 2, 5} ==> !ok
    {
      var skipped: Bytes;
      if wireType == WT_VARINT {
        ok := SkipVarint();
      } else if wireType == WT_64BIT {
        ok, skipped := Read(8);
      } else if wireType == WT_STRING {
        ok := SkipString();
      } else if wireType == WT_32BIT {
        ok, skipped := Read(4);
      } else {
        ok := false;
      }
    }

    /** pb_decode_tag. */
    method DecodeTag() returns (ok: bool, wireType: nat, tag: nat, eof: bool)
      requires Valid()
      modifies this
      ensures Valid() && End() == old(End())
      ensures ok ==> bytesLeft < old(bytesLeft)
      ensures match ReadTag(old(Window()))
              case Record(t, w, rest) => ok && tag == t && wireType == w && Window() == rest
              case End(rest) => !ok && eof && Window() == rest
              case Malformed => !ok && !eof
    {
      eof, wireType, tag := false, 0, 0;
      var temp;
      ok, temp := DecodeVarint32();
      if !ok {
        if bytesLeft == 0 {
          eof := true;
        }
        return;
      }
      if temp == 0 {
        eof := true;
        return false, wireType, tag, eof;
      }
      tag := temp / 8;
      wireType := temp % 8;
    }

    /** pb_make_string_substream. */
    method MakeSubstream() returns (ok: bool, sub: IStream)
      requires Valid()
      modifies this
      ensures Valid() && sub.Valid() && fresh(sub) && sub.data == data
      ensures End() <= old(End())
      ensures ok == ReadBlock(old(Window())).Success?
      ensures ok ==>
                var r := ReadBlock(old(Window()));
                && sub.Window() == r.value
                && sub.End() + bytesLeft == old(End())
                && bytesLeft == |r.rest|
                && data[sub.End()..old(End())] == r.rest
    {
      var size;
      ok, size := DecodeVarint32();
      sub := new IStream(data, pos, bytesLeft);
      if !ok || bytesLeft < size {
        return false, sub;
      }
      SplitWindow(data, pos, bytesLeft, size);
      sub.bytesLeft := size;
      bytesLeft := bytesLeft - size;
    }

    /**
     pb_close_string_substream: what the substream has left is skipped, and the stream goes on
     behind it.
     */
    method CloseSubstream(sub: IStream) returns (ok: bool)
      requires sub != this && sub.Valid() && sub.data == data && sub.End() + bytesLeft <= |data|
      modifies this, sub
      ensures Valid() && ok
      ensures pos == old(sub.End()) && bytesLeft == old(bytesLeft)
      ensures Window() == data[old(sub.End())..old(sub.End()) + bytesLeft]
    {
      ok := true;
      if sub.bytesLeft != 0 {
        var skipped: Bytes;
        ok, skipped := sub.Read(sub.bytesLeft);
      }
      pos := sub.pos;
    }
  }

  lemma SplitWindow(data: Bytes, pos: nat, n: nat, size: nat)
    requires pos + n <= |data| && size <= n
    ensures data[pos..pos + n][..size] == data[pos..pos + size]
    ensures data[pos..pos + n][size..] == data[pos + size..pos + n]
  {}

  /** `v << bitpos` in a word with the given modulus. */
  function ShiftLeft(v: nat, bitpos: nat, modulus: nat): (r: nat)
    requires modulus > 0
    ensures r < modulus
  {
    if bitpos == 0 then v % modulus else 2 * ShiftLeft(v, bitpos - 1, modulus) % modulus
  }

  /** The loops of the two varint decoders, from the state they are in. */
  function VarintLoop(w: Bytes, bitpos: nat, result: nat, width: nat, modulus: nat): Parse<nat>
    requires modulus > 0
    decreases |w|
  {
    if bitpos >= width || w == [] then Failure
    else
      var result' := result + ShiftLeft(w[0] % 128, bitpos, modulus);
      if w[0] < 128 then Success(result', w[1..])
      else VarintLoop(w[1..], bitpos + 7, result', width, modulus)
  }

  lemma {:induction false} ShiftLeftIsProduct(v: nat, bitpos: nat, modulus: nat)
    requires modulus > 0
    ensures ShiftLeft(v, bitpos, modulus) == v * Pow2(bitpos) % modulus
  {
    if bitpos > 0 {
      var a := v * Pow2(bitpos - 1);
      ShiftLeftIsProduct(v, bitpos - 1, modulus);
      DoubleRemainder(a, modulus);
      TwiceProduct(v, Pow2(bitpos - 1));
    }
  }

  lemma TwiceProduct(v: nat, p: nat)
    ensures v * (2 * p) == 2 * (v * p)
  {}

  lemma DoubleRemainder(a: nat, modulus: nat)
    requires modulus > 0
    ensures 2 * (a % modulus) % modulus == 2 * a % modulus
  {
    var q, r := a / modulus, a % modulus;
    if 2 * r < modulus {
      SmallRemainder(2 * r, modulus);
      Remainder(2 * a, 2 * q, modulus, 2 * r);
    } else {
      Remainder(2 * r, 1, modulus, 2 * r - modulus);
      Remainder(2 * a, 2 * q + 1, modulus, 2 * r - modulus);
    }
  }

  /** The loop, entered after `i` continuation bytes of `s`, reads `s` with the limits of its word. */
  lemma {:induction false} VarintLoopExact(s: Bytes, sum: nat, i: nat, w: Bytes, width: nat, modulus: nat)
    requires Continues(s, sum, i, w) && modulus == Pow2(width)
    ensures VarintLoop(w, 7 * i, sum % modulus, width, modulus) ==
            match Base128(s)
            case Failure => Failure
            case Success(v, rest) => if 7 * (|s| - |rest| - 1) < width then Success(v % modulus, rest) else Failure
    decreases |w|
  {
    if 7 * i < width && w != [] {
      var next := LoopDigit(s, sum, i, w, width, modulus);
      if w[0] >= 128 {
        VarintLoopExact(s, next, i + 1, w[1..], width, modulus);
      }
    }
  }

  lemma VarintLoopIsReader(s: Bytes)
    ensures VarintLoop(s, 0, 0, 32, TWO_32) == ReadVarint32(s)
    ensures VarintLoop(s, 0, 0, 64, TWO_64) == ReadVarint64(s)
  {
    VarintLoopStart(s, 32, TWO_32);
    VarintLoopStart(s, 64, TWO_64);
  }

  lemma FirstByte(s: Bytes)
    requires s != []
    ensures ReadVarint32(s) ==
            if s[0] < 0x80 then Success(s[0], s[1..]) else VarintLoop(s[1..], 7, s[0] % 128, 32, TWO_32)
  {
    VarintLoopIsReader(s);
    SmallRemainder(s[0] % 128, TWO_32);
    assert ShiftLeft(s[0] % 128, 0, TWO_32) == s[0] % 128;
  }

  lemma VarintLoopStart(s: Bytes, width: nat, modulus: nat)
    requires (width == 32 && modulus == TWO_32) || (width == 64 && modulus == TWO_64)
    ensures VarintLoop(s, 0, 0, width, modulus) ==
            match Base128(s)
            case Failure => Failure
            case Success(v, rest) => if 7 * (|s| - |rest| - 1) < width then Success(v % modulus, rest) else Failure
  {
    Pow2Values(width);
    assert Pow2(0) == 1;
    SmallRemainder(0, modulus);
    VarintLoopExact(s, 0, 0, s, width, modulus);
  }

  /** `w` is what is left of `s` after `i` continuation bytes whose digits make up `sum`. */
  ghost predicate Continues(s: Bytes, sum: nat, i: nat, w: Bytes) {
    && |w| + i == |s|
    && sum < Pow2(7 * i)
    && Base128(s) == Prepend(Base128(w), sum, Pow2(7 * i))
  }

  /** A number read after digits that make up `sum`, below the place value `p`. */
  function Prepend(r: Parse<nat>, sum: nat, p: nat): Parse<nat> {
    match r
    case Failure => Failure
    case Success(v, rest) => Success(sum + v * p, rest)
  }

  lemma PrependDigit(w: Bytes, sum: nat, p: nat)
    requires w != []
    ensures var next := sum + (w[0] % 128) * p;
            Prepend(Base128(w), sum, p) ==
            if w[0] < 0x80 then Success(next, w[1..]) else Prepend(Base128(w[1..]), next, 128 * p)
  {
    var d := LowBits(w[0]);
    if w[0] < 0x80 {
      assert Base128(w) == Success(d, w[1..]);
    } else if Base128(w[1..]).Success? {
      var v := Base128(w[1..]).value;
      assert Base128(w).value == d + 128 * v;
      HornerStep(sum, d, v, p);
    }
  }

  lemma LowBits(b: Byte) returns (d: nat)
    ensures d == b % 128 && d == if b < 0x80 then b else b - 128
  {
    d := b % 128;
  }

  lemma NextDigit(s: Bytes, sum: nat, i: nat, w: Bytes) returns (next: nat)
    requires Continues(s, sum, i, w) && w != []
    ensures next == sum + (w[0] % 128) * Pow2(7 * i)
    ensures w[0] < 0x80 ==> Base128(s) == Success(next, w[1..])
    ensures w[0] >= 0x80 ==> Continues(s, next, i + 1, w[1..])
  {
    var p := Pow2(7 * i);
    next := sum + (w[0] % 128) * p;
    Pow2Shift7(7 * i);
    DigitBound(sum, w[0] % 128, p);
    PrependDigit(w, sum, p);
  }

  /** The digit that a round of the loop adds. */
  lemma LoopDigit(s: Bytes, sum: nat, i: nat, w: Bytes, width: nat, modulus: nat) returns (next: nat)
    requires Continues(s, sum, i, w) && w != [] && 7 * i < width && modulus == Pow2(width)
    ensures sum % modulus + ShiftLeft(w[0] % 128, 7 * i, modulus) == next % modulus
    ensures w[0] < 0x80 ==> Base128(s) == Success(next, w[1..])
    ensures w[0] >= 0x80 ==> Continues(s, next, i + 1, w[1..])
  {
    next := NextDigit(s, sum, i, w);
    ShiftLeftIsProduct(w[0] % 128, 7 * i, modulus);
    TruncatedDigit(sum, w[0] % 128, i, width, modulus);
  }

  lemma DigitBound(sum: nat, d: nat, p: nat)
    requires sum < p && d < 128
    ensures sum + d * p < 128 * p
  {
    MulDistributes(d, 1, p);
    MulMonotone(d + 1, 128, p);
  }

  lemma HornerStep(sum: nat, d: nat, v: nat, p: nat)
    ensures sum + (d + 128 * v) * p == (sum + d * p) + v * (128 * p)
  {
    MulDistributes(d, 128 * v, p);
    assert 128 * v * p == v * (128 * p);
  }

  /** Adding the truncated, shifted digit keeps the truncated sum. */
  lemma TruncatedDigit(sum: nat, d: nat, i: nat, width: nat, modulus: nat)
    requires sum < Pow2(7 * i) && 7 * i <= width && modulus == Pow2(width)
    ensures sum % modulus + d * Pow2(7 * i) % modulus == (sum + d * Pow2(7 * i)) % modulus
  {
    ShiftedDigit(sum, d, 7 * i, width);
    Pow2Monotone(7 * i, width);
    SmallRemainder(sum, modulus);
  }

  lemma {:induction false} Pow2Monotone(a: nat, b: nat)
    requires a <= b
    ensures Pow2(a) <= Pow2(b)
    decreases b - a
  {
    if a < b {
      Pow2Monotone(a, b - 1);
    }
  }
}
