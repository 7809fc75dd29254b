/** pb_encode.c: the encoder, writing to a stream, proved against the functions of Encoding. */
module Encoder {
  import opened Wire
  import opened Descriptor
  import opened Integers
  import opened Message
  import opened Encoding
  import opened OutputStream
  import opened FieldIterator

  // ---------------------------------------------------------------- primitives

  /** pb_encode_varint. */
  method EncodeVarint(stream: OStream, value: nat) returns (ok: bool)
    requires stream.Valid() && value < TWO_64
    modifies stream, stream.buf
    ensures stream.Valid()
    ensures Emits(old(stream.State()), stream.State(), ok, true, VarintBytes(value))
  {
    if value <= 0x7F {
      ok := stream.Write([value]);
      return;
    }
    VarintFits(value, 10);
    var buffer := new Byte[10](_ => 0);
    var i := FillVarint(buffer, value);
    ok := stream.Write(buffer[..i]);
  }

  /** The loop of pb_encode_varint, which fills a local buffer. */
  method FillVarint(buffer: array<Byte>, value: nat) returns (i: nat)
    requires value > 0 && |VarintBytes(value)| <= buffer.Length
    modifies buffer
    ensures i <= buffer.Length && buffer[..i] == VarintBytes(value)
  {
    var v := value;
    ghost var out: Bytes := [];
    i := 0;
    while v != 0
      invariant 0 <= i <= buffer.Length && buffer[..i] == out
      invariant v != 0 ==> i + |VarintBytes(v)| <= buffer.Length && VarintBytes(value) == out + VarintBytes(v)
      invariant v == 0 ==> i > 0 && out[i - 1] >= 128 && VarintBytes(value) == out[..i - 1] + [out[i - 1] - 128]
    {
      VarintStep(v, out);
      buffer[i] := v % 128 + 128;
      assert buffer[..i + 1] == buffer[..i] + [buffer[i]];
      out := out + [v % 128 + 128];
      v := v / 128;
      i := i + 1;
    }
    buffer[i - 1] := buffer[i - 1] % 128;
    assert buffer[..i] == buffer[..i - 1] + [buffer[i - 1]];
  }

  lemma VarintStep(v: nat, out: Bytes)
    ensures v >= 128 ==> v / 128 > 0 && |VarintBytes(v)| == 1 + |VarintBytes(v / 128)|
    ensures v >= 128 ==> out + VarintBytes(v) == out + [v % 128 + 128] + VarintBytes(v / 128)
    ensures v < 128 ==> v % 128 == v && v / 128 == 0 && out + VarintBytes(v) == (out + [v + 128])[..|out|] + [v]
  {}

  /** pb_encode_svarint. */
  method EncodeSvarint(stream: OStream, value: int) returns (ok: bool)
    requires stream.Valid()
    modifies stream, stream.buf
    ensures stream.Valid()
    ensures Emits(old(stream.State()), stream.State(), ok, true, VarintBytes(ZigZag(value)))
  {
    var zigzagged: nat;
    if value < 0 {
      zigzagged := TWO_64 - 1 - (value % TWO_64) * 2 % TWO_64;
    } else {
      zigzagged := (value % TWO_64) * 2 % TWO_64;
    }
    ok := EncodeVarint(stream, zigzagged);
  }

  /** pb_encode_fixed32. */
  method EncodeFixed32(stream: OStream, val: nat) returns (ok: bool)
    requires stream.Valid() && val < TWO_32
    modifies stream, stream.buf
    ensures stream.Valid()
    ensures Emits(old(stream.State()), stream.State(), ok, true, FixedBytes(val, 4))
  {
    var bytes: Bytes := [val % 256, val / 0x100 % 256, val / 0x1_0000 % 256, val / 0x100_0000 % 256];
    FourBytes(val, 0);
    ok := stream.Write(bytes);
  }

  lemma FourBytes(val: nat, more: nat)
    ensures FixedBytes(val, more + 4) ==
            [val % 256, val / 0x100 % 256, val / 0x1_0000 % 256, val / 0x100_0000 % 256] +
            FixedBytes(val / TWO_32, more)
  {
    var a, b, c := val / 0x100, val / 0x1_0000, val / 0x100_0000;
    Quotients(val);
    NextByte(c, more);
    NextByte(b, more + 1);
    NextByte(a, more + 2);
    NextByte(val, more + 3);
  }

  lemma Quotients(val: nat)
    ensures val / 0x1_0000 == val / 0x100 / 0x100
    ensures val / 0x100_0000 == val / 0x1_0000 / 0x100
    ensures val / TWO_32 == val / 0x100_0000 / 0x100
  {}

  lemma NextByte(val: nat, more: nat)
    ensures FixedBytes(val, more + 1) == [val % 0x100] + FixedBytes(val / 0x100, more)
  {}

  /** pb_encode_fixed64. */
  method EncodeFixed64(stream: OStream, val: nat) returns (ok: bool)
    requires stream.Valid() && val < TWO_64
    modifies stream, stream.buf
    ensures stream.Valid()
    ensures Emits(old(stream.State()), stream.State(), ok, true, FixedBytes(val, 8))
  {
    var high := val / TWO_32;
    var first: Bytes := [val % 256, val / 0x100 % 256, val / 0x1_0000 % 256, val / 0x100_0000 % 256];
    var last: Bytes := [high % 256, high / 0x100 % 256, high / 0x1_0000 % 256, high / 0x100_0000 % 256];
    FourBytes(val, 4);
    FourBytes(high, 0);
    assert last + [] == last;
    ok := stream.Write(first + last);
  }

  /** pb_encode_tag. */
  method EncodeTag(stream: OStream, wireType: nat, tag: nat) returns (ok: bool)
    requires stream.Valid() && wireType < 8 && tag < TWO_32
    modifies stream, stream.buf
    ensures stream.Valid()
    ensures Emits(old(stream.State()), stream.State(), ok, true, TagBytes(wireType, tag))
  {
    ok := EncodeVarint(stream, tag * 8 + wireType);
  }

  /** pb_encode_string. */
  method EncodeString(stream: OStream, data: Bytes) returns (ok: bool)
    requires stream.Valid() && |data| < TWO_64
    modifies stream, stream.buf
    ensures stream.Valid()
    ensures Emits(old(stream.State()), stream.State(), ok, true, Block(data))
  {
    ghost var s0 := stream.State();
    ok := EncodeVarint(stream, |data|);
    ghost var s1 := stream.State();
    if !ok {
      EmitsStop(s0, s1, true, VarintBytes(|data|), true, data);
      return false;
    }
    ok := stream.Write(data);
    EmitsThen(s0, s1, stream.State(), VarintBytes(|data|), ok, true, data);
  }

  /** pb_encode_tag_for_field. */
  method EncodeTagForField(stream: OStream, f: Field) returns (ok: bool)
    requires stream.Valid() && f.tag < TWO_32 && !f.ltype.Extension?
    modifies stream, stream.buf
    ensures stream.Valid()
    ensures Emits(old(stream.State()), stream.State(), ok, true, TagBytes(f.ltype.WireType(), f.tag))
    ensures var number := if f.ltype.Integer() then 0
                          else if f.ltype.Fixed64? then 1
                          else if f.ltype.Fixed32? then 5
                          else 2;
            TagBytes(f.ltype.WireType(), f.tag) == VarintBytes(8 * f.tag + number)
  {
    var wireType;
    match f.ltype {
      case Varint | UVarint | SVarint => wireType := WT_VARINT;
      case Fixed32 => wireType := WT_32BIT;
      case Fixed64 => wireType := WT_64BIT;
      case BytesArray | CString | Submessage | FixedLengthBytes => wireType := WT_STRING;
    }
    ok := EncodeTag(stream, wireType, f.tag);
  }

  // ---------------------------------------------------------------- items

  /** The scan of pb_enc_string, which stops at the first NUL or at the end of the char array. */
  method StringLength(buf: Bytes) returns (size: nat)
    ensures size <= |buf| && buf[..size] == UpToNul(buf)
  {
    size := 0;
    while size < |buf| && buf[size] != 0
      invariant 0 <= size <= |buf|
      invariant forall k :: 0 <= k < size ==> buf[k] != 0
    {
      size := size + 1;
    }
    assert |UpToNul(buf)| == size;
  }

  /** The field encoders other than pb_enc_submessage. */
  method EncodeScalarCell(stream: OStream, f: Field, c: Cell) returns (ok: bool)
    requires stream.Valid() && WellFormedField(f) && ScalarShape(f, c)
    modifies stream, stream.buf
    ensures stream.Valid()
    ensures Emits(old(stream.State()), stream.State(), ok, CellEncodable(f, c), EncodeScalar(f, ScalarItem(f, c)))
  {
    match f.ltype {
      case Varint | UVarint =>
        ok := EncodeVarint(stream, c.n % TWO_64);
      case SVarint =>
        ok := EncodeSvarint(stream, c.n);
      case Fixed32 =>
        SmallRemainder(c.n, TWO_32);
        ok := EncodeFixed32(stream, c.n);
      case Fixed64 =>
        SmallRemainder(c.n, TWO_64);
        ok := EncodeFixed64(stream, c.n);
      case BytesArray =>
        if c.size + BYTES_HEADER > f.dataSize {
          return false;
        }
        ok := EncodeString(stream, c.buf[..c.size]);
      case CString =>
        var size := StringLength(c.buf);
        ok := EncodeString(stream, c.buf[..size]);
      case FixedLengthBytes =>
        ok := EncodeString(stream, c.buf);
    }
  }

  // ---------------------------------------------------------------- arrays

  lemma {:induction false} FixedSize(f: Field, items: seq<Item>)
    requires f.ltype.Fixed32? || f.ltype.Fixed64?
    ensures |EncodeItems(f, items)| == (if f.ltype.Fixed32? then 4 else 8) * |items|
  {
    if items != [] {
      FixedSize(f, items[1..]);
    }
  }

  /** The size of a packed array: a product for fixed-width items, a sizing pass for the others. */
  method PackedSize(f: Field, cells: seq<Cell>, count: nat) returns (ok: bool, size: nat)
    requires WellFormedField(f) && f.ltype.Packable() && count <= |cells|
    requires forall k :: 0 <= k < |cells| ==> CellShape(f, cells[k])
    ensures ok && size == |EncodeItems(f, ItemsOf(f, cells, count))|
  {
    ghost var items := ItemsOf(f, cells, count);
    ok := true;
    if f.ltype.Fixed32? {
      FixedSize(f, items);
      size := 4 * count;
    } else if f.ltype.Fixed64? {
      FixedSize(f, items);
      size := 8 * count;
    } else {
      var sizeStream := new OStream.Sizing();
      var i := 0;
      while i < count && ok
        invariant 0 <= i <= count && ok
        invariant sizeStream.Valid() && sizeStream.buf == null
        invariant sizeStream.State() == OState(true, 0, 0, sizeStream.bytesWritten, [])
        invariant sizeStream.bytesWritten + |EncodeItems(f, items[i..])| == |EncodeItems(f, items)|
      {
        NextItem(f, cells, count, i);
        ok := EncodeScalarCell(sizeStream, f, cells[i]);
        assert sizeStream.State().written == sizeStream.bytesWritten;
        i := i + 1;
      }
      assert EncodeItems(f, items[count..]) == [];
      size := sizeStream.bytesWritten;
    }
  }

  /** The writing loop of a packed array. */
  method EncodePackedItems(stream: OStream, f: Field, cells: seq<Cell>, count: nat) returns (ok: bool)
    requires stream.Valid() && WellFormedField(f) && f.ltype.Packable() && count <= |cells|
    requires forall k :: 0 <= k < |cells| ==> CellShape(f, cells[k])
    modifies stream, stream.buf
    ensures stream.Valid()
    ensures Emits(old(stream.State()), stream.State(), ok, true, EncodeItems(f, ItemsOf(f, cells, count)))
  {
    ghost var s0, items := stream.State(), ItemsOf(f, cells, count);
    ghost var done: Bytes := [];
    EmitsNothing(s0);
    assert items[0..] == items;
    var i := 0;
    ok := true;
    while i < count && ok
      invariant 0 <= i <= count && stream.Valid()
      invariant if ok then
                  && Emits(s0, stream.State(), true, true, done)
                  && done + EncodeItems(f, items[i..]) == EncodeItems(f, items)
                else Emits(s0, stream.State(), false, true, EncodeItems(f, items))
    {
      ok := EncodePackedItem(stream, f, cells, count, i, s0, done);
      done := done + EncodeScalar(f, items[i]);
      i := i + 1;
    }
    assert items[count..] == [];
    assert done + [] == done;
  }

  /** One round of the loop, given that `done` is the output of the items before it. */
  method EncodePackedItem(stream: OStream, f: Field, cells: seq<Cell>, count: nat, i: nat, ghost s0: OState,
                          ghost done: Bytes)
    returns (ok: bool)
    requires stream.Valid() && WellFormedField(f) && f.ltype.Packable()
    requires i < count <= |cells| && CellShape(f, cells[i])
    requires Emits(s0, stream.State(), true, true, done)
    requires var items := ItemsOf(f, cells, count); done + EncodeItems(f, items[i..]) == EncodeItems(f, items)
    modifies stream, stream.buf
    ensures stream.Valid()
    ensures var items := ItemsOf(f, cells, count);
            if ok then
              var out := done + EncodeScalar(f, items[i]);
              && Emits(s0, stream.State(), true, true, out)
              && out + EncodeItems(f, items[i + 1..]) == EncodeItems(f, items)
            else Emits(s0, stream.State(), false, true, EncodeItems(f, items))
  {
    ghost var s1, items := stream.State(), ItemsOf(f, cells, count);
    NextItem(f, cells, count, i);
    ok := EncodeScalarCell(stream, f, cells[i]);
    EmitsPart(s0, s1, stream.State(), done, ok, true, EncodeScalar(f, items[i]), true, EncodeItems(f, items[i + 1..]));
  }

  lemma NextItem(f: Field, cells: seq<Cell>, count: nat, i: nat)
    requires i < count <= |cells| && f.ltype.Packable()
    ensures var items := ItemsOf(f, cells, count);
            items[i] == ScalarItem(f, cells[i]) &&
            EncodeItems(f, items[i..]) == EncodeScalar(f, items[i]) + EncodeItems(f, items[i + 1..])
  {
    var items := ItemsOf(f, cells, count);
    assert items[i] == ItemOf(f, cells[i]);
    assert items[i..][1..] == items[i + 1..];
  }

  /** The packed branch of encode_array, after the count has been checked. */
  method EncodePacked(stream: OStream, f: Field, cells: seq<Cell>, count: nat) returns (ok: bool)
    requires stream.Valid() && WellFormedField(f) && f.ltype.Packable() && count <= |cells|
    requires forall k :: 0 <= k < |cells| ==> CellShape(f, cells[k])
    requires |EncodeItems(f, ItemsOf(f, cells, count))| < TWO_64
    modifies stream, stream.buf
    ensures stream.Valid()
    ensures Emits(old(stream.State()), stream.State(), ok, true,
                  TagBytes(WT_STRING, f.tag) + Block(EncodeItems(f, ItemsOf(f, cells, count))))
  {
    ghost var s0, body := stream.State(), EncodeItems(f, ItemsOf(f, cells, count));
    ghost var tag := TagBytes(WT_STRING, f.tag);
    ok := EncodeTag(stream, WT_STRING, f.tag);
    if !ok {
      EmitsStop(s0, stream.State(), true, tag, true, Block(body));
      return false;
    }
    ghost var s1 := stream.State();
    var size;
    ok, size := PackedSize(f, cells, count);
    ok := EncodeVarint(stream, size);
    EmitsPart(s0, s1, stream.State(), tag, ok, true, VarintBytes(|body|), true, body);
    if !ok {
      return false;
    }
    ghost var s2 := stream.State();
    if stream.buf == null {
      ok := stream.Skip(size);
    } else {
      ok := EncodePackedItems(stream, f, cells, count);
    }
    EmitsThen(s0, s2, stream.State(), tag + VarintBytes(|body|), ok, true, body);
  }

  /** encode_array. */
  method EncodeArray(stream: OStream, f: Field, cells: seq<Cell>, count: nat) returns (ok: bool)
    requires stream.Valid() && WellFormedField(f) && f.htype.Repeated? && SlotShape(f, Slot(count, cells))
    requires |EncodeVal(f, ValOf(f, Slot(count, cells)))| < TWO_64
    modifies stream, stream.buf
    ensures stream.Valid()
    ensures Emits(old(stream.State()), stream.State(), ok,
                  SlotEncodable(f, Slot(count, cells)), EncodeVal(f, ValOf(f, Slot(count, cells))))
    decreases f, 3
  {
    if count == 0 {
      return true;
    }
    if count > f.arraySize {
      return false;
    }
    if f.ltype.Packable() {
      assert forall k :: 0 <= k < |cells| ==> CellEncodable(f, cells[k]);
      ok := EncodePacked(stream, f, cells, count);
    } else {
      ok := EncodeUnpacked(stream, f, cells, count);
    }
  }

  predicate AllEncodable(f: Field, cells: seq<Cell>, count: nat)
    requires count <= |cells|
  {
    forall k :: 0 <= k < count ==> CellEncodable(f, cells[k])
  }

  /** The loop of encode_array for items that are not packed. */
  method EncodeUnpacked(stream: OStream, f: Field, cells: seq<Cell>, count: nat) returns (ok: bool)
    requires stream.Valid() && WellFormedField(f) && count <= |cells|
    requires forall k :: 0 <= k < |cells| ==> CellShape(f, cells[k])
    requires |EncodeRecords(f, ItemsOf(f, cells, count))| < TWO_64
    modifies stream, stream.buf
    ensures stream.Valid()
    ensures Emits(old(stream.State()), stream.State(), ok,
                  AllEncodable(f, cells, count), EncodeRecords(f, ItemsOf(f, cells, count)))
    decreases f, 2, 0
  {
    ghost var s0, items := stream.State(), ItemsOf(f, cells, count);
    ghost var done: Bytes := [];
    EmitsNothing(s0);
    assert items[0..] == items;
    var i := 0;
    while i < count
      invariant 0 <= i <= count && stream.Valid()
      invariant Emits(s0, stream.State(), true, true, done)
      invariant done + EncodeRecords(f, items[i..]) == EncodeRecords(f, items)
      invariant AllEncodable(f, cells, i)
    {
      ok := EncodeNext(stream, f, cells, count, i, s0, done);
      if !ok {
        return false;
      }
      done := done + EncodeRecords(f, [items[i]]);
      i := i + 1;
    }
    assert items[count..] == [];
    assert done + [] == done;
    return true;
  }

  /**
   One round of the loop, given that `done` is the output of the items before it: the output
   grows by one record, or the whole array has failed.
   */
  method EncodeNext(stream: OStream, f: Field, cells: seq<Cell>, count: nat, i: nat, ghost s0: OState,
                    ghost done: Bytes)
    returns (ok: bool)
    requires stream.Valid() && WellFormedField(f) && i < count <= |cells| && CellShape(f, cells[i])
    requires Emits(s0, stream.State(), true, true, done) && AllEncodable(f, cells, i)
    requires var items := ItemsOf(f, cells, count);
             && done + EncodeRecords(f, items[i..]) == EncodeRecords(f, items)
             && |EncodeRecords(f, items)| < TWO_64
    modifies stream, stream.buf
    ensures stream.Valid()
    ensures var items := ItemsOf(f, cells, count);
            if ok then
              var out := done + EncodeRecords(f, [items[i]]);
              && Emits(s0, stream.State(), true, true, out)
              && out + EncodeRecords(f, items[i + 1..]) == EncodeRecords(f, items)
              && AllEncodable(f, cells, i + 1)
            else Emits(s0, stream.State(), false, AllEncodable(f, cells, count), EncodeRecords(f, items))
    decreases f, 1, 1
  {
    ghost var s1, items := stream.State(), ItemsOf(f, cells, count);
    ghost var part := EncodeRecords(f, [items[i]]);
    NextRecord(f, cells, count, i);
    ok := EncodeTagged(stream, f, cells[i]);
    EmitsPart(s0, s1, stream.State(), done, ok, CellEncodable(f, cells[i]), part,
              AllEncodable(f, cells, count), EncodeRecords(f, items[i + 1..]));
  }

  lemma NextRecord(f: Field, cells: seq<Cell>, count: nat, i: nat)
    requires i < count <= |cells|
    ensures var items := ItemsOf(f, cells, count);
            items[i] == ItemOf(f, cells[i]) &&
            EncodeRecords(f, items[i..]) == EncodeRecords(f, [items[i]]) + EncodeRecords(f, items[i + 1..]) &&
            |EncodeItem(f, items[i])| <= |EncodeRecords(f, [items[i]])|
  {
    var items := ItemsOf(f, cells, count);
    assert items[i..][1..] == items[i + 1..];
    OneRecord(f, items[i]);
  }

  lemma OneRecord(f: Field, item: Item)
    ensures EncodeRecords(f, [item]) == TagBytes(f.ltype.WireType(), f.tag) + EncodeItem(f, item)
  {
    assert [item][1..] == [];
  }

  /** A tag and an item, as every branch of encode_basic_field and encode_array writes them. */
  method EncodeTagged(stream: OStream, f: Field, c: Cell) returns (ok: bool)
    requires stream.Valid() && WellFormedField(f) && CellShape(f, c)
    requires f.ltype.Submessage? ==> |EncodeItem(f, ItemOf(f, c))| < TWO_64
    modifies stream, stream.buf
    ensures stream.Valid()
    ensures Emits(old(stream.State()), stream.State(), ok, CellEncodable(f, c), EncodeRecords(f, [ItemOf(f, c)]))
    decreases f, 1, 0
  {
    ghost var s0, tag, item := stream.State(), TagBytes(f.ltype.WireType(), f.tag), ItemOf(f, c);
    OneRecord(f, item);
    ok := EncodeTagForField(stream, f);
    if !ok {
      EmitsStop(s0, stream.State(), true, tag, CellEncodable(f, c), EncodeItem(f, item));
      return false;
    }
    ghost var s1 := stream.State();
    if f.ltype.Submessage? {
      ok := EncodeSubmessage(stream, f.sub, c.slots);
    } else {
      ok := EncodeScalarCell(stream, f, c);
    }
    EmitsThen(s0, s1, stream.State(), tag, ok, CellEncodable(f, c), EncodeItem(f, item));
  }

  // ---------------------------------------------------------------- fields and messages

  /** pb_check_proto3_default_value, on the memory of an item that is not a submessage. */
  method CheckProto3Default(f: Field, c: Cell) returns (isDefault: bool)
    requires WellFormedField(f) && ScalarShape(f, c)
    ensures CellEncodable(f, c) ==> isDefault == IsZero(f, ScalarItem(f, c))
    ensures isDefault ==> IsZero(f, ScalarItem(f, c)) && CellEncodable(f, c)
  {
    match f.ltype {
      case BytesArray => return c.size == 0;
      case CString => return c.buf[0] == 0;
      case FixedLengthBytes => return f.dataSize == 0;
      case Varint | UVarint | SVarint | Fixed32 | Fixed64 => return c.n == 0;
    }
  }

  /** What a slot that holds one item is written as. */
  lemma SingleSlot(f: Field, slot: Slot)
    requires WellFormedField(f) && SlotShape(f, slot) && !f.htype.Repeated?
    ensures var item := ItemOf(f, slot.cells[0]);
            var stored := (f.htype.Oneof? ==> slot.size == f.tag) &&
                          (f.htype.Optional? ==> f.Singular() || slot.size != 0);
            && (stored ==> CellShape(f, slot.cells[0]))
            && (stored && f.ltype.Submessage? ==> |EncodeItem(f, item)| <= |EncodeVal(f, ValOf(f, slot))|)
            && SlotEncodable(f, slot) == (stored ==> CellEncodable(f, slot.cells[0]))
            && EncodeVal(f, ValOf(f, slot)) ==
               if stored && (f.Singular() ==> !IsZero(f, item)) then EncodeRecords(f, [item]) else []
  {
    var item := ItemOf(f, slot.cells[0]);
    assert ItemsOf(f, slot.cells, 1) == [item];
    OneRecord(f, item);
  }

  /** encode_basic_field for a field that holds one item. */
  method EncodeSingle(stream: OStream, f: Field, slot: Slot) returns (ok: bool)
    requires stream.Valid() && WellFormedField(f) && SlotShape(f, slot) && !f.htype.Repeated?
    requires |EncodeVal(f, ValOf(f, slot))| < TWO_64
    modifies stream, stream.buf
    ensures stream.Valid()
    ensures Emits(old(stream.State()), stream.State(), ok, SlotEncodable(f, slot), EncodeVal(f, ValOf(f, slot)))
    decreases f, 3
  {
    SingleSlot(f, slot);
    var implicitHas := true;
    if !f.HasSize() && f.htype.Optional? {
      var isDefault := CheckProto3Default(f, slot.cells[0]);
      implicitHas := !isDefault;
    }
    var has := true;
    match f.htype {
      case Required =>
      case Optional =>
        has := if f.HasSize() then slot.size != 0 else implicitHas;
      case Oneof =>
        has := slot.size == f.tag;
    }
    ok := true;
    if has {
      ok := EncodeTagged(stream, f, slot.cells[0]);
    }
  }

  /** encode_basic_field. */
  method EncodeBasicField(stream: OStream, f: Field, slot: Slot) returns (ok: bool)
    requires stream.Valid() && WellFormedField(f) && SlotShape(f, slot)
    requires |EncodeVal(f, ValOf(f, slot))| < TWO_64
    modifies stream, stream.buf
    ensures stream.Valid()
    ensures Emits(old(stream.State()), stream.State(), ok, SlotEncodable(f, slot), EncodeVal(f, ValOf(f, slot)))
    decreases f, 4
  {
    if f.htype.Repeated? {
      ok := EncodeArray(stream, f, slot.cells, slot.size);
    } else {
      ok := EncodeSingle(stream, f, slot);
    }
  }

  lemma {:induction false} PartsFit(fields: seq<Field>, vals: seq<Val>, i: nat)
    requires |vals| == |fields| && i <= |fields|
    ensures |EncodeFrom(fields, vals, i)| <= |EncodeMessage(fields, vals)|
    decreases i
  {
    if i > 0 {
      PartsFit(fields, vals, i - 1);
    }
  }

  /** pb_encode. */
  method Encode(stream: OStream, fields: seq<Field>, slots: seq<Slot>) returns (ok: bool)
    requires stream.Valid() && WellFormed(fields) && StructShape(fields, slots)
    requires |EncodeMessage(fields, Contents(fields, slots))| < TWO_64
    modifies stream, stream.buf
    ensures stream.Valid()
    ensures Emits(old(stream.State()), stream.State(), ok,
                  StructEncodable(fields, slots), EncodeMessage(fields, Contents(fields, slots)))
    decreases fields, 5, 0
  {
    ghost var s0 := stream.State();
    var iter := new FieldIter(fields);
    EncodedBegin(fields, slots, s0);
    ok := true;
    ghost var done: Bytes, next := [], 0;
    var more := fields != [];
    while more && ok
      invariant iter.Valid() && iter.fields == fields && stream.Valid()
      invariant more && ok ==> next == iter.pos < |fields|
      invariant !more && ok ==> next == |fields|
      invariant if ok then Encoded(fields, slots, next, s0, stream.State(), done)
                else Emits(s0, stream.State(), false, StructEncodable(fields, slots),
                           EncodeMessage(fields, Contents(fields, slots)))
      decreases more && ok, |fields| - iter.pos
    {
      ok, more, done := EncodeRound(stream, iter, fields, slots, s0, done);
      next := next + 1;
    }
    if ok {
      EncodedEnd(fields, slots, s0, stream.State(), done);
    }
  }

  /** One round of the loop: a field is encoded, and the iterator moves on. */
  method EncodeRound(stream: OStream, iter: FieldIter, fields: seq<Field>, slots: seq<Slot>, ghost s0: OState,
                     ghost done: Bytes)
    returns (ok: bool, more: bool, ghost out: Bytes)
    requires stream.Valid() && iter.Valid() && iter.fields == fields && fields != []
    requires WellFormed(fields) && StructShape(fields, slots)
    requires |EncodeMessage(fields, Contents(fields, slots))| < TWO_64
    requires Encoded(fields, slots, iter.pos, s0, stream.State(), done)
    modifies stream, stream.buf, iter
    ensures stream.Valid() && iter.Valid()
    ensures ok ==>
              && Encoded(fields, slots, old(iter.pos) + 1, s0, stream.State(), out)
              && more == (old(iter.pos) + 1 < |fields|)
              && iter.pos == if more then old(iter.pos) + 1 else 0
    ensures !ok ==> Emits(s0, stream.State(), false, StructEncodable(fields, slots),
                          EncodeMessage(fields, Contents(fields, slots)))
    decreases fields, 4, 1
  {
    var i := iter.pos;
    more := false;
    ok, out := EncodeField(stream, fields, slots, i, s0, done);
    if ok {
      more := Advance(stream, iter);
    }
  }

  /** pb_field_iter_next, which leaves the stream alone. */
  method Advance(stream: OStream, iter: FieldIter) returns (more: bool)
    requires stream.Valid() && iter.Valid()
    modifies iter
    ensures stream.Valid() && iter.Valid() && stream.State() == old(stream.State())
    ensures more == (old(iter.pos) + 1 < |iter.fields|) && iter.pos == if more then old(iter.pos) + 1 else 0
  {
    more := iter.Next();
  }

  /** The fields before the one at index `n` have been written, as `done`. */
  ghost predicate Encoded(fields: seq<Field>, slots: seq<Slot>, n: nat, s0: OState, s1: OState, done: Bytes)
    requires |slots| == |fields| && n <= |fields|
  {
    && Emits(s0, s1, true, true, done)
    && done + EncodeFrom(fields, Contents(fields, slots), n) == EncodeMessage(fields, Contents(fields, slots))
    && EncodableUpTo(fields, slots, n)
  }

  ghost predicate EncodableUpTo(fields: seq<Field>, slots: seq<Slot>, n: nat)
    requires |slots| == |fields| && n <= |fields|
  {
    forall i {:trigger slots[Home(fields, i)]} :: 0 <= i < n ==> SlotEncodable(fields[i], slots[Home(fields, i)])
  }

  lemma AllEncodableFields(fields: seq<Field>, slots: seq<Slot>)
    requires |slots| == |fields|
    ensures StructEncodable(fields, slots) == EncodableUpTo(fields, slots, |fields|)
  {}

  lemma EncodedBegin(fields: seq<Field>, slots: seq<Slot>, s: OState)
    requires |slots| == |fields| && s.Ok()
    ensures Encoded(fields, slots, 0, s, s, [])
  {
    EmitsNothing(s);
  }

  lemma EncodedEnd(fields: seq<Field>, slots: seq<Slot>, s0: OState, s1: OState, done: Bytes)
    requires |slots| == |fields| && Encoded(fields, slots, |fields|, s0, s1, done)
    ensures Emits(s0, s1, true, StructEncodable(fields, slots), EncodeMessage(fields, Contents(fields, slots)))
  {
    AllEncodableFields(fields, slots);
    assert done + [] == done;
  }

  /**
   encode_field for the field at index `i`, given that `done` is the output of the fields
   before it: the output grows by one field, or the whole message has failed.
   */
  method EncodeField(stream: OStream, fields: seq<Field>, slots: seq<Slot>, i: nat, ghost s0: OState, ghost done: Bytes)
    returns (ok: bool, ghost out: Bytes)
    requires stream.Valid() && WellFormed(fields) && StructShape(fields, slots) && i < |fields|
    requires |EncodeMessage(fields, Contents(fields, slots))| < TWO_64
    requires Encoded(fields, slots, i, s0, stream.State(), done)
    modifies stream, stream.buf
    ensures stream.Valid()
    ensures ok ==> Encoded(fields, slots, i + 1, s0, stream.State(), out)
    ensures !ok ==> Emits(s0, stream.State(), false, StructEncodable(fields, slots),
                          EncodeMessage(fields, Contents(fields, slots)))
    decreases fields, 4, 0
  {
    ghost var s1 := stream.State();
    NextField(fields, slots, i);
    ok := EncodeBasicField(stream, fields[i], slots[Home(fields, i)]);
    out := EncodedNext(fields, slots, i, s0, s1, stream.State(), done, ok);
  }

  lemma EncodedNext(fields: seq<Field>, slots: seq<Slot>, i: nat, s0: OState, s1: OState, s2: OState, done: Bytes,
                    ok: bool) returns (out: Bytes)
    requires |slots| == |fields| && i < |fields| && Encoded(fields, slots, i, s0, s1, done)
    requires var f, slot := fields[i], slots[Home(fields, i)];
             Emits(s1, s2, ok, SlotEncodable(f, slot), EncodeVal(f, ValOf(f, slot)))
    ensures ok ==> Encoded(fields, slots, i + 1, s0, s2, out)
    ensures !ok ==> Emits(s0, s2, false, StructEncodable(fields, slots), EncodeMessage(fields, Contents(fields, slots)))
  {
    var f, slot := fields[i], slots[Home(fields, i)];
    var part, rest := EncodeVal(f, ValOf(f, slot)), EncodeFrom(fields, Contents(fields, slots), i + 1);
    NextOutput(fields, slots, i);
    EmitsPart(s0, s1, s2, done, ok, SlotEncodable(f, slot), part, StructEncodable(fields, slots), rest);
    out := done + part;
  }

  lemma NextOutput(fields: seq<Field>, slots: seq<Slot>, i: nat)
    requires |slots| == |fields| && i < |fields|
    ensures var f, slot, vals := fields[i], slots[Home(fields, i)], Contents(fields, slots);
            && EncodeFrom(fields, vals, i) == EncodeVal(f, ValOf(f, slot)) + EncodeFrom(fields, vals, i + 1)
            && (StructEncodable(fields, slots) ==> SlotEncodable(f, slot))
            && (EncodableUpTo(fields, slots, i) && SlotEncodable(f, slot) ==> EncodableUpTo(fields, slots, i + 1))
  {}

  lemma NextField(fields: seq<Field>, slots: seq<Slot>, i: nat)
    requires WellFormed(fields) && StructShape(fields, slots) && i < |fields|
    requires |EncodeMessage(fields, Contents(fields, slots))| < TWO_64
    ensures var f, slot, vals := fields[i], slots[Home(fields, i)], Contents(fields, slots);
            && vals[i] == ValOf(f, slot)
            && WellFormedField(f) && SlotShape(f, slot)
            && |EncodeVal(f, ValOf(f, slot))| < TWO_64
            && EncodeFrom(fields, vals, i) == EncodeVal(f, vals[i]) + EncodeFrom(fields, vals, i + 1)
            && (StructEncodable(fields, slots) ==> SlotEncodable(f, slot))
  {
    PartsFit(fields, Contents(fields, slots), i);
  }

  /** pb_get_encoded_size. */
  method GetEncodedSize(fields: seq<Field>, slots: seq<Slot>) returns (ok: bool, size: nat)
    requires WellFormed(fields) && StructShape(fields, slots)
    requires |EncodeMessage(fields, Contents(fields, slots))| < TWO_64
    ensures ok == StructEncodable(fields, slots)
    ensures ok ==> size == |EncodeMessage(fields, Contents(fields, slots))|
    decreases fields, 6, 0
  {
    var stream := new OStream.Sizing();
    ok := Encode(stream, fields, slots);
    assert ok ==> stream.State().written == |EncodeMessage(fields, Contents(fields, slots))|;
    size := stream.bytesWritten;
  }

  lemma SubstreamWrites(s: OState, t0: OState, t1: OState, body: Bytes)
    requires s.Ok() && !s.sizing && s.Room(|body|)
    requires t0 == OState(false, |body|, s.pos, 0, s.bytes)
    requires t1 == t0.After(body)
    ensures OState(false, s.maxSize, t1.pos, s.written + t1.written, t1.bytes) == s.After(body)
  {}

  /**
   The writing pass of pb_encode_submessage, into a substream of exactly the size that the
   sizing pass found. The two passes agree, so "submsg size changed" does not occur.
   */
  method EncodeSubstream(stream: OStream, fields: seq<Field>, slots: seq<Slot>, size: nat) returns (ok: bool)
    requires stream.Valid() && stream.buf != null && WellFormed(fields) && StructShape(fields, slots)
    requires size == |EncodeMessage(fields, Contents(fields, slots))| < TWO_64
    requires StructEncodable(fields, slots) && stream.bytesWritten + size <= stream.maxSize
    modifies stream, stream.buf
    ensures stream.Valid()
    ensures Emits(old(stream.State()), stream.State(), ok, true, EncodeMessage(fields, Contents(fields, slots)))
    decreases fields, 6, 0
  {
    ghost var s1, body := stream.State(), EncodeMessage(fields, Contents(fields, slots));
    var substream := new OStream.FromBuffer(stream.buf, stream.pos, size);
    ghost var t0 := substream.State();
    var status := Encode(substream, fields, slots);
    ghost var t1 := substream.State();
    SubstreamWrites(s1, t0, t1, body);
    assert status && substream.bytesWritten == size by {
      assert t1.written == size;
    }
    stream.bytesWritten := stream.bytesWritten + substream.bytesWritten;
    stream.pos := substream.pos;
    assert stream.State() == s1.After(body);
    EmitsAll(s1, body);
    return status && substream.bytesWritten == size;
  }

  lemma EmitsAll(s: OState, out: Bytes)
    requires s.Ok() && s.Room(|out|)
    ensures Emits(s, s.After(out), true, true, out)
  {}

  /** pb_encode_submessage: a sizing pass, the length, and a writing pass. */
  method EncodeSubmessage(stream: OStream, fields: seq<Field>, slots: seq<Slot>) returns (ok: bool)
    requires stream.Valid() && WellFormed(fields) && StructShape(fields, slots)
    requires |EncodeMessage(fields, Contents(fields, slots))| < TWO_64
    modifies stream, stream.buf
    ensures stream.Valid()
    ensures Emits(old(stream.State()), stream.State(), ok,
                  StructEncodable(fields, slots), Block(EncodeMessage(fields, Contents(fields, slots))))
    decreases fields, 7, 0
  {
    ghost var s0, body := stream.State(), EncodeMessage(fields, Contents(fields, slots));
    var size;
    ok, size := GetEncodedSize(fields, slots);
    if !ok {
      return false;
    }
    ok := EncodeVarint(stream, size);
    ghost var s1 := stream.State();
    if !ok {
      EmitsStop(s0, s1, true, VarintBytes(|body|), true, body);
      return false;
    }
    if stream.buf == null {
      ok := stream.Skip(size);
    } else if stream.bytesWritten + size > stream.maxSize {
      ok := false;
    } else {
      ok := EncodeSubstream(stream, fields, slots, size);
    }
    EmitsThen(s0, s1, stream.State(), VarintBytes(|body|), ok, true, body);
  }

  /** pb_encode_delimited. */
  method EncodeDelimited(stream: OStream, fields: seq<Field>, slots: seq<Slot>) returns (ok: bool)
    requires stream.Valid() && WellFormed(fields) && StructShape(fields, slots)
    requires |EncodeMessage(fields, Contents(fields, slots))| < TWO_64
    modifies stream, stream.buf
    ensures stream.Valid()
    ensures Emits(old(stream.State()), stream.State(), ok,
                  StructEncodable(fields, slots), Block(EncodeMessage(fields, Contents(fields, slots))))
  {
    ok := EncodeSubmessage(stream, fields, slots);
  }
}
