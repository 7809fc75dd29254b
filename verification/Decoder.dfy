/** pb_decode.c: the decoder, reading from a stream into a struct, proved against the functions of Decoding. */
module Decoder {
  import opened Wire
  import opened Descriptor
  import opened Integers
  import opened Message
  import opened Decoding
  import opened Refinement
  import opened RequiredBits
  import opened InputStream
  import opened FieldIterator

  /** The destination struct. */
  class MessageStruct {
    var slots: seq<Slot>

    constructor (slots: seq<Slot>)
      ensures this.slots == slots
    {
      this.slots := slots;
    }
  }

  // ---------------------------------------------------------------- defaults

  lemma InitialShape(f: Field)
    requires WellFormedField(f) && !f.ltype.Submessage?
    ensures ScalarShape(f, InitialCell(f))
  {}

  /** The memory of the field is in its initial state and reads as the default, and all is in bounds. */
  ghost predicate Reset(f: Field, slot: Slot) {
    && ValOf(f, slot) == DefaultVal(f)
    && SlotIsInitial(f, slot)
    && SlotBounded(f, slot)
  }

  /** pb_field_set_to_default, for the field at index `i`. */
  method SetFieldToDefault(fields: seq<Field>, i: nat, dest: MessageStruct)
    requires WellFormed(fields) && StructShape(fields, dest.slots) && i < |fields|
    modifies dest
    ensures StructShape(fields, dest.slots)
    ensures var h := Home(fields, i);
            && dest.slots == old(dest.slots)[h := dest.slots[h]]
            && Reset(fields[i], dest.slots[h])
    decreases fields, 0
  {
    var f, h := fields[i], Home(fields, i);
    var slot := dest.slots[h];
    SlotContent(fields, dest.slots, i);
    var initData := true;
    if f.htype.Optional? && f.HasSize() {
      slot := slot.(size := 0);
    } else if f.htype.Repeated? || f.htype.Oneof? {
      slot := slot.(size := 0);
      initData := false;
    }
    if initData {
      var cell := DefaultCell(f, slot.cells[0]);
      slot := slot.(cells := [cell]);
      assert ItemsOf(f, slot.cells, 1) == [DefaultItem(f)];
    }
    StoreKeepsShape(fields, dest.slots, i, slot);
    dest.slots := dest.slots[h := slot];
  }

  /** The memory of an item at its default: a submessage in place, the default value, or zeros. */
  method DefaultCell(f: Field, was: Cell) returns (cell: Cell)
    requires WellFormedField(f) && CellShape(f, was)
    ensures CellShape(f, cell) && CellBounded(f, cell)
    ensures ItemOf(f, cell) == DefaultItem(f) && CellIsInitial(f, cell)
    decreases f
  {
    if f.ltype.Submessage? {
      var sub := new MessageStruct(was.slots);
      SetToDefaults(f.sub, sub);
      cell := CStruct(sub.slots);
    } else if f.init.Some? {
      cell := f.init.value;
    } else {
      cell := ZeroScalar(f);
    }
  }

  /** pb_message_set_to_defaults. Whatever the struct held, its content is then the default. */
  method SetToDefaults(fields: seq<Field>, dest: MessageStruct)
    requires WellFormed(fields) && StructShape(fields, dest.slots)
    modifies dest
    ensures StructShape(fields, dest.slots) && StructBounded(fields, dest.slots)
    ensures Contents(fields, dest.slots) == Defaults(fields) && StructIsInitial(fields, dest.slots)
    ensures ResetUpTo(fields, dest.slots, |fields|)
    decreases fields, 1
  {
    if fields == [] {
      return;
    }
    var iter := new FieldIter(fields);
    var more := true;
    ghost var next := 0;
    while more
      invariant iter.Valid() && iter.fields == fields
      invariant next <= |fields| && if more then next == iter.pos else next == |fields|
      invariant StructShape(fields, dest.slots)
      invariant ResetUpTo(fields, dest.slots, next)
      decreases more, |fields| - iter.pos
    {
      ghost var before := dest.slots;
      SetFieldToDefault(fields, iter.pos, dest);
      OneMoreReset(fields, before, dest.slots, next);
      next := next + 1;
      more := iter.Next();
    }
  }

  ghost predicate ResetUpTo(fields: seq<Field>, slots: seq<Slot>, n: nat)
    requires |slots| == |fields| && n <= |fields|
  {
    forall i {:trigger slots[Home(fields, i)]} ::
      0 <= i < n ==> Reset(fields[i], slots[Home(fields, i)])
  }

  lemma OneMoreReset(fields: seq<Field>, before: seq<Slot>, after: seq<Slot>, n: nat)
    requires WellFormed(fields) && |before| == |after| == |fields| && n < |fields| && ResetUpTo(fields, before, n)
    requires var h := Home(fields, n);
             && after == before[h := after[h]]
             && Reset(fields[n], after[h])
    ensures ResetUpTo(fields, after, n + 1)
  {
    forall i | 0 <= i < n
      ensures Reset(fields[i], after[Home(fields, i)])
    {
      assert WellFormedField(fields[i]);
      assert Reset(fields[i], before[Home(fields, i)]);
    }
  }

  /** The slots of the given fields. */
  ghost function Homes(fields: seq<Field>, seen: set<nat>): set<nat> {
    set i | i in seen && i < |fields| :: Home(fields, i)
  }

  /** Every field outside of `homes` is in its initial state. */
  ghost predicate InitialBut(fields: seq<Field>, slots: seq<Slot>, homes: set<nat>)
    requires |slots| == |fields|
  {
    forall i {:trigger slots[Home(fields, i)]} ::
      0 <= i < |fields| && Home(fields, i) !in homes ==> SlotIsInitial(fields[i], slots[Home(fields, i)])
  }

  /** Only the slots in `homes` have changed. */
  ghost predicate OthersKept(before: seq<Slot>, after: seq<Slot>, homes: set<nat>) {
    && |after| == |before|
    && forall h: nat :: h < |after| && h !in homes ==> after[h] == before[h]
  }

  /**
   What decoding `s` leaves of the memory that no record of `s` is for: the initial state, or what
   was there before.
   */
  ghost predicate RestLeft(fields: seq<Field>, s: Bytes, base: seq<Val>, before: seq<Slot>, after: seq<Slot>,
                           fromDefaults: bool)
    requires |base| == |after| == |fields|
  {
    var run := ParseRecords(fields, s, base, {});
    && run.Ran?
    && if fromDefaults then InitialBut(fields, after, Homes(fields, run.seen))
       else OthersKept(before, after, Homes(fields, run.seen))
  }

  // ---------------------------------------------------------------- scalar items

  /** pb_dec_varint, pb_dec_uvarint and pb_dec_svarint. */
  method DecodeInteger(stream: IStream, f: Field) returns (ok: bool, cell: Cell)
    requires stream.Valid() && WellFormedField(f) && f.ltype.Integer()
    modifies stream
    ensures stream.Valid() && stream.End() == old(stream.End()) && ScalarShape(f, cell)
    ensures ok == ParseScalar(f, old(stream.Window())).Success?
    ensures ok ==> ParseScalar(f, old(stream.Window())) == Success(ScalarItem(f, cell), stream.Window())
  {
    var value;
    ok, value := stream.DecodeVarint();
    if !ok {
      return false, CInt(0);
    }
    var meant, clamped: int;
    match f.ltype {
      case Varint =>
        meant := if f.dataSize == 8 then WrapSigned(value, 8) else WrapSigned(value, 4);
        clamped := WrapSigned(meant, f.dataSize);
      case UVarint =>
        meant := value;
        clamped := WrapUnsigned(value, f.dataSize);
      case SVarint =>
        meant := UnZigZag(value);
        clamped := WrapSigned(meant, f.dataSize);
    }
    return clamped == meant, CInt(clamped);
  }

  /** pb_decode_fixed32 and pb_decode_fixed64. */
  method DecodeFixed(stream: IStream, f: Field) returns (ok: bool, cell: Cell)
    requires stream.Valid() && WellFormedField(f) && (f.ltype.Fixed32? || f.ltype.Fixed64?)
    modifies stream
    ensures stream.Valid() && stream.End() == old(stream.End()) && ScalarShape(f, cell)
    ensures ok == ParseScalar(f, old(stream.Window())).Success?
    ensures ok ==> ParseScalar(f, old(stream.Window())) == Success(ScalarItem(f, cell), stream.Window())
  {
    var b: Bytes;
    ok, b := stream.Read(if f.ltype.Fixed32? then 4 else 8);
    if !ok {
      return false, CInt(0);
    }
    FourByteWord(b);
    var low := b[0] as int + 0x100 * b[1] as int + 0x1_0000 * b[2] as int + 0x100_0000 * b[3] as int;
    if f.ltype.Fixed32? {
      assert b[4..] == [];
      return true, CInt(low);
    }
    FourByteWord(b[4..]);
    assert b[4..][4..] == [];
    var high := b[4] as int + 0x100 * b[5] as int + 0x1_0000 * b[6] as int + 0x100_0000 * b[7] as int;
    return true, CInt(low + TWO_32 * high);
  }

  /** pb_dec_bytes, pb_dec_string and pb_dec_fixed_length_bytes, over a buffer of the right length. */
  method DecodeBuffer(stream: IStream, f: Field, was: Cell) returns (ok: bool, cell: Cell)
    requires stream.Valid() && WellFormedField(f) && ScalarShape(f, was)
    requires f.ltype.BytesArray? || f.ltype.CString? || f.ltype.FixedLengthBytes?
    modifies stream
    ensures stream.Valid() && stream.End() == old(stream.End()) && ScalarShape(f, cell)
    ensures ok == ParseScalar(f, old(stream.Window())).Success?
    ensures ok ==> ParseScalar(f, old(stream.Window())) == Success(ScalarItem(f, cell), stream.Window())
    ensures ok ==> CellBounded(f, cell)
  {
    var size, bytes;
    ok, size := stream.DecodeVarint32();
    if !ok {
      return false, was;
    }
    var buf := was.buf;
    match f.ltype {
      case BytesArray =>
        if size + BYTES_HEADER > f.dataSize {
          return false, was;
        }
        ok, bytes := stream.Read(size);
        return ok, CBuf(size, if ok then bytes + buf[size..] else buf);
      case CString =>
        var allocSize := (size + 1) % TWO_32;
        if allocSize < size || allocSize > f.dataSize {
          SmallOrWrapped(size);
          return false, was;
        }
        SmallOrWrapped(size);
        ok, bytes := stream.Read(size);
        if ok {
          buf := bytes + [0] + buf[size + 1..];
          TerminatedCopy(bytes, was.buf[size + 1..]);
        } else {
          buf := buf[size := 0];
        }
        return ok, CBuf(was.size, buf);
      case FixedLengthBytes =>
        if size == 0 {
          return true, CBuf(was.size, Zeros(f.dataSize));
        }
        if size != f.dataSize {
          return false, was;
        }
        ok, bytes := stream.Read(size);
        return ok, CBuf(was.size, if ok then bytes else buf);
    }
  }

  lemma SmallOrWrapped(size: nat)
    requires size < TWO_32
    ensures (size + 1) % TWO_32 == if size + 1 == TWO_32 then 0 else size + 1
  {}

  /** The field decoders other than pb_dec_submessage. */
  method DecodeScalar(stream: IStream, f: Field, was: Cell) returns (ok: bool, cell: Cell)
    requires stream.Valid() && WellFormedField(f) && ScalarShape(f, was)
    modifies stream
    ensures stream.Valid() && stream.End() == old(stream.End()) && ScalarShape(f, cell)
    ensures ok == ParseScalar(f, old(stream.Window())).Success?
    ensures ok ==> ParseScalar(f, old(stream.Window())) == Success(ScalarItem(f, cell), stream.Window())
    ensures ok ==> CellBounded(f, cell)
  {
    if f.ltype.Integer() {
      ok, cell := DecodeInteger(stream, f);
    } else if f.ltype.Fixed32? || f.ltype.Fixed64? {
      ok, cell := DecodeFixed(stream, f);
    } else {
      ok, cell := DecodeBuffer(stream, f, was);
    }
  }

  // ---------------------------------------------------------------- items

  /**
   pb_dec_submessage. Entries of a repeated field start from their defaults, others are merged
   into what the struct holds.
   */
  method DecodeSubmessage(stream: IStream, f: Field, was: Cell) returns (ok: bool, cell: Cell)
    requires stream.Valid() && WellFormedField(f) && f.ltype.Submessage? && CellShape(f, was)
    modifies stream
    ensures stream.Valid() && CellShape(f, cell)
    ensures stream.End() <= old(stream.End()) && (ok ==> stream.End() == old(stream.End()))
    ensures ok == ParseItem(f, old(stream.Window()), SubVals(f, ItemOf(f, was))).Success?
    ensures ok ==> ParseItem(f, old(stream.Window()), SubVals(f, ItemOf(f, was))) ==
                   Success(ItemOf(f, cell), stream.Window())
    ensures was.CStruct? && cell.CStruct? && |cell.slots| == |was.slots| == |f.sub|
    ensures ok ==> RestLeft(f.sub, ReadBlock(old(stream.Window())).value,
                            if f.htype.Repeated? then Defaults(f.sub) else Contents(f.sub, was.slots),
                            was.slots, cell.slots, f.htype.Repeated?)
    ensures ok && (f.htype.Repeated? || CellBounded(f, was)) ==> CellBounded(f, cell)
    decreases f, 0
  {
    StructContent(f, was);
    SubmessageItem(f, stream.Window(), Contents(f.sub, was.slots));
    var dest := new MessageStruct(was.slots);
    ghost var base := if f.htype.Repeated? then Defaults(f.sub) else Contents(f.sub, dest.slots);
    ok := DecodeBlock(stream, f.sub, dest, f.htype.Repeated?, base);
    cell := CStruct(dest.slots);
    StructContent(f, cell);
  }

  /**
   A message inside a length-delimited block: a substream is opened, decoded and closed. `base` is
   the content that decoding starts from.
   */
  method DecodeBlock(stream: IStream, fields: seq<Field>, dest: MessageStruct, fromDefaults: bool, ghost base: seq<Val>)
    returns (ok: bool)
    requires stream.Valid() && WellFormed(fields) && StructShape(fields, dest.slots)
    requires base == if fromDefaults then Defaults(fields) else Contents(fields, dest.slots)
    modifies stream, dest
    ensures stream.Valid() && StructShape(fields, dest.slots)
    ensures stream.End() <= old(stream.End()) && (ok ==> stream.End() == old(stream.End()))
    ensures var r := ParseBlock(fields, old(stream.Window()), base);
            ok == r.Success? && (ok ==> r == Success(Contents(fields, dest.slots), stream.Window()))
    ensures ok ==> RestLeft(fields, ReadBlock(old(stream.Window())).value, base, old(dest.slots), dest.slots,
                            fromDefaults)
    ensures ok && (fromDefaults || StructBounded(fields, old(dest.slots))) ==> StructBounded(fields, dest.slots)
    decreases fields, 9
  {
    BlockCases(fields, stream.Window(), base);
    ghost var slots, block := dest.slots, ReadBlock(stream.Window());
    var substream;
    ok, substream := stream.MakeSubstream();
    assert dest.slots == slots;
    if ok {
      var status := DecodeBody(substream, fields, dest, fromDefaults);
      slots := dest.slots;
      ok := stream.CloseSubstream(substream);
      assert dest.slots == slots && (status ==> stream.Window() == block.rest);
      ok := status;
    }
  }

  lemma BlockCases(fields: seq<Field>, s: Bytes, base: seq<Val>)
    requires |base| == |fields|
    ensures var block := ReadBlock(s);
            ParseBlock(fields, s, base) ==
            if block.Success? && ParseMessage(fields, block.value, base).Success?
            then Success(ParseMessage(fields, block.value, base).value, block.rest)
            else Failure
  {}

  /** pb_decode or pb_decode_noinit. */
  method DecodeBody(stream: IStream, fields: seq<Field>, dest: MessageStruct, fromDefaults: bool) returns (ok: bool)
    requires stream.Valid() && WellFormed(fields) && StructShape(fields, dest.slots)
    modifies stream, dest
    ensures stream.Valid() && StructShape(fields, dest.slots)
    ensures stream.End() <= old(stream.End()) && (ok ==> stream.End() == old(stream.End()))
    ensures var r := ParseMessage(fields, old(stream.Window()),
                                  if fromDefaults then Defaults(fields) else Contents(fields, old(dest.slots)));
            && ok == r.Success?
            && (ok ==> r == Success(Contents(fields, dest.slots), stream.Window()))
    ensures ok ==> RestLeft(fields, old(stream.Window()),
                            if fromDefaults then Defaults(fields) else Contents(fields, old(dest.slots)),
                            old(dest.slots), dest.slots, fromDefaults)
    ensures ok && (fromDefaults || StructBounded(fields, old(dest.slots))) ==> StructBounded(fields, dest.slots)
    decreases fields, 8, 1
  {
    if fromDefaults {
      ok := Decode(stream, fields, dest);
    } else {
      ok := DecodeNoinit(stream, fields, dest);
    }
  }

  lemma StructContent(f: Field, c: Cell)
    requires f.ltype.Submessage? && c.CStruct? && StructShape(f.sub, c.slots)
    ensures CellShape(f, c)
    ensures ItemOf(f, c) == Msg(Contents(f.sub, c.slots)) && SubVals(f, ItemOf(f, c)) == Contents(f.sub, c.slots)
  {}

  lemma SubmessageItem(f: Field, s: Bytes, base: seq<Val>)
    requires f.ltype.Submessage? && |base| == |f.sub|
    ensures ParseItem(f, s, base) ==
            match ParseBlock(f.sub, s, if f.htype.Repeated? then Defaults(f.sub) else base)
            case Failure => Failure
            case Success(vals, rest) => Success(Msg(vals), rest)
  {}

  /** The call of the field decoder that the type selects. */
  method DecodeItem(stream: IStream, f: Field, was: Cell) returns (ok: bool, cell: Cell)
    requires stream.Valid() && WellFormedField(f) && CellShape(f, was)
    modifies stream
    ensures stream.Valid() && CellShape(f, cell)
    ensures stream.End() <= old(stream.End()) && (ok ==> stream.End() == old(stream.End()))
    ensures ok == ParseItem(f, old(stream.Window()), SubVals(f, ItemOf(f, was))).Success?
    ensures ok ==> ParseItem(f, old(stream.Window()), SubVals(f, ItemOf(f, was))) ==
                   Success(ItemOf(f, cell), stream.Window())
    ensures ok && (f.ltype.Submessage? && !f.htype.Repeated? ==> CellBounded(f, was)) ==> CellBounded(f, cell)
    decreases f, 1
  {
    if f.ltype.Submessage? {
      ok, cell := DecodeSubmessage(stream, f, was);
    } else {
      ok, cell := DecodeScalar(stream, f, was);
    }
  }

  // ---------------------------------------------------------------- fields

  function SlotItems(f: Field, slot: Slot): seq<Item> {
    ItemsOf(f, slot.cells, Min(slot.size, |slot.cells|))
  }

  lemma AppendCell(f: Field, slot: Slot, cell: Cell)
    requires slot.size < |slot.cells|
    ensures SlotItems(f, Slot(slot.size + 1, slot.cells[slot.size := cell])) == SlotItems(f, slot) + [ItemOf(f, cell)]
  {}

  /** The packed branch of decode_static_field. */
  method DecodePacked(stream: IStream, f: Field, was: Slot) returns (ok: bool, slot: Slot)
    requires stream.Valid() && WellFormedField(f) && SlotShape(f, was) && f.htype.Repeated? && f.ltype.Packable()
    modifies stream
    ensures stream.Valid() && SlotShape(f, slot)
    ensures stream.End() <= old(stream.End()) && (ok ==> stream.End() == old(stream.End()))
    ensures match ReadBlock(old(stream.Window()))
            case Failure => !ok
            case Success(body, rest) =>
              match ParsePacked(f, body, SlotItems(f, was))
              case None => !ok
              case Some(items) => ok && SlotItems(f, slot) == items && stream.Window() == rest
    ensures ok && SlotBounded(f, was) ==> SlotBounded(f, slot)
  {
    ghost var block := ReadBlock(stream.Window());
    slot := was;
    var substream;
    ok, substream := stream.MakeSubstream();
    if !ok {
      return;
    }
    var status := true;
    while substream.bytesLeft > 0 && slot.size < f.arraySize && status
      invariant stream.Valid() && substream.Valid() && SlotShape(f, slot)
      invariant was.size <= f.arraySize ==> slot.size <= f.arraySize
      invariant stream.End() <= old(stream.End())
      invariant substream.data == stream.data && substream.End() + stream.bytesLeft == old(stream.End())
      invariant stream.bytesLeft == |block.rest| && stream.data[substream.End()..old(stream.End())] == block.rest
      invariant ParsePacked(f, block.value, SlotItems(f, was)) ==
                if status then ParsePacked(f, substream.Window(), SlotItems(f, slot)) else None
      decreases status, substream.bytesLeft
    {
      var cell;
      status, cell := DecodeScalar(substream, f, slot.cells[slot.size]);
      AppendCell(f, slot, cell);
      slot := Slot(if status then slot.size + 1 else slot.size, slot.cells[slot.size := cell]);
    }
    if substream.bytesLeft != 0 {
      return false, slot;
    }
    ok := stream.CloseSubstream(substream);
    ok := status;
  }

  /** One more item in a repeated field. */
  method DecodeRepeated(stream: IStream, f: Field, was: Slot) returns (ok: bool, slot: Slot)
    requires stream.Valid() && WellFormedField(f) && SlotShape(f, was) && f.htype.Repeated?
    modifies stream
    ensures stream.Valid() && SlotShape(f, slot)
    ensures stream.End() <= old(stream.End()) && (ok ==> stream.End() == old(stream.End()))
    ensures |SlotItems(f, was)| >= f.arraySize ==> !ok
    ensures |SlotItems(f, was)| < f.arraySize ==>
              match ParseItem(f, old(stream.Window()), Defaults(f.sub))
              case Failure => !ok
              case Success(item, rest) =>
                ok && SlotItems(f, slot) == SlotItems(f, was) + [item] && stream.Window() == rest
    ensures ok && SlotBounded(f, was) ==> SlotBounded(f, slot)
    decreases f, 2
  {
    if was.size >= f.arraySize {
      return false, was;
    }
    var cell;
    ok, cell := DecodeItem(stream, f, was.cells[was.size]);
    slot := Slot(was.size + 1, was.cells[was.size := cell]);
    AppendCell(f, was, cell);
  }

  /** The memory that a union member is decoded into: the union seen as this member, or its defaults. */
  method OpenUnion(f: Field, was: Cell) returns (cell: Cell)
    requires WellFormedField(f)
    ensures CellShape(f, cell)
    ensures f.ltype.Submessage? ==> SubVals(f, ItemOf(f, cell)) == Defaults(f.sub) && CellBounded(f, cell)
  {
    if f.ltype.Submessage? {
      ZeroSlotsShape(f.sub);
      var sub := new MessageStruct(ZeroSlots(f.sub));
      SetToDefaults(f.sub, sub);
      return CStruct(sub.slots);
    }
    InitialShape(f.(init := None));
    return if ScalarShape(f, was) then was else ZeroScalar(f);
  }

  /** A required, optional or oneof field. */
  method DecodeSingle(stream: IStream, f: Field, was: Slot) returns (ok: bool, slot: Slot)
    requires stream.Valid() && WellFormedField(f) && SlotShape(f, was) && !f.htype.Repeated?
    modifies stream
    ensures stream.Valid() && SlotShape(f, slot) && (f.htype.Oneof? ==> slot.size == f.tag)
    ensures stream.End() <= old(stream.End()) && (ok ==> stream.End() == old(stream.End()))
    ensures match ParseItem(f, old(stream.Window()), Base(f, ValOf(f, was)))
            case Failure => !ok
            case Success(item, rest) => ok && ValOf(f, slot) == Val(true, [item]) && stream.Window() == rest
    ensures ok && SlotBounded(f, was) ==> SlotBounded(f, slot)
    decreases f, 2
  {
    var size, cell := was.size, was.cells[0];
    match f.htype {
      case Required =>
      case Optional =>
        if f.HasSize() {
          size := 1;
        }
      case Oneof =>
        size := f.tag;
        cell := OpenUnion(f, cell);
    }
    SingleBase(f, was, cell);
    ok, cell := DecodeItem(stream, f, cell);
    slot := Slot(size, [cell]);
    assert ItemsOf(f, slot.cells, 1) == [ItemOf(f, cell)];
  }

  lemma SingleBase(f: Field, was: Slot, cell: Cell)
    requires WellFormedField(f) && SlotShape(f, was) && !f.htype.Repeated?
    requires if f.htype.Oneof? then f.ltype.Submessage? ==> SubVals(f, ItemOf(f, cell)) == Defaults(f.sub)
             else cell == was.cells[0]
    ensures forall s: Bytes :: ParseItem(f, s, Base(f, ValOf(f, was))) == ParseItem(f, s, SubVals(f, ItemOf(f, cell)))
  {
    if !f.htype.Oneof? {
      assert ItemsOf(f, was.cells, 1) == [ItemOf(f, cell)];
    }
  }

  /** decode_static_field, for the field at index `i`. */
  method DecodeField(stream: IStream, wireType: nat, fields: seq<Field>, i: nat, dest: MessageStruct) returns (ok: bool)
    requires stream.Valid() && WellFormed(fields) && StructShape(fields, dest.slots) && i < |fields|
    modifies stream, dest
    ensures stream.Valid() && StructShape(fields, dest.slots)
    ensures OthersKept(old(dest.slots), dest.slots, {Home(fields, i)})
    ensures stream.End() <= old(stream.End()) && (ok ==> stream.End() == old(stream.End()))
    ensures ok == ParseField(fields, i, wireType, old(stream.Window()), Contents(fields, old(dest.slots))).Success?
    ensures ok ==> ParseField(fields, i, wireType, old(stream.Window()), Contents(fields, old(dest.slots))) ==
                   Success(Contents(fields, dest.slots), stream.Window())
    ensures ok && StructBounded(fields, old(dest.slots)) ==> StructBounded(fields, dest.slots)
    decreases fields, 3
  {
    var f, h := fields[i], Home(fields, i);
    var before := dest.slots;
    SlotContent(fields, before, i);
    var slot;
    if f.htype.Repeated? && wireType == WT_STRING && f.ltype.Packable() {
      ok, slot := DecodePacked(stream, f, before[h]);
    } else if f.htype.Repeated? {
      ok, slot := DecodeRepeated(stream, f, before[h]);
    } else {
      ok, slot := DecodeSingle(stream, f, before[h]);
    }
    StoreKeepsShape(fields, before, i, slot);
    dest.slots := dest.slots[h := slot];
    if ok {
      if StructBounded(fields, before) {
        StoreKeepsBounds(fields, before, i, slot);
      }
      StoreIsPut(fields, before, i, slot, ValOf(f, slot).items);
    }
  }

  // ---------------------------------------------------------------- messages

  /** What pb_field_iter_find and the descriptor say about a tag agree. */
  lemma SelectedBy(fields: seq<Field>, tag: nat, found: bool, i: nat)
    requires WellFormed(fields) && (found && fields != [] ==> i < |fields| && fields[i].tag == tag)
    requires found <==> (fields == [] && tag == 0) ||
                        exists j :: 0 <= j < |fields| && FieldIter.Matches(fields[j], tag)
    ensures FieldWithTag(fields, tag) == if found && fields != [] then Some(i) else None
  {
    if found && fields != [] {
      TagSelects(fields, i);
    }
    var r := FieldWithTag(fields, tag);
    assert r.Some? ==> FieldIter.Matches(fields[r.value], tag);
  }

  lemma RecordCases(fields: seq<Field>, tag: nat, wireType: nat, s: Bytes, vals: seq<Val>, found: bool, i: nat)
    requires |vals| == |fields| && (fields == [] ==> found == (tag == 0))
    requires FieldWithTag(fields, tag) == if found && fields != [] then Some(i) else None
    ensures ParseRecord(fields, tag, wireType, s, vals) ==
            if found && fields != [] then ParseField(fields, i, wireType, s, vals)
            else if found || SkipField(wireType, s).Failure? then Failure
            else Success(vals, SkipField(wireType, s).rest)
    ensures SeenBy(fields, tag) == if found && fields != [] then {i} else {}
  {}

  /** A record whose field the iterator has found, at index `i`, with `rank` required fields before it. */
  method DecodeKnown(stream: IStream, wireType: nat, fields: seq<Field>, dest: MessageStruct, i: nat, rank: nat,
                     words: array<bv32>, ghost seen: set<nat>) returns (ok: bool)
    requires stream.Valid() && WellFormed(fields) && StructShape(fields, dest.slots)
    requires i < |fields| && rank == RequiredBefore(fields, i)
    requires words.Length == 2 && SeenBits(words[..], fields, seen)
    modifies stream, dest, words
    ensures stream.Valid() && StructShape(fields, dest.slots)
    ensures stream.End() <= old(stream.End()) && (ok ==> stream.End() == old(stream.End()))
    ensures SeenBits(words[..], fields, seen + {i})
    ensures OthersKept(old(dest.slots), dest.slots, Homes(fields, {i}))
    ensures var r := ParseField(fields, i, wireType, old(stream.Window()), Contents(fields, old(dest.slots)));
            && ok == r.Success?
            && (ok ==> r == Success(Contents(fields, dest.slots), stream.Window()))
    ensures ok && StructBounded(fields, old(dest.slots)) ==> StructBounded(fields, dest.slots)
    decreases fields, 4
  {
    ghost var before := words[..];
    RanksGrow(fields, i, |fields|);
    if fields[i].htype.Required? && rank < PB_MAX_REQUIRED_FIELDS {
      Mark(words, rank);
    }
    MarkedSeen(before, words[..], fields, seen, i);
    ok := DecodeField(stream, wireType, fields, i, dest);
  }

  /** The part of a round of the record loop that follows the header. */
  method DecodeRecord(stream: IStream, tag: nat, wireType: nat, fields: seq<Field>, dest: MessageStruct,
                      iter: FieldIter, words: array<bv32>, ghost seen: set<nat>) returns (ok: bool)
    requires stream.Valid() && WellFormed(fields) && StructShape(fields, dest.slots)
    requires iter.Valid() && iter.fields == fields && words.Length == 2 && SeenBits(words[..], fields, seen)
    modifies stream, dest, iter, words
    ensures stream.Valid() && StructShape(fields, dest.slots) && iter.Valid()
    ensures stream.End() <= old(stream.End()) && (ok ==> stream.End() == old(stream.End()))
    ensures ok ==> stream.bytesLeft < old(stream.bytesLeft) && SeenBits(words[..], fields, seen + SeenBy(fields, tag))
    ensures OthersKept(old(dest.slots), dest.slots, Homes(fields, SeenBy(fields, tag)))
    ensures var r := ParseRecord(fields, tag, wireType, old(stream.Window()), Contents(fields, old(dest.slots)));
            && ok == r.Success?
            && (ok ==> r == Success(Contents(fields, dest.slots), stream.Window()))
    ensures ok && StructBounded(fields, old(dest.slots)) ==> StructBounded(fields, dest.slots)
    decreases fields, 5
  {
    var found := iter.Find(tag);
    SelectedBy(fields, tag, found, iter.pos);
    var i, rank := iter.pos, iter.requiredFieldIndex;
    RecordCases(fields, tag, wireType, stream.Window(), Contents(fields, dest.slots), found, i);
    if found && fields != [] {
      ok := DecodeKnown(stream, wireType, fields, dest, i, rank, words, seen);
    } else {
      assert seen + {} == seen;
      ghost var slots, bits := dest.slots, words[..];
      ok := DecodeUnknown(stream, wireType, found);
      assert dest.slots == slots && words[..] == bits;
    }
  }

  /** A record that no field takes: skipped, but rejected if the terminator answered to its tag. */
  method DecodeUnknown(stream: IStream, wireType: nat, found: bool) returns (ok: bool)
    requires stream.Valid()
    modifies stream
    ensures stream.Valid() && stream.End() == old(stream.End())
    ensures var r := SkipField(wireType, old(stream.Window()));
            && ok == (!found && r.Success?)
            && (ok ==> stream.Window() == r.rest && stream.bytesLeft < old(stream.bytesLeft))
  {
    if found {
      // the terminator as a field is an integer of size 0, which its decoder rejects
      return false;
    }
    ok := stream.Skip(wireType);
  }

  /** The end of pb_decode_noinit. */
  method CheckRequired(fields: seq<Field>, iter: FieldIter, words: array<bv32>, ghost seen: set<nat>) returns (ok: bool)
    requires iter.Valid() && iter.fields == fields && WellFormed(fields)
    requires words.Length == 2 && SeenBits(words[..], fields, seen)
    modifies iter
    ensures ok == AllRequired(fields, seen)
  {
    ghost var bits := words[..];
    var count := iter.CountRequired();
    assert words[..] == bits;
    BitsDecideRequired(bits, fields, seen);
    ok := AllMarked(words, count);
    assert words[..] == bits;
  }

  lemma MessageCases(fields: seq<Field>, s: Bytes, vals: seq<Val>)
    requires |vals| == |fields|
    ensures var run := ParseRecords(fields, s, vals, {});
            ParseMessage(fields, s, vals) ==
            if run.Ran? && AllRequired(fields, run.seen) then Success(run.vals, run.rest) else Failure
  {}

  /** pb_decode_noinit. */
  method DecodeNoinit(stream: IStream, fields: seq<Field>, dest: MessageStruct) returns (ok: bool)
    requires stream.Valid() && WellFormed(fields) && StructShape(fields, dest.slots)
    modifies stream, dest
    ensures stream.Valid() && StructShape(fields, dest.slots)
    ensures stream.End() <= old(stream.End()) && (ok ==> stream.End() == old(stream.End()))
    ensures var r := ParseMessage(fields, old(stream.Window()), Contents(fields, old(dest.slots)));
            && ok == r.Success?
            && (ok ==> r == Success(Contents(fields, dest.slots), stream.Window()))
    ensures ok ==> RestLeft(fields, old(stream.Window()), Contents(fields, old(dest.slots)), old(dest.slots),
                            dest.slots, false)
    ensures ok && StructBounded(fields, old(dest.slots)) ==> StructBounded(fields, dest.slots)
    decreases fields, 7, 1
  {
    var words := new bv32[2](_ => 0);
    assert words[..] == [0, 0];
    NoBits(fields);
    var iter := new FieldIter(fields);
    ghost var seen: set<nat>;
    MessageCases(fields, stream.Window(), Contents(fields, dest.slots));
    ok, seen := DecodeRecords(stream, fields, dest, iter, words);
    if ok {
      ghost var slots, rest := dest.slots, stream.Window();
      ok := CheckRequired(fields, iter, words, seen);
      assert dest.slots == slots && stream.Window() == rest;
    }
  }

  /** The record loop of pb_decode_noinit. It ends because every round consumes input. */
  method DecodeRecords(stream: IStream, fields: seq<Field>, dest: MessageStruct, iter: FieldIter, words: array<bv32>)
    returns (ok: bool, ghost seen: set<nat>)
    requires stream.Valid() && WellFormed(fields) && StructShape(fields, dest.slots)
    requires iter.Valid() && iter.fields == fields && words.Length == 2 && SeenBits(words[..], fields, {})
    modifies stream, dest, iter, words
    ensures stream.Valid() && StructShape(fields, dest.slots) && iter.Valid()
    ensures stream.End() <= old(stream.End()) && (ok ==> stream.End() == old(stream.End()))
    ensures ok ==> SeenBits(words[..], fields, seen) && OthersKept(old(dest.slots), dest.slots, Homes(fields, seen))
    ensures var r := ParseRecords(fields, old(stream.Window()), Contents(fields, old(dest.slots)), {});
            && ok == r.Ran?
            && (ok ==> r == Ran(Contents(fields, dest.slots), seen, stream.Window(), r.complete))
    ensures ok && StructBounded(fields, old(dest.slots)) ==> StructBounded(fields, dest.slots)
    decreases fields, 6
  {
    seen := {};
    ghost var run := ParseRecords(fields, stream.Window(), Contents(fields, dest.slots), {});
    while stream.bytesLeft != 0
      invariant stream.Valid() && StructShape(fields, dest.slots) && iter.Valid()
      invariant stream.End() == old(stream.End())
      invariant SeenBits(words[..], fields, seen) && OthersKept(old(dest.slots), dest.slots, Homes(fields, seen))
      invariant StructBounded(fields, old(dest.slots)) ==> StructBounded(fields, dest.slots)
      invariant run == ParseRecords(fields, stream.Window(), Contents(fields, dest.slots), seen)
      decreases stream.bytesLeft
    {
      var wireType, tag, eof;
      ok, wireType, tag, eof := stream.DecodeTag();
      if !ok {
        return eof, seen;
      }
      ok := DecodeRecord(stream, tag, wireType, fields, dest, iter, words, seen);
      if !ok {
        return false, seen;
      }
      seen := seen + SeenBy(fields, tag);
    }
    return true, seen;
  }

  /**
   pb_decode: the result does not depend on what the struct held before, and what no record of the
   input is for is left in its initial state.
   */
  method Decode(stream: IStream, fields: seq<Field>, dest: MessageStruct) returns (ok: bool)
    requires stream.Valid() && WellFormed(fields) && StructShape(fields, dest.slots)
    modifies stream, dest
    ensures stream.Valid() && StructShape(fields, dest.slots)
    ensures stream.End() <= old(stream.End()) && (ok ==> stream.End() == old(stream.End()))
    ensures ok == ParseFresh(fields, old(stream.Window())).Success?
    ensures ok ==> ParseFresh(fields, old(stream.Window())) == Success(Contents(fields, dest.slots), stream.Window())
    ensures ok ==> RestLeft(fields, old(stream.Window()), Defaults(fields), old(dest.slots), dest.slots, true)
    ensures ok ==> StructBounded(fields, dest.slots)
    decreases fields, 8, 0
  {
    SetToDefaults(fields, dest);
    ok := DecodeNoinit(stream, fields, dest);
  }

  /** pb_decode_delimited. */
  method DecodeDelimited(stream: IStream, fields: seq<Field>, dest: MessageStruct) returns (ok: bool)
    requires stream.Valid() && WellFormed(fields) && StructShape(fields, dest.slots)
    modifies stream, dest
    ensures stream.Valid() && StructShape(fields, dest.slots)
    ensures stream.End() <= old(stream.End()) && (ok ==> stream.End() == old(stream.End()))
    ensures ok == ParseDelimited(fields, old(stream.Window())).Success?
    ensures ok ==> ParseDelimited(fields, old(stream.Window())) ==
                   Success(Contents(fields, dest.slots), stream.Window())
    ensures ok ==> RestLeft(fields, ReadBlock(old(stream.Window())).value, Defaults(fields), old(dest.slots),
                            dest.slots, true)
    ensures ok ==> StructBounded(fields, dest.slots)
  {
    DelimitedIsBlock(fields, stream.Window());
    ok := DecodeBlock(stream, fields, dest, true, Defaults(fields));
  }

  lemma DelimitedIsBlock(fields: seq<Field>, s: Bytes)
    ensures ParseDelimited(fields, s) == ParseBlock(fields, s, Defaults(fields))
  {}
}
