/**
 What pb_encode.c writes, as a function of the content of the source struct, and when it
 refuses to write.
 */
module Encoding {
  import opened Wire
  import opened Descriptor
  import opened Integers
  import opened Message

  /** The field encoders other than pb_enc_submessage. */
  function EncodeScalar(f: Field, item: Item): Bytes {
    match f.ltype
    case Varint | UVarint | SVarint => VarintBytes(ToWire(f.ltype, NumOf(item)))
    case Fixed32 => FixedBytes(WrapUnsigned(NumOf(item), 4), 4)
    case Fixed64 => FixedBytes(WrapUnsigned(NumOf(item), 8), 8)
    case BytesArray | CString | FixedLengthBytes => Block(BlobOf(item))
    case Submessage | Extension => []
  }

  function EncodeItem(f: Field, item: Item): Bytes
    decreases f, 0, 0
  {
    if f.ltype.Submessage? then Block(EncodeMessage(f.sub, SubVals(f, item))) else EncodeScalar(f, item)
  }

  /** The body of a packed array. */
  function EncodeItems(f: Field, items: seq<Item>): Bytes {
    if items == [] then [] else EncodeScalar(f, items[0]) + EncodeItems(f, items[1..])
  }

  /** One record per item. */
  function EncodeRecords(f: Field, items: seq<Item>): Bytes
    decreases f, 1, |items|
  {
    if items == [] then []
    else TagBytes(f.ltype.WireType(), f.tag) + EncodeItem(f, items[0]) + EncodeRecords(f, items[1..])
  }

  /** pb_check_proto3_default_value for an item that is not a submessage. */
  predicate IsZero(f: Field, item: Item) {
    if f.ltype.FixedLengthBytes? then f.dataSize == 0
    else if f.ltype.BytesArray? || f.ltype.CString? then BlobOf(item) == []
    else NumOf(item) == 0
  }

  /** The items of a field that are written. */
  function LiveItems(f: Field, v: Val): seq<Item> {
    if f.htype.Repeated? then v.items
    else if f.Singular() then if IsZero(f, FirstItem(f, v)) then [] else [FirstItem(f, v)]
    else if v.present then [FirstItem(f, v)]
    else []
  }

  /** encode_basic_field; arrays of packable items are always packed. */
  function EncodeVal(f: Field, v: Val): Bytes
    decreases f, 2
  {
    if f.htype.Repeated? && f.ltype.Packable() && v.items != [] then
      TagBytes(WT_STRING, f.tag) + Block(EncodeItems(f, v.items))
    else EncodeRecords(f, LiveItems(f, v))
  }

  function EncodeFrom(fields: seq<Field>, vals: seq<Val>, i: nat): Bytes
    requires |vals| == |fields| && i <= |fields|
    decreases fields, |fields| - i
  {
    if i == |fields| then [] else EncodeVal(fields[i], vals[i]) + EncodeFrom(fields, vals, i + 1)
  }

  /** pb_encode. */
  function EncodeMessage(fields: seq<Field>, vals: seq<Val>): Bytes
    requires |vals| == |fields|
    decreases fields, |fields| + 1
  {
    EncodeFrom(fields, vals, 0)
  }

  // ---------------------------------------------------------------- refusals

  /** The size word of a bytes field stays within its buffer, in every live item. */
  predicate CellEncodable(f: Field, c: Cell)
    decreases f, 0
  {
    && (f.ltype.BytesArray? && c.CBuf? ==> c.size + BYTES_HEADER <= f.dataSize)
    && (f.ltype.Submessage? && c.CStruct? ==> StructEncodable(f.sub, c.slots))
  }

  /** The count of a repeated field stays within its array. */
  predicate SlotEncodable(f: Field, slot: Slot)
    decreases f, 1
  {
    if f.htype.Repeated? then
      && slot.size <= f.arraySize
      && forall k :: 0 <= k < slot.size && k < |slot.cells| ==> CellEncodable(f, slot.cells[k])
    else
      (f.htype.Optional? ==> f.Singular() || slot.size != 0) && (f.htype.Oneof? ==> slot.size == f.tag) ==>
      forall k :: 0 <= k < |slot.cells| ==> CellEncodable(f, slot.cells[k])
  }

  /** pb_encode has no reason of its own to fail; it can still run out of room. */
  predicate StructEncodable(fields: seq<Field>, slots: seq<Slot>)
    decreases fields, 2
  {
    |slots| == |fields| ==>
      forall i {:trigger slots[Home(fields, i)]} ::
        0 <= i < |fields| ==> SlotEncodable(fields[i], slots[Home(fields, i)])
  }

  // ---------------------------------------------------------------- what is left out

  predicate CellIsZero(f: Field, c: Cell) {
    match c
    case CInt(n) => n == 0
    case CBuf(size, buf) =>
      if f.ltype.BytesArray? then size == 0
      else if f.ltype.CString? then buf == [] || buf[0] == 0
      else buf == []
    case CStruct(_) => false
  }

  /** An array without entries, an absent or unselected field, or a proto3 field that is zero in memory. */
  predicate SlotIsSilent(f: Field, slot: Slot) {
    match f.htype
    case Required => false
    case Repeated => slot.size == 0
    case Oneof => slot.size != f.tag
    case Optional => if f.HasSize() then slot.size == 0 else slot.cells != [] && CellIsZero(f, slot.cells[0])
  }

  lemma SilentSlot(f: Field, slot: Slot)
    requires WellFormedField(f) && SlotShape(f, slot) && SlotEncodable(f, slot)
    ensures EncodeVal(f, ValOf(f, slot)) == [] <==> SlotIsSilent(f, slot)
  {
    var v := ValOf(f, slot);
    assert EncodeVal(f, v) == [] <==> LiveItems(f, v) == [];
    if f.Singular() {
      assert !f.ltype.Submessage?;
      assert ItemsOf(f, slot.cells, 1) == [ItemOf(f, slot.cells[0])];
    }
  }

  /** From field `i` on, every field is silent. */
  predicate SilentBehind(fields: seq<Field>, slots: seq<Slot>, i: nat)
    requires |slots| == |fields|
  {
    forall j {:trigger slots[Home(fields, j)]} ::
      i <= j < |fields| ==> SlotIsSilent(fields[j], slots[Home(fields, j)])
  }

  lemma SilentField(fields: seq<Field>, slots: seq<Slot>, i: nat)
    requires WellFormed(fields) && StructShape(fields, slots) && StructEncodable(fields, slots) && i < |fields|
    ensures EncodeVal(fields[i], Contents(fields, slots)[i]) == [] <==>
            SlotIsSilent(fields[i], slots[Home(fields, i)])
  {
    var f, slot := fields[i], slots[Home(fields, i)];
    assert SlotShape(f, slot) && WellFormedField(f) && SlotEncodable(f, slot);
    SilentSlot(f, slot);
    assert Contents(fields, slots)[i] == ValAt(fields, slots, i);
  }

  lemma SilentStep(fields: seq<Field>, slots: seq<Slot>, i: nat)
    requires |slots| == |fields| && i < |fields|
    ensures SilentBehind(fields, slots, i) <==>
            SlotIsSilent(fields[i], slots[Home(fields, i)]) && SilentBehind(fields, slots, i + 1)
  {}

  lemma {:induction false} SilentFrom(fields: seq<Field>, slots: seq<Slot>, i: nat)
    requires WellFormed(fields) && StructShape(fields, slots) && StructEncodable(fields, slots) && i <= |fields|
    ensures EncodeFrom(fields, Contents(fields, slots), i) == [] <==> SilentBehind(fields, slots, i)
    decreases |fields| - i
  {
    if i < |fields| {
      SilentFrom(fields, slots, i + 1);
      SilentField(fields, slots, i);
      SilentStep(fields, slots, i);
      var vals := Contents(fields, slots);
      assert EncodeFrom(fields, vals, i) == EncodeVal(fields[i], vals[i]) + EncodeFrom(fields, vals, i + 1);
    }
  }

  /** A struct is encoded as no bytes at all exactly when every field is silent. */
  lemma SilentMessage(fields: seq<Field>, slots: seq<Slot>)
    requires WellFormed(fields) && StructShape(fields, slots) && StructEncodable(fields, slots)
    ensures EncodeMessage(fields, Contents(fields, slots)) == [] <==> SilentBehind(fields, slots, 0)
  {
    SilentFrom(fields, slots, 0);
  }
}
