/**
 Message descriptors (the pb_field_t arrays of pb.h), the layout of the C structs they
 describe, and the memory of such a struct at field granularity.

 A descriptor is the sequence of its fields without the terminator; the terminator is what
 an iterator sees at index 0 of an empty descriptor.
 */
module Descriptor {
  import opened Wire

  datatype LType =
    | Varint | UVarint | SVarint | Fixed32 | Fixed64
    | BytesArray | CString | Submessage | Extension | FixedLengthBytes
  {
    /** Not above PB_LTYPE_LAST_PACKABLE. */
    predicate Packable() {
      Varint? || UVarint? || SVarint? || Fixed32? || Fixed64?
    }

    predicate Integer() {
      Varint? || UVarint? || SVarint?
    }

    /** The wire type that pb_encode_tag_for_field selects. */
    function WireType(): (w: nat)
      ensures Integer() ==> w == 0
      ensures Fixed64? ==> w == 1
      ensures Fixed32? ==> w == 5
      ensures !Packable() ==> w == 2
    {
      if Integer() then WT_VARINT
      else if Fixed32? then WT_32BIT
      else if Fixed64? then WT_64BIT
      else WT_STRING
    }
  }

  datatype HType = Required | Optional | Repeated | Oneof

  /**
   The memory of one item: a number, a byte buffer (with the size word of a
   pb_bytes_array_t; the word is not used for the other buffer types), a nested struct.
   */
  datatype Cell =
    | CInt(n: int)
    | CBuf(size: nat, buf: Bytes)
    | CStruct(slots: seq<Slot>)

  /**
   The memory that belongs to one struct member: what pSize points at (the has flag, the
   array count or the which tag) and the item or array of items that pData points at.
   */
  datatype Slot = Slot(size: nat, cells: seq<Cell>)

  /** pb_field_t. `ptr` is `sub` for submessages and the default value otherwise. */
  datatype Field = Field(
    tag: nat,
    ltype: LType,
    htype: HType,
    dataOffset: nat,
    sizeOffset: int,
    dataSize: nat,
    arraySize: nat,
    sub: seq<Field>,
    init: Option<Cell>)
  {
    /** pSize differs from pData: the field has a has flag, count or which tag of its own. */
    predicate HasSize() {
      sizeOffset != 0
    }

    /** A proto3 style field: optional, without a has flag. */
    predicate Singular() {
      htype.Optional? && !HasSize()
    }

    /** How many items the struct member has room for. */
    function Capacity(): nat {
      if htype.Repeated? then arraySize else 1
    }
  }

  // pb_size_t is uint32_t in this build (PB_FIELD_32BIT)
  const PB_SIZE_MAX: nat := TWO_32 - 1
  // offsetof(pb_bytes_array_t, bytes)
  const BYTES_HEADER: nat := 4
  const PB_MAX_REQUIRED_FIELDS: nat := 64

  // ---------------------------------------------------------------- layout

  /** Field `i` shares the union of the field before it. */
  predicate InUnion(fields: seq<Field>, i: nat)
    requires i < |fields|
  {
    && i > 0
    && fields[i - 1].htype.Oneof?
    && fields[i].htype.Oneof?
    && fields[i].dataOffset == PB_SIZE_MAX
  }

  /** The first field of the union of field `i`; `i` itself for a field with its own storage. */
  function Home(fields: seq<Field>, i: nat): (h: nat)
    requires i < |fields|
    ensures h <= i
    ensures h != i ==> fields[i].htype.Oneof? && fields[h].htype.Oneof?
  {
    if InUnion(fields, i) then Home(fields, i - 1) else i
  }

  /** Bytes from the start of field `i` to where the iterator starts the offset of the next one. */
  function Extent(f: Field): nat {
    if f.htype.Repeated? then f.dataSize * f.arraySize else f.dataSize
  }

  /** The offset of pData when the iterator is at field `i`. */
  function DataAt(fields: seq<Field>, i: nat): nat
    requires i < |fields|
  {
    if i == 0 then fields[0].dataOffset
    else if InUnion(fields, i) then DataAt(fields, i - 1)
    else DataAt(fields, i - 1) + Extent(fields[i - 1]) + fields[i].dataOffset
  }

  /** The offset of pSize when the iterator is at field `i`. */
  function SizeAt(fields: seq<Field>, i: nat): int
    requires i < |fields|
  {
    if InUnion(fields, i) then SizeAt(fields, i - 1) else DataAt(fields, i) + fields[i].sizeOffset
  }

  /** The number of required fields before field `i`. */
  function RequiredBefore(fields: seq<Field>, i: nat): (n: nat)
    requires i <= |fields|
    ensures n <= i
  {
    if i == 0 then 0
    else RequiredBefore(fields, i - 1) + if fields[i - 1].htype.Required? then 1 else 0
  }

  function RequiredCount(fields: seq<Field>): nat {
    RequiredBefore(fields, |fields|)
  }

  lemma {:induction false} HomeOfHome(fields: seq<Field>, i: nat)
    requires i < |fields|
    ensures Home(fields, Home(fields, i)) == Home(fields, i)
  {
    if InUnion(fields, i) {
      HomeOfHome(fields, i - 1);
    }
  }

  predicate HasStorage(f: Field) {
    f.dataSize > 0 && (f.htype.Repeated? ==> f.arraySize > 0)
  }

  /** A field shares storage with the one before it iff both are in a oneof and the offset says so. */
  lemma UnionMembership(fields: seq<Field>, i: nat)
    requires 0 < i < |fields|
    ensures Home(fields, i) == Home(fields, i - 1) <==>
            fields[i - 1].htype.Oneof? && fields[i].htype.Oneof? && fields[i].dataOffset == 0xFFFF_FFFF
  {}

  /** A union's members have the pData, and the pSize, of its first member. */
  lemma {:induction false} UnionSharesStorage(fields: seq<Field>, i: nat)
    requires i < |fields|
    ensures DataAt(fields, i) == DataAt(fields, Home(fields, i))
    ensures SizeAt(fields, i) == SizeAt(fields, Home(fields, i))
  {
    if InUnion(fields, i) {
      UnionSharesStorage(fields, i - 1);
    }
  }

  /** Outside of a oneof, the has flag or count is a member of its own exactly where pSize differs from pData. */
  lemma HasSizeIsPointer(fields: seq<Field>, i: nat)
    requires i < |fields| && !fields[i].htype.Oneof?
    ensures fields[i].HasSize() <==> SizeAt(fields, i) != DataAt(fields, i)
  {}

  lemma {:induction false} DataGrows(fields: seq<Field>, i: nat, j: nat)
    requires i < j < |fields| && Home(fields, j) > i
    requires forall k :: 0 <= k < |fields| ==> HasStorage(fields[k])
    ensures DataAt(fields, i) < DataAt(fields, j)
    decreases j
  {
    if InUnion(fields, j) {
      DataGrows(fields, i, j - 1);
    } else if i < j - 1 && Home(fields, j - 1) > i {
      DataGrows(fields, i, j - 1);
    } else if i < j - 1 {
      SameHomeBetween(fields, i, j - 1);
      UnionSharesStorage(fields, i);
      UnionSharesStorage(fields, j - 1);
    }
  }

  lemma {:induction false} SameHomeBetween(fields: seq<Field>, i: nat, j: nat)
    requires i <= j < |fields| && Home(fields, j) <= i
    ensures Home(fields, i) == Home(fields, j)
  {
    if i < j {
      SameHomeBetween(fields, i, j - 1);
    }
  }

  /**
   pData tells storage apart: two fields have the same pData exactly when they are members
   of one union. This is why a struct can be kept as one slot per `Home`.
   */
  lemma StorageIsHome(fields: seq<Field>, i: nat, j: nat)
    requires i < |fields| && j < |fields|
    requires forall k :: 0 <= k < |fields| ==> HasStorage(fields[k])
    ensures DataAt(fields, i) == DataAt(fields, j) <==> Home(fields, i) == Home(fields, j)
  {
    if j < i {
      StorageIsHome(fields, j, i);
    } else if i < j {
      if Home(fields, j) > i {
        DataGrows(fields, i, j);
        HomeOfHome(fields, j);
      } else {
        SameHomeBetween(fields, i, j);
        UnionSharesStorage(fields, i);
        UnionSharesStorage(fields, j);
      }
    }
  }

  lemma {:induction false} DataMonotone(fields: seq<Field>, i: nat, j: nat)
    requires i <= j < |fields|
    ensures DataAt(fields, i) <= DataAt(fields, j)
    decreases j
  {
    if i < j {
      DataMonotone(fields, i, j - 1);
    }
  }

  /**
   No field reaches into the storage of a later one. For a field with storage of its own, an array
   included, this always holds. For a member `i` of a union whose last member is `e`, it holds iff
   the offset of the field after the union makes up for what `e` is smaller than `i`.
   */
  lemma {:induction false} NoOverlap(fields: seq<Field>, i: nat, e: nat, j: nat)
    requires i <= e < j < |fields| && Home(fields, e) == Home(fields, i) != Home(fields, e + 1)
    ensures var size := fields[i].dataSize * if fields[i].htype.Repeated? then fields[i].arraySize else 1;
            && (!fields[i].htype.Oneof? ==> DataAt(fields, i) + size <= DataAt(fields, j))
            && (fields[i].htype.Oneof? ==>
                  (DataAt(fields, i) + size <= DataAt(fields, e + 1) <==>
                   size <= fields[e].dataSize + fields[e + 1].dataOffset))
            && DataAt(fields, e + 1) <= DataAt(fields, j)
  {
    UnionMembership(fields, e + 1);
    UnionSharesStorage(fields, i);
    UnionSharesStorage(fields, e);
    DataMonotone(fields, e + 1, j);
    if !fields[i].htype.Oneof? && i < e {
      OneStorage(fields, i, e);
    } else if fields[i].htype.Oneof? {
      OneStorage(fields, i, e);
    }
  }

  /** Between fields with different storage, the storage of the first one ends somewhere. */
  lemma {:induction false} LastOfStorage(fields: seq<Field>, i: nat, j: nat) returns (e: nat)
    requires i < j < |fields| && Home(fields, i) != Home(fields, j)
    ensures i <= e < j && Home(fields, e) == Home(fields, i) != Home(fields, e + 1)
    decreases j - i
  {
    e := i;
    if Home(fields, i + 1) == Home(fields, i) {
      e := LastOfStorage(fields, i + 1, j);
    }
  }

  /** For all fields with different storage: one with storage of its own ends before the later one. */
  lemma {:induction false} StorageDisjoint(fields: seq<Field>, i: nat, j: nat)
    requires i < j < |fields| && Home(fields, i) != Home(fields, j) && !fields[i].htype.Oneof?
    ensures DataAt(fields, i) + fields[i].dataSize * (if fields[i].htype.Repeated? then fields[i].arraySize else 1) <=
            DataAt(fields, j)
  {
    var e := LastOfStorage(fields, i, j);
    NoOverlap(fields, i, e, j);
  }

  // a union of 8 and 4 bytes, and a field at offset 0 from the end of its second member
  const OVERLAPPING: seq<Field> := [
    Field(1, UVarint, Oneof, 4, -4, 8, 0, [], None),
    Field(2, UVarint, Oneof, PB_SIZE_MAX, 0, 4, 0, [], None),
    Field(3, UVarint, Required, 0, 0, 4, 0, [], None)]

  /** Offsets that ignore the larger member of a union let the next field overlap it. */
  lemma UnionOverlaps()
    ensures Home(OVERLAPPING, 0) == Home(OVERLAPPING, 1)
    ensures DataAt(OVERLAPPING, 2) < DataAt(OVERLAPPING, 0) + OVERLAPPING[0].dataSize
  {
    assert DataAt(OVERLAPPING, 0) == 4;
    assert DataAt(OVERLAPPING, 1) == 4;
  }

  /** Fields with one home are members of one union. */
  lemma {:induction false} OneStorage(fields: seq<Field>, i: nat, e: nat)
    requires i <= e < |fields| && Home(fields, e) == Home(fields, i)
    ensures i < e ==> fields[i].htype.Oneof? && fields[e].htype.Oneof?
  {}

  // ---------------------------------------------------------------- well-formedness

  function Modulus(width: nat): (m: nat)
    ensures m >= 0x100 && m % 2 == 0
  {
    if width == 1 then 0x100 else if width == 2 then 0x1_0000 else if width == 4 then TWO_32 else TWO_64
  }

  predicate InRange(ltype: LType, width: nat, n: int) {
    if ltype.Varint? || ltype.SVarint? then -(Modulus(width) / 2) <= n < Modulus(width) / 2
    else 0 <= n < Modulus(width)
  }

  /** The memory of an item that is not a submessage has the type the descriptor says. */
  predicate ScalarShape(f: Field, c: Cell) {
    match f.ltype
    case Varint | UVarint | SVarint | Fixed32 | Fixed64 => c.CInt? && InRange(f.ltype, f.dataSize, c.n)
    case BytesArray => c.CBuf? && |c.buf| + BYTES_HEADER == f.dataSize
    case CString | FixedLengthBytes => c.CBuf? && |c.buf| == f.dataSize
    case Submessage | Extension => false
  }

  predicate LegalSize(f: Field) {
    && f.dataSize < TWO_32
    && f.arraySize < TWO_32
    && (f.ltype.Integer() ==> f.dataSize in {1, 2, 4, 8})
    && (f.ltype.Fixed32? ==> f.dataSize == 4)
    && (f.ltype.Fixed64? ==> f.dataSize == 8)
    && (f.ltype.BytesArray? ==> f.dataSize >= BYTES_HEADER)
    && (f.ltype.CString? ==> f.dataSize >= 1)
  }

  /** What the nanopb generator guarantees of a static, non-extension field. */
  predicate WellFormedField(f: Field)
    decreases f, 0
  {
    && 1 <= f.tag < TWO_32 / 8
    && !f.ltype.Extension?
    && LegalSize(f)
    && (f.htype.Repeated? || f.htype.Oneof? ==> f.HasSize())
    && (f.ltype.Submessage? ==> WellFormed(f.sub) && !f.Singular())
    && (f.init.Some? ==> ScalarShape(f, f.init.value) && !f.Singular())
    && (f.init.Some? && f.ltype.BytesArray? ==> f.init.value.size + BYTES_HEADER <= f.dataSize)
  }

  predicate DistinctTags(fields: seq<Field>) {
    fields == [] ||
    var n := |fields| - 1;
    (forall i :: 0 <= i < n ==> fields[i].tag != fields[n].tag) && DistinctTags(fields[..n])
  }

  lemma {:induction false} TagsDiffer(fields: seq<Field>, i: nat, j: nat)
    requires DistinctTags(fields) && i < |fields| && j < |fields| && i != j
    ensures fields[i].tag != fields[j].tag
    decreases |fields|
  {
    var n := |fields| - 1;
    if i < n && j < n {
      TagsDiffer(fields[..n], i, j);
    }
  }

  /**
   A usable descriptor. The field tags are distinct, and the number of required fields is
   one for which the remaining-bits test of pb_decode_noinit is defined: with 32 it shifts a
   32-bit word by 32, from 64 on it reads past the end of its two-word array.
   */
  predicate WellFormed(fields: seq<Field>)
    decreases fields, 1
  {
    && (forall i :: 0 <= i < |fields| ==> WellFormedField(fields[i]))
    && DistinctTags(fields)
    && RequiredCount(fields) < 64
    && RequiredCount(fields) != 32
  }

  /** The field with the given tag, which is the only one in a well-formed descriptor. */
  function FieldWithTag(fields: seq<Field>, tag: nat): (r: Option<nat>)
    ensures r.Some? ==> r.value < |fields| && fields[r.value].tag == tag
    ensures r.None? ==> forall i :: 0 <= i < |fields| ==> fields[i].tag != tag
  {
    if fields == [] then None
    else if fields[|fields| - 1].tag == tag then Some(|fields| - 1)
    else FieldWithTag(fields[..|fields| - 1], tag)
  }

  /** In a well-formed descriptor a field is the one its tag selects. */
  lemma {:induction false} TagSelects(fields: seq<Field>, i: nat)
    requires i < |fields|
    requires DistinctTags(fields)
    ensures FieldWithTag(fields, fields[i].tag) == Some(i)
  {
    var r := FieldWithTag(fields, fields[i].tag);
    assert r.Some?;
    if r.value != i {
      TagsDiffer(fields, i, r.value);
    }
  }

  // ---------------------------------------------------------------- memory

  /** The memory of an item has the type the descriptor says. */
  predicate CellShape(f: Field, c: Cell)
    decreases f, 0
  {
    if f.ltype.Submessage? then c.CStruct? && StructShape(f.sub, c.slots) else ScalarShape(f, c)
  }

  /** A union is only known to hold an item of the type that its which tag names. */
  predicate SlotShape(f: Field, slot: Slot)
    decreases f, 1
  {
    && |slot.cells| == f.Capacity()
    && ((f.htype.Oneof? ==> slot.size == f.tag) ==>
        forall k :: 0 <= k < |slot.cells| ==> CellShape(f, slot.cells[k]))
  }

  predicate StructShape(fields: seq<Field>, slots: seq<Slot>)
    decreases fields, 2
  {
    && |slots| == |fields|
    && forall i {:trigger slots[Home(fields, i)]} :: 0 <= i < |fields| ==> SlotShape(fields[i], slots[Home(fields, i)])
  }

  // ---------------------------------------------------------------- bounds

  /** The size word of a bytes item does not reach past its buffer. */
  predicate CellBounded(f: Field, c: Cell)
    decreases f, 0
  {
    && (f.ltype.BytesArray? && c.CBuf? ==> c.size + BYTES_HEADER <= f.dataSize)
    && (f.ltype.Submessage? && c.CStruct? ==> StructBounded(f.sub, c.slots))
  }

  /** The count of an array does not reach past it, and the items in use are bounded. */
  predicate SlotBounded(f: Field, slot: Slot)
    decreases f, 1
  {
    if f.htype.Repeated? then
      && slot.size <= f.arraySize
      && forall k :: 0 <= k < slot.size && k < |slot.cells| ==> CellBounded(f, slot.cells[k])
    else
      (f.htype.Oneof? ==> slot.size == f.tag) ==>
      forall k :: 0 <= k < |slot.cells| ==> CellBounded(f, slot.cells[k])
  }

  /** A reader that goes by the counts and sizes in memory stays within the struct, at any depth. */
  predicate StructBounded(fields: seq<Field>, slots: seq<Slot>)
    decreases fields, 2
  {
    |slots| == |fields| ==>
      forall i {:trigger slots[Home(fields, i)]} ::
        0 <= i < |fields| ==> SlotBounded(fields[i], slots[Home(fields, i)])
  }
}
