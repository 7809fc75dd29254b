/**
 Observable equality of two structs in memory, by the counts, sizes, flags and tags that a
 reader goes by, and how it follows from equal contents.
 */
module SameStructs {
  import opened Wire
  import opened Descriptor
  import opened Message
  import opened Encoding
  import opened Observation

  predicate SameCell(f: Field, a: Cell, b: Cell)
    decreases f, 0
  {
    match f.ltype
    case Varint | UVarint | SVarint | Fixed32 | Fixed64 => a.CInt? && b.CInt? && a.n == b.n
    case BytesArray =>
      && a.CBuf? && b.CBuf? && a.size == b.size
      && a.size <= |a.buf| && b.size <= |b.buf| && a.buf[..a.size] == b.buf[..b.size]
    case CString => a.CBuf? && b.CBuf? && UpToNul(a.buf) == UpToNul(b.buf)
    case FixedLengthBytes => a.CBuf? && b.CBuf? && a.buf == b.buf
    case Submessage => a.CStruct? && b.CStruct? && SameStruct(f.sub, a.slots, b.slots)
    case Extension => false
  }

  /** The same items in the first `n` cells. */
  predicate SameCells(f: Field, a: seq<Cell>, b: seq<Cell>, n: nat)
    decreases f, 1
  {
    n <= |a| && n <= |b| && forall k :: 0 <= k < n ==> SameCell(f, a[k], b[k])
  }

  predicate SameSlot(f: Field, a: Slot, b: Slot)
    decreases f, 2
  {
    match f.htype
    case Required => SameCells(f, a.cells, b.cells, 1)
    case Optional =>
      var has := f.Singular() || a.size != 0;
      has == (f.Singular() || b.size != 0) && (has ==> SameCells(f, a.cells, b.cells, 1))
    case Repeated => a.size == b.size && SameCells(f, a.cells, b.cells, a.size)
    case Oneof => (a.size == f.tag) == (b.size == f.tag) && (a.size == f.tag ==> SameCells(f, a.cells, b.cells, 1))
  }

  predicate SameStruct(fields: seq<Field>, a: seq<Slot>, b: seq<Slot>)
    decreases fields, 3
  {
    && |a| == |b| == |fields|
    && forall i {:trigger Home(fields, i)} ::
         0 <= i < |fields| ==> SameSlot(fields[i], a[Home(fields, i)], b[Home(fields, i)])
  }

  // ---------------------------------------------------------------- bounds

  lemma {:induction false} BoundedCellIsEncodable(f: Field, c: Cell)
    requires CellBounded(f, c)
    ensures CellEncodable(f, c)
    decreases f, 0
  {
    if f.ltype.Submessage? && c.CStruct? {
      BoundedIsEncodable(f.sub, c.slots);
    }
  }

  /** Nothing in a bounded struct makes the encoder refuse it. */
  lemma {:induction false} BoundedIsEncodable(fields: seq<Field>, slots: seq<Slot>)
    requires StructBounded(fields, slots)
    ensures StructEncodable(fields, slots)
    decreases fields, 1
  {
    forall i | 0 <= i < |fields| && |slots| == |fields|
      ensures SlotEncodable(fields[i], slots[Home(fields, i)])
    {
      var f, slot := fields[i], slots[Home(fields, i)];
      assert SlotBounded(f, slot);
      forall k | 0 <= k < |slot.cells| && CellBounded(f, slot.cells[k])
        ensures CellEncodable(f, slot.cells[k])
      {
        BoundedCellIsEncodable(f, slot.cells[k]);
      }
    }
  }

  // ---------------------------------------------------------------- contents

  lemma {:induction false} SameItemSameCell(f: Field, a: Cell, b: Cell)
    requires WellFormedField(f) && CellShape(f, a) && CellShape(f, b) && CellEncodable(f, a) && CellEncodable(f, b)
    requires SameItem(f, ItemOf(f, a), ItemOf(f, b))
    ensures SameCell(f, a, b)
    decreases f, 0
  {
    if f.ltype.Submessage? {
      SameContentsSameStruct(f.sub, a.slots, b.slots);
    } else {
      assert ScalarItem(f, a) == ScalarItem(f, b);
      assert f.ltype.BytesArray? ==> |BlobOf(ScalarItem(f, a))| == a.size && |BlobOf(ScalarItem(f, b))| == b.size;
    }
  }

  lemma {:induction false} SameItemsSameCells(f: Field, a: seq<Cell>, b: seq<Cell>, n: nat)
    requires WellFormedField(f) && n <= |a| && n <= |b|
    requires forall k :: 0 <= k < n ==> CellShape(f, a[k]) && CellEncodable(f, a[k])
    requires forall k :: 0 <= k < n ==> CellShape(f, b[k]) && CellEncodable(f, b[k])
    requires forall k :: 0 <= k < n ==> SameItem(f, ItemOf(f, a[k]), ItemOf(f, b[k]))
    ensures SameCells(f, a, b, n)
    decreases f, 1
  {
    forall k | 0 <= k < n
      ensures SameCell(f, a[k], b[k])
    {
      SameItemSameCell(f, a[k], b[k]);
    }
  }

  lemma LiveItem(f: Field, slot: Slot, k: nat)
    requires SlotShape(f, slot) && k < |ValOf(f, slot).items|
    ensures k < |slot.cells| && ValOf(f, slot).items[k] == ItemOf(f, slot.cells[k])
  {}

  lemma {:induction false} SameValSameSlot(f: Field, a: Slot, b: Slot)
    requires WellFormedField(f) && SlotShape(f, a) && SlotShape(f, b) && SlotEncodable(f, a) && SlotEncodable(f, b)
    requires SameVal(f, ValOf(f, a), ValOf(f, b))
    ensures SameSlot(f, a, b)
    decreases f, 2
  {
    var v, w := ValOf(f, a), ValOf(f, b);
    if v.present {
      forall k | 0 <= k < |v.items|
        ensures SameItem(f, ItemOf(f, a.cells[k]), ItemOf(f, b.cells[k]))
      {
        LiveItem(f, a, k);
        LiveItem(f, b, k);
      }
      SameItemsSameCells(f, a.cells, b.cells, |v.items|);
    }
  }

  /**
   For structs that the encoder accepts, equal contents are equal memory to a reader: no count or
   size hides behind the capacity at which a content cuts it off.
   */
  lemma {:induction false} SameContentsSameStruct(fields: seq<Field>, a: seq<Slot>, b: seq<Slot>)
    requires WellFormed(fields) && StructShape(fields, a) && StructShape(fields, b)
    requires StructEncodable(fields, a) && StructEncodable(fields, b)
    requires SameMessage(fields, Contents(fields, a), Contents(fields, b))
    ensures SameStruct(fields, a, b)
    decreases fields, 3
  {
    forall i | 0 <= i < |fields|
      ensures SameSlot(fields[i], a[Home(fields, i)], b[Home(fields, i)])
    {
      assert SameVal(fields[i], Contents(fields, a)[i], Contents(fields, b)[i]);
      assert Contents(fields, a)[i] == ValAt(fields, a, i) && Contents(fields, b)[i] == ValAt(fields, b, i);
      assert SlotShape(fields[i], a[Home(fields, i)]) && SlotShape(fields[i], b[Home(fields, i)]);
      SameValSameSlot(fields[i], a[Home(fields, i)], b[Home(fields, i)]);
    }
  }
}
