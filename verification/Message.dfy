/**
 The content of a message struct: what its memory means, without the bytes that no reader
 can reach (array entries past the count, dead union members, buffer bytes past the end of a
 string). Encoding and decoding are specified on contents.
 */
module Message {
  import opened Wire
  import opened Descriptor

  datatype Item = Num(n: int) | Blob(b: Bytes) | Msg(vals: seq<Val>)

  /**
   One field: the items it holds and whether they are live. An optional field that is absent
   still holds an item, which a later record of a submessage merges into; a union member that
   is not selected, and it alone, holds nothing.
   */
  datatype Val = Val(present: bool, items: seq<Item>)

  /** The bytes before the first NUL; all of them if there is none. */
  function UpToNul(buf: Bytes): (r: Bytes)
    ensures |r| <= |buf| && r == buf[..|r|]
    ensures forall k :: 0 <= k < |r| ==> r[k] != 0
    ensures |r| < |buf| ==> buf[|r|] == 0
  {
    if buf == [] || buf[0] == 0 then [] else [buf[0]] + UpToNul(buf[1..])
  }

  function Zeros(n: nat): (r: Bytes)
    ensures |r| == n && forall k :: 0 <= k < n ==> r[k] == 0
  {
    seq(n, _ => 0)
  }

  function Min(a: nat, b: nat): (m: nat)
    ensures m <= a && m <= b && (m == a || m == b)
  {
    if a <= b then a else b
  }

  // ---------------------------------------------------------------- from memory to content

  /** The initial memory of a field that is not a submessage: its default value, or zeros. */
  function InitialCell(f: Field): Cell {
    if f.init.Some? then f.init.value
    else ZeroScalar(f)
  }

  function ZeroScalar(f: Field): Cell {
    if f.ltype.BytesArray? then CBuf(0, Zeros(if f.dataSize >= BYTES_HEADER then f.dataSize - BYTES_HEADER else 0))
    else if f.ltype.CString? || f.ltype.FixedLengthBytes? then CBuf(0, Zeros(f.dataSize))
    else CInt(0)
  }

  function ScalarItem(f: Field, c: Cell): Item {
    match c
    case CInt(n) => Num(n)
    case CBuf(size, buf) =>
      if f.ltype.BytesArray? then Blob(buf[..Min(size, |buf|)])
      else if f.ltype.CString? then Blob(UpToNul(buf))
      else Blob(buf)
    case CStruct(_) => Num(0)
  }

  function ItemOf(f: Field, c: Cell): Item
    decreases f, 0
  {
    if f.ltype.Submessage? then
      if c.CStruct? && |c.slots| == |f.sub| then Msg(Contents(f.sub, c.slots)) else DefaultItem(f)
    else ScalarItem(f, c)
  }

  function ItemsOf(f: Field, cells: seq<Cell>, count: nat): (items: seq<Item>)
    requires count <= |cells|
    ensures |items| == count
    decreases f, 1
  {
    seq(count, k requires 0 <= k < count => ItemOf(f, cells[k]))
  }

  function ValOf(f: Field, slot: Slot): Val
    decreases f, 2
  {
    match f.htype
    case Repeated => Val(true, ItemsOf(f, slot.cells, Min(slot.size, |slot.cells|)))
    case Oneof => if slot.size == f.tag then Val(true, ItemsOf(f, slot.cells, |slot.cells|)) else Val(false, [])
    case Optional => Val(f.Singular() || slot.size != 0, ItemsOf(f, slot.cells, |slot.cells|))
    case Required => Val(true, ItemsOf(f, slot.cells, |slot.cells|))
  }

  /** What field `i` reads in a struct. */
  function ValAt(fields: seq<Field>, slots: seq<Slot>, i: nat): Val
    requires |slots| == |fields| && i < |fields|
    decreases fields, 3
  {
    ValOf(fields[i], slots[Home(fields, i)])
  }

  /** The content of a struct with the given memory. */
  function Contents(fields: seq<Field>, slots: seq<Slot>): (vals: seq<Val>)
    requires |slots| == |fields|
    ensures |vals| == |fields|
    decreases fields, 4
  {
    seq(|fields|, i requires 0 <= i < |fields| => ValAt(fields, slots, i))
  }

  // ---------------------------------------------------------------- defaults

  function DefaultItem(f: Field): Item
    decreases f, 0
  {
    if f.ltype.Submessage? then Msg(Defaults(f.sub)) else ScalarItem(f, InitialCell(f))
  }

  function DefaultVal(f: Field): Val
    decreases f, 1
  {
    match f.htype
    case Repeated => Val(true, [])
    case Oneof => Val(false, [])
    case Optional => Val(f.Singular(), [DefaultItem(f)])
    case Required => Val(true, [DefaultItem(f)])
  }

  /** The content of a struct after pb_message_set_to_defaults. */
  function Defaults(fields: seq<Field>): (vals: seq<Val>)
    ensures |vals| == |fields|
    decreases fields, 2
  {
    seq(|fields|, i requires 0 <= i < |fields| => DefaultVal(fields[i]))
  }

  /**
   The memory pb_message_set_to_defaults leaves for an item: a struct in its initial state, a copy
   of the default value, or zeros.
   */
  ghost predicate CellIsInitial(f: Field, c: Cell)
    decreases f, 0
  {
    if f.ltype.Submessage? then c.CStruct? && StructIsInitial(f.sub, c.slots)
    else if f.init.Some? then c == f.init.value
    else
      match c
      case CInt(n) => n == 0
      case CBuf(size, buf) => size == 0 && forall k :: 0 <= k < |buf| ==> buf[k] == 0
      case CStruct(_) => false
  }

  /** Counts, which tags and has flags are 0. Arrays and unions have no other initial state. */
  ghost predicate SlotIsInitial(f: Field, slot: Slot)
    decreases f, 1
  {
    if f.htype.Repeated? || f.htype.Oneof? then slot.size == 0
    else
      && (f.htype.Optional? && f.HasSize() ==> slot.size == 0)
      && |slot.cells| == 1
      && CellIsInitial(f, slot.cells[0])
  }

  ghost predicate StructIsInitial(fields: seq<Field>, slots: seq<Slot>)
    decreases fields, 2
  {
    && |slots| == |fields|
    && forall i {:trigger slots[Home(fields, i)]} ::
         0 <= i < |fields| ==> SlotIsInitial(fields[i], slots[Home(fields, i)])
  }

  lemma {:induction false} InitialItem(f: Field, c: Cell)
    requires WellFormedField(f) && CellShape(f, c) && CellIsInitial(f, c)
    ensures ItemOf(f, c) == DefaultItem(f)
    decreases f, 0
  {
    if f.ltype.Submessage? {
      InitialContents(f.sub, c.slots);
    } else if f.init.None? && c.CBuf? {
      var z := ZeroScalar(f);
      assert c.buf == z.buf;
    }
  }

  /** `Defaults` is what a struct in its initial state reads. */
  lemma {:induction false} InitialContents(fields: seq<Field>, slots: seq<Slot>)
    requires WellFormed(fields) && StructShape(fields, slots) && StructIsInitial(fields, slots)
    ensures Contents(fields, slots) == Defaults(fields)
    decreases fields, 1
  {
    forall i | 0 <= i < |fields|
      ensures ValAt(fields, slots, i) == DefaultVal(fields[i])
    {
      var f, slot := fields[i], slots[Home(fields, i)];
      assert WellFormedField(f) && SlotShape(f, slot) && SlotIsInitial(f, slot);
      if f.htype.Required? || f.htype.Optional? {
        InitialItem(f, slot.cells[0]);
        assert ItemsOf(f, slot.cells, 1) == [DefaultItem(f)];
      } else if f.htype.Repeated? {
        assert ItemsOf(f, slot.cells, 0) == [];
      }
    }
  }

  // ---------------------------------------------------------------- access

  /** The submessage an item holds, with the defaults for an item that holds none. */
  function SubVals(f: Field, item: Item): (vals: seq<Val>)
    ensures |vals| == |f.sub|
  {
    if item.Msg? && |item.vals| == |f.sub| then item.vals else Defaults(f.sub)
  }

  function NumOf(item: Item): int {
    if item.Num? then item.n else 0
  }

  function BlobOf(item: Item): Bytes {
    if item.Blob? then item.b else []
  }

  function FirstItem(f: Field, v: Val): Item {
    if v.items != [] then v.items[0] else DefaultItem(f)
  }

  /** Storing into a field makes it live and the other members of its union dead. */
  function Put(fields: seq<Field>, vals: seq<Val>, i: nat, items: seq<Item>): (r: seq<Val>)
    requires |vals| == |fields| && i < |fields|
    ensures |r| == |fields|
  {
    seq(|fields|, j requires 0 <= j < |fields| =>
      if j == i then Val(true, items)
      else if Home(fields, j) == Home(fields, i) then Val(false, [])
      else vals[j])
  }
}
