/** How the memory of a struct and its content move together. */
module Refinement {
  import opened Wire
  import opened Descriptor
  import opened Message
  import opened Decoding
  import opened RequiredBits

  // ---------------------------------------------------------------- stores

  /** A slot for field `i` keeps the types of the struct, also those of the rest of its union. */
  lemma StoreKeepsShape(fields: seq<Field>, slots: seq<Slot>, i: nat, slot: Slot)
    requires WellFormed(fields) && StructShape(fields, slots) && i < |fields| && SlotShape(fields[i], slot)
    requires fields[i].htype.Oneof? ==> slot.size == fields[i].tag || slot.size == 0
    ensures StructShape(fields, slots[Home(fields, i) := slot])
  {
    var slots' := slots[Home(fields, i) := slot];
    forall j | 0 <= j < |fields|
      ensures SlotShape(fields[j], slots'[Home(fields, j)])
    {
      assert SlotShape(fields[j], slots[Home(fields, j)]);
      if j != i && Home(fields, j) == Home(fields, i) {
        TagsDiffer(fields, i, j);
        assert WellFormedField(fields[j]);
      }
    }
  }

  lemma StoreKeepsBounds(fields: seq<Field>, slots: seq<Slot>, i: nat, slot: Slot)
    requires DistinctTags(fields) && |slots| == |fields| && i < |fields|
    requires StructBounded(fields, slots) && SlotBounded(fields[i], slot)
    requires fields[i].htype.Oneof? ==> slot.size == fields[i].tag
    ensures StructBounded(fields, slots[Home(fields, i) := slot])
  {
    var slots' := slots[Home(fields, i) := slot];
    forall j | 0 <= j < |fields|
      ensures SlotBounded(fields[j], slots'[Home(fields, j)])
    {
      assert SlotBounded(fields[j], slots[Home(fields, j)]);
      if j != i && Home(fields, j) == Home(fields, i) {
        TagsDiffer(fields, i, j);
      }
    }
  }

  /** What field `j` reads after a live slot has been stored for field `i`. */
  lemma StoreAt(fields: seq<Field>, slots: seq<Slot>, i: nat, slot: Slot, items: seq<Item>, j: nat)
    requires |slots| == |fields| && i < |fields| && j < |fields| && ValOf(fields[i], slot) == Val(true, items)
    requires j != i ==> fields[j].tag != fields[i].tag
    ensures ValOf(fields[j], slots[Home(fields, i) := slot][Home(fields, j)]) ==
            if j == i then Val(true, items)
            else if Home(fields, j) == Home(fields, i) then Val(false, [])
            else ValOf(fields[j], slots[Home(fields, j)])
  {}

  /** Storing a live slot in memory is `Put` on the content. */
  lemma StoreIsPut(fields: seq<Field>, slots: seq<Slot>, i: nat, slot: Slot, items: seq<Item>)
    requires |slots| == |fields| && i < |fields| && ValOf(fields[i], slot) == Val(true, items)
    requires DistinctTags(fields)
    ensures Contents(fields, slots[Home(fields, i) := slot]) == Put(fields, Contents(fields, slots), i, items)
  {
    var a, b := Contents(fields, slots[Home(fields, i) := slot]), Put(fields, Contents(fields, slots), i, items);
    forall j | 0 <= j < |fields|
      ensures a[j] == b[j]
    {
      if j != i {
        TagsDiffer(fields, i, j);
      }
      StoreAt(fields, slots, i, slot, items, j);
      assert a[j] == ValAt(fields, slots[Home(fields, i) := slot], j);
      assert Contents(fields, slots)[j] == ValAt(fields, slots, j);
    }
  }

  /** The content of the slot that field `i` reads. */
  lemma SlotContent(fields: seq<Field>, slots: seq<Slot>, i: nat)
    requires WellFormed(fields) && StructShape(fields, slots) && i < |fields|
    ensures WellFormedField(fields[i]) && SlotShape(fields[i], slots[Home(fields, i)])
    ensures Contents(fields, slots)[i] == ValOf(fields[i], slots[Home(fields, i)])
  {}

  // ---------------------------------------------------------------- buffers

  /** Bytes written over the front of a buffer, with the terminator a string gets. */
  lemma {:induction false} TerminatedCopy(bytes: Bytes, tail: Bytes)
    ensures UpToNul(bytes + [0] + tail) == UpToNul(bytes)
  {
    var s := bytes + [0] + tail;
    if bytes == [] || bytes[0] == 0 {
      assert s[0] == 0;
    } else {
      TerminatedCopy(bytes[1..], tail);
      assert s[1..] == bytes[1..] + [0] + tail;
    }
  }

  lemma FourByteWord(b: Bytes)
    requires |b| >= 4
    ensures LittleEndian(b) ==
            b[0] as int + 0x100 * b[1] as int + 0x1_0000 * b[2] as int + 0x100_0000 * b[3] as int +
            TWO_32 * LittleEndian(b[4..])
  {
    assert b[1..][1..] == b[2..] && b[2..][1..] == b[3..] && b[3..][1..] == b[4..];
    assert LittleEndian(b[3..]) == b[3] as int + 0x100 * LittleEndian(b[4..]);
    assert LittleEndian(b[2..]) == b[2] as int + 0x100 * LittleEndian(b[3..]);
    assert LittleEndian(b[1..]) == b[1] as int + 0x100 * LittleEndian(b[2..]);
  }

  // ---------------------------------------------------------------- zeroed memory

  /** The memory of an item after memset to zero. */
  function ZeroCell(f: Field): Cell
    decreases f, 0
  {
    if f.ltype.Submessage? then CStruct(ZeroSlots(f.sub)) else ZeroScalar(f)
  }

  function ZeroSlots(fields: seq<Field>): (slots: seq<Slot>)
    ensures |slots| == |fields|
    decreases fields, 1
  {
    seq(|fields|, i requires 0 <= i < |fields| => Slot(0, seq(fields[i].Capacity(), _ => ZeroCell(fields[i]))))
  }

  lemma {:induction false} ZeroCellShape(f: Field)
    requires WellFormedField(f)
    ensures CellShape(f, ZeroCell(f))
    decreases f, 0
  {
    if f.ltype.Submessage? {
      ZeroSlotsShape(f.sub);
    }
  }

  lemma {:induction false} ZeroSlotsShape(fields: seq<Field>)
    requires WellFormed(fields)
    ensures StructShape(fields, ZeroSlots(fields))
    decreases fields, 1
  {
    forall i | 0 <= i < |fields|
      ensures SlotShape(fields[i], ZeroSlots(fields)[Home(fields, i)])
    {
      assert WellFormedField(fields[i]);
      if !fields[i].htype.Oneof? {
        ZeroCellShape(fields[i]);
      }
    }
  }

  // ---------------------------------------------------------------- required fields

  /** The bit set holds the required fields among `seen`, and nothing past the last of them. */
  ghost predicate SeenBits(words: seq<bv32>, fields: seq<Field>, seen: set<nat>)
    requires |words| == 2 && WellFormed(fields)
  {
    && (forall i {:trigger RequiredBefore(fields, i)} ::
          0 <= i < |fields| && fields[i].htype.Required? ==>
            && RequiredBefore(fields, i) < RequiredCount(fields)
            && (Marked(words, RequiredBefore(fields, i)) <==> i in seen))
    && (forall k :: RequiredCount(fields) <= k < PB_MAX_REQUIRED_FIELDS ==> !Marked(words, k))
  }

  lemma {:induction false} RanksGrow(fields: seq<Field>, i: nat, j: nat)
    requires i < j <= |fields|
    ensures RequiredBefore(fields, i) <= RequiredBefore(fields, j)
    ensures fields[i].htype.Required? ==> RequiredBefore(fields, i) < RequiredBefore(fields, j)
    decreases j
  {
    if i < j - 1 {
      RanksGrow(fields, i, j - 1);
    }
  }

  lemma {:induction false} FieldOfRank(fields: seq<Field>, k: nat, n: nat) returns (i: nat)
    requires n <= |fields| && k < RequiredBefore(fields, n)
    ensures i < n && fields[i].htype.Required? && RequiredBefore(fields, i) == k
    decreases n
  {
    if fields[n - 1].htype.Required? && RequiredBefore(fields, n - 1) == k {
      i := n - 1;
    } else {
      i := FieldOfRank(fields, k, n - 1);
    }
  }

  /** All bits are set exactly when every required field has been seen. */
  lemma BitsDecideRequired(words: seq<bv32>, fields: seq<Field>, seen: set<nat>)
    requires |words| == 2 && WellFormed(fields) && SeenBits(words, fields, seen)
    ensures (forall k :: 0 <= k < RequiredCount(fields) ==> Marked(words, k)) <==> AllRequired(fields, seen)
  {
    if AllRequired(fields, seen) {
      forall k | 0 <= k < RequiredCount(fields)
        ensures Marked(words, k)
      {
        var i := FieldOfRank(fields, k, |fields|);
      }
    }
    if forall k :: 0 <= k < RequiredCount(fields) ==> Marked(words, k) {
      forall i | 0 <= i < |fields| && fields[i].htype.Required?
        ensures i in seen
      {
        assert RequiredBefore(fields, i) < RequiredCount(fields);
      }
    }
  }

  lemma NoBits(fields: seq<Field>)
    requires WellFormed(fields)
    ensures SeenBits([0, 0], fields, {})
  {
    forall k: nat | k < PB_MAX_REQUIRED_FIELDS
      ensures !Marked([0, 0], k)
    {
      ZeroWord(k % 32);
    }
    forall i | 0 <= i < |fields| && fields[i].htype.Required?
      ensures RequiredBefore(fields, i) < RequiredCount(fields)
    {
      RanksGrow(fields, i, |fields|);
    }
  }

  lemma ZeroWord(k: nat)
    requires k < 32
    ensures !Bit(0, k)
  {
    assert forall j: bv6 :: j < 32 ==> !BitAt(0, j);
  }

  /** Setting the bit of a required field records that field and no other. */
  lemma MarkedSeen(before: seq<bv32>, after: seq<bv32>, fields: seq<Field>, seen: set<nat>, i: nat)
    requires |before| == |after| == 2 && WellFormed(fields) && SeenBits(before, fields, seen) && i < |fields|
    requires if fields[i].htype.Required?
             then forall k: nat :: k < PB_MAX_REQUIRED_FIELDS ==>
                                     Marked(after, k) == (k == RequiredBefore(fields, i) || Marked(before, k))
             else after == before
    ensures SeenBits(after, fields, seen + {i})
  {
    forall j | 0 <= j < |fields| && fields[j].htype.Required?
      ensures Marked(after, RequiredBefore(fields, j)) <==> j in seen + {i}
    {
      if j < i {
        RanksGrow(fields, j, i);
      } else if i < j {
        RanksGrow(fields, i, j);
      }
    }
  }
}
