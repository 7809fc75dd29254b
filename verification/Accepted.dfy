/**
 What the decoder accepts, whoever wrote it: the content it builds from arbitrary bytes is valid,
 and encoding it gives bytes that decode to the same content.
 */
module Accepted {
  import opened Wire
  import opened Descriptor
  import opened Message
  import opened Encoding
  import opened Decoding
  import opened Validity
  import opened RoundTrip

  /** A valid value whose absent parts are at their defaults. */
  predicate ValSettled(f: Field, v: Val) {
    ValValid(f, v) && FillVal(f, v) == v
  }

  predicate Settled(fields: seq<Field>, vals: seq<Val>) {
    MessageValid(fields, vals) && Fill(fields, vals) == vals
  }

  predicate ItemSettled(f: Field, item: Item) {
    ItemValid(f, item) && FillItem(f, item) == item
  }

  /** A decoded item: its live strings have a NUL in addition. */
  predicate ItemAccepted(f: Field, item: Item) {
    ItemSettled(f, item) && ItemTerminated(f, item)
  }

  /** Fields that the records up to now have not set may still be required ones at their defaults. */
  predicate InProgress(fields: seq<Field>, vals: seq<Val>, seen: set<nat>)
    requires |vals| == |fields|
  {
    forall i :: 0 <= i < |fields| ==>
      || ValTerminated(fields[i], vals[i])
      || (fields[i].htype.Required? && i !in seen && vals[i] == DefaultVal(fields[i]))
  }

  lemma SettledAt(fields: seq<Field>, vals: seq<Val>, i: nat)
    requires Settled(fields, vals) && i < |fields|
    ensures ValSettled(fields[i], vals[i])
  {
    assert Fill(fields, vals)[i] == vals[i];
  }

  lemma SettledFromFields(fields: seq<Field>, vals: seq<Val>)
    requires |vals| == |fields| && Exclusive(fields, vals)
    requires forall i :: 0 <= i < |fields| ==> ValSettled(fields[i], vals[i])
    ensures Settled(fields, vals)
  {
    AtMostOne(fields, vals, |fields|);
    assert forall i :: 0 <= i < |fields| ==> Fill(fields, vals)[i] == vals[i];
  }

  // ---------------------------------------------------------------- defaults

  lemma ZeroString(n: nat)
    ensures UpToNul(Zeros(n)) == []
  {}

  lemma {:induction false} DefaultItemSettled(f: Field)
    requires WellFormedField(f)
    ensures ItemSettled(f, DefaultItem(f))
    decreases f, 0
  {
    if f.ltype.Submessage? {
      DefaultsSettled(f.sub);
    } else {
      assert ScalarShape(f, InitialCell(f));
    }
  }

  lemma {:induction false} DefaultValSettled(f: Field)
    requires WellFormedField(f)
    ensures ValSettled(f, DefaultVal(f))
    ensures f.htype.Required? || ValTerminated(f, DefaultVal(f))
    decreases f, 1
  {
    DefaultItemSettled(f);
    assert FillItems(f, [DefaultItem(f)]) == [DefaultItem(f)] && FillItems(f, []) == [];
    ZeroString(f.dataSize);
  }

  lemma {:induction false} DefaultsSettled(fields: seq<Field>)
    requires WellFormed(fields)
    ensures Settled(fields, Defaults(fields)) && InProgress(fields, Defaults(fields), {})
    decreases fields, 2
  {
    forall i | 0 <= i < |fields|
      ensures ValSettled(fields[i], DefaultVal(fields[i]))
      ensures fields[i].htype.Required? || ValTerminated(fields[i], DefaultVal(fields[i]))
    {
      DefaultValSettled(fields[i]);
    }
    forall i, j | 0 <= i < j < |fields| && Home(fields, i) == Home(fields, j)
      ensures !Defaults(fields)[i].present || !Defaults(fields)[j].present
    {
      OwnStorage(fields, i, j);
    }
    SettledFromFields(fields, Defaults(fields));
  }

  // ---------------------------------------------------------------- items

  lemma FixedInRange(s: Bytes, width: nat)
    requires width in {4, 8} && |s| == width
    ensures LittleEndian(s) < Modulus(width)
  {
    LittleEndianBound(s);
    Pow2Values(8 * width);
  }

  lemma ScalarAccepted(f: Field, s: Bytes)
    requires WellFormedField(f) && ParseScalar(f, s).Success?
    ensures ItemAccepted(f, ParseScalar(f, s).value)
  {
    if f.ltype.Fixed32? {
      FixedInRange(s[..4], 4);
    } else if f.ltype.Fixed64? {
      FixedInRange(s[..8], 8);
    }
  }

  lemma {:induction false} PackedAccepted(f: Field, s: Bytes, items: seq<Item>)
    requires WellFormedField(f) && ParsePacked(f, s, items).Some? && |items| <= f.arraySize
    requires forall k :: 0 <= k < |items| ==> ItemAccepted(f, items[k])
    ensures var r := ParsePacked(f, s, items).value;
            |r| <= f.arraySize && forall k :: 0 <= k < |r| ==> ItemAccepted(f, r[k])
    decreases |s|
  {
    if s != [] {
      var r := ParseScalar(f, s);
      ScalarAccepted(f, s);
      PackedAccepted(f, r.rest, items + [r.value]);
    }
  }

  lemma {:induction false} ItemAcceptedFrom(f: Field, s: Bytes, base: seq<Val>)
    requires WellFormedField(f) && |base| == |f.sub| && ParseItem(f, s, base).Success?
    requires f.ltype.Submessage? ==> Settled(f.sub, base) && InProgress(f.sub, base, {})
    ensures ItemAccepted(f, ParseItem(f, s, base).value)
    decreases f, 0, 0
  {
    if f.ltype.Submessage? {
      DefaultsSettled(f.sub);
      MessageAccepted(f.sub, ReadBlock(s).value, if f.htype.Repeated? then Defaults(f.sub) else base);
    } else {
      ScalarAccepted(f, s);
    }
  }

  lemma SubmessageSettled(f: Field, item: Item)
    requires f.ltype.Submessage? && ItemAccepted(f, item)
    ensures Settled(f.sub, SubVals(f, item)) && InProgress(f.sub, SubVals(f, item), {})
  {
    assert MessageValid(f.sub, item.vals) && |item.vals| == |f.sub|;
    assert FillItem(f, item) == Msg(Fill(f.sub, SubVals(f, item)));
    assert Terminated(f.sub, SubVals(f, item));
  }

  /** What a submessage record is merged into. */
  lemma BaseSettled(f: Field, v: Val)
    requires WellFormedField(f) && f.ltype.Submessage? && !f.htype.Repeated? && ValSettled(f, v)
    requires ValTerminated(f, v) || v == DefaultVal(f)
    ensures Settled(f.sub, Base(f, v)) && InProgress(f.sub, Base(f, v), {})
  {
    DefaultsSettled(f.sub);
    if f.htype.Oneof? {
      assert Base(f, v) == Defaults(f.sub);
    } else if v == DefaultVal(f) {
      FreshBase(f);
    } else {
      assert v.present;
      assert v.items == [FirstItem(f, v)] == LiveItems(f, v);
      assert FillItems(f, v.items)[0] == v.items[0];
      assert ItemTerminated(f, LiveItems(f, v)[0]);
      SubmessageSettled(f, v.items[0]);
    }
  }

  // ---------------------------------------------------------------- fields and messages

  lemma PutAt(fields: seq<Field>, vals: seq<Val>, i: nat, items: seq<Item>, j: nat)
    requires Settled(fields, vals) && i < |fields| && j < |fields|
    requires forall k :: 0 <= k < |items| ==> ItemAccepted(fields[i], items[k])
    requires if fields[i].htype.Repeated? then |items| <= fields[i].arraySize else |items| == 1
    ensures var r := Put(fields, vals, i, items);
            && ValSettled(fields[j], r[j])
            && if j == i || Home(fields, j) == Home(fields, i) then ValTerminated(fields[j], r[j])
               else r[j] == vals[j]
  {
    SettledAt(fields, vals, j);
    if j == i {
      assert FillItems(fields[i], items) == items;
    } else if Home(fields, j) == Home(fields, i) {
      OwnStorage(fields, i, j);
      assert FillItems(fields[j], []) == [];
    }
  }

  lemma PutExclusive(fields: seq<Field>, vals: seq<Val>, i: nat, items: seq<Item>)
    requires |vals| == |fields| && OneSelected(fields, vals, |fields|) && i < |fields|
    ensures Exclusive(fields, Put(fields, vals, i, items))
  {
    var r := Put(fields, vals, i, items);
    forall j, k | 0 <= j < k < |fields| && Home(fields, j) == Home(fields, k)
      ensures !r[j].present || !r[k].present
    {
      NotBothSelected(fields, vals, |fields|, j, k);
    }
  }

  /** Storing decoded items keeps the struct settled and finishes the field. */
  lemma PutAccepted(fields: seq<Field>, vals: seq<Val>, i: nat, items: seq<Item>, seen: set<nat>)
    requires Settled(fields, vals) && InProgress(fields, vals, seen) && i < |fields|
    requires forall k :: 0 <= k < |items| ==> ItemAccepted(fields[i], items[k])
    requires if fields[i].htype.Repeated? then |items| <= fields[i].arraySize else |items| == 1
    ensures Settled(fields, Put(fields, vals, i, items)) && InProgress(fields, Put(fields, vals, i, items), seen + {i})
  {
    var r := Put(fields, vals, i, items);
    forall j | 0 <= j < |fields|
      ensures ValSettled(fields[j], r[j]) && (ValTerminated(fields[j], r[j]) || (j != i && r[j] == vals[j]))
    {
      PutAt(fields, vals, i, items, j);
    }
    PutExclusive(fields, vals, i, items);
    SettledFromFields(fields, r);
  }

  lemma {:induction false} FieldAccepted(fields: seq<Field>, i: nat, wireType: nat, s: Bytes, vals: seq<Val>,
                                         seen: set<nat>)
    requires WellFormed(fields) && Settled(fields, vals) && InProgress(fields, vals, seen) && i < |fields|
    requires ParseField(fields, i, wireType, s, vals).Success?
    ensures var r := ParseField(fields, i, wireType, s, vals).value;
            Settled(fields, r) && InProgress(fields, r, seen + {i})
    decreases fields, |s|, 1
  {
    var f, v := fields[i], vals[i];
    SettledAt(fields, vals, i);
    if f.htype.Repeated? {
      ArrayAccepted(f, v);
      if wireType == WT_STRING && f.ltype.Packable() {
        PackedAccepted(f, ReadBlock(s).value, v.items);
        PutAccepted(fields, vals, i, ParsePacked(f, ReadBlock(s).value, v.items).value, seen);
      } else {
        if f.ltype.Submessage? {
          DefaultsSettled(f.sub);
        }
        ItemAcceptedFrom(f, s, Defaults(f.sub));
        PutAccepted(fields, vals, i, v.items + [ParseItem(f, s, Defaults(f.sub)).value], seen);
      }
    } else {
      if f.ltype.Submessage? {
        BaseSettled(f, v);
      }
      ItemAcceptedFrom(f, s, Base(f, v));
      PutAccepted(fields, vals, i, [ParseItem(f, s, Base(f, v)).value], seen);
    }
  }

  lemma ArrayAccepted(f: Field, v: Val)
    requires f.htype.Repeated? && ValSettled(f, v) && ValTerminated(f, v)
    ensures |v.items| <= f.arraySize && forall k :: 0 <= k < |v.items| ==> ItemAccepted(f, v.items[k])
  {
    assert LiveItems(f, v) == v.items;
    forall k | 0 <= k < |v.items|
      ensures ItemAccepted(f, v.items[k])
    {
      assert FillItems(f, v.items)[k] == v.items[k];
      assert ItemTerminated(f, LiveItems(f, v)[k]);
    }
  }

  lemma {:induction false} RecordsAccepted(fields: seq<Field>, s: Bytes, vals: seq<Val>, seen: set<nat>)
    requires WellFormed(fields) && Settled(fields, vals) && InProgress(fields, vals, seen)
    requires ParseRecords(fields, s, vals, seen).Ran?
    ensures var r := ParseRecords(fields, s, vals, seen); Settled(fields, r.vals) && InProgress(fields, r.vals, r.seen)
    decreases fields, |s|, 3
  {
    if s != [] && ReadTag(s).Record? {
      var h := ReadTag(s);
      var r := ParseRecord(fields, h.tag, h.wireType, h.rest, vals);
      match FieldWithTag(fields, h.tag)
      case Some(i) =>
        FieldAccepted(fields, i, h.wireType, h.rest, vals, seen);
        RecordsAccepted(fields, r.rest, r.value, seen + {i});
      case None =>
        assert seen + {} == seen;
        RecordsAccepted(fields, r.rest, vals, seen);
    }
  }

  lemma {:induction false} MessageAccepted(fields: seq<Field>, s: Bytes, vals: seq<Val>)
    requires WellFormed(fields) && Settled(fields, vals) && InProgress(fields, vals, {})
    requires ParseMessage(fields, s, vals).Success?
    ensures Settled(fields, ParseMessage(fields, s, vals).value)
    ensures Terminated(fields, ParseMessage(fields, s, vals).value)
    decreases fields, |s|, 4
  {
    RecordsAccepted(fields, s, vals, {});
  }

  /**
   For arbitrary bytes that the decoder accepts: the content is valid, its live strings are
   terminated, and encoding it again decodes to the very same content, with nothing left over.
   */
  lemma AcceptedBytesAreCanonical(fields: seq<Field>, s: Bytes)
    requires WellFormed(fields) && ParseFresh(fields, s).Success?
    ensures var v := ParseFresh(fields, s).value;
            && MessageValid(fields, v) && Terminated(fields, v) && Fill(fields, v) == v
            && (|EncodeMessage(fields, v)| < TWO_32 ==> ParseFresh(fields, EncodeMessage(fields, v)) == Success(v, []))
  {
    var v := ParseFresh(fields, s).value;
    DefaultsSettled(fields);
    MessageAccepted(fields, s, Defaults(fields));
    if |EncodeMessage(fields, v)| < TWO_32 {
      SmallMessageFits(fields, v);
      MessageRoundTrip(fields, v);
    }
  }
}
