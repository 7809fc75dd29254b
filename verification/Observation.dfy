/** Consequences of the round trip: what a caller observes, and uniqueness of encodings. */
module Observation {
  import opened Descriptor
  import opened Message
  import opened Encoding
  import opened Decoding
  import opened Validity
  import opened RoundTrip

  // ---------------------------------------------------------------- observable equality

  predicate SameItem(f: Field, a: Item, b: Item)
    decreases f, 0
  {
    if f.ltype.Submessage? then SameMessage(f.sub, SubVals(f, a), SubVals(f, b)) else a == b
  }

  /** Equal has flags, counts and selections, and equal live items. */
  predicate SameVal(f: Field, v: Val, w: Val)
    decreases f, 1
  {
    && v.present == w.present
    && (v.present ==>
          && |v.items| == |w.items|
          && forall k :: 0 <= k < |v.items| ==> SameItem(f, v.items[k], w.items[k]))
  }

  /** Equal in everything but the items of absent optional fields. */
  predicate SameMessage(fields: seq<Field>, vs: seq<Val>, ws: seq<Val>)
    decreases fields, 2
  {
    && |vs| == |ws| == |fields|
    && forall i :: 0 <= i < |fields| ==> SameVal(fields[i], vs[i], ws[i])
  }

  lemma {:induction false} FillItemIsSame(f: Field, item: Item)
    ensures SameItem(f, item, FillItem(f, item))
    decreases f, 0
  {
    if f.ltype.Submessage? {
      FillIsSame(f.sub, SubVals(f, item));
    }
  }

  lemma {:induction false} FillIsSame(fields: seq<Field>, vals: seq<Val>)
    requires |vals| == |fields|
    ensures SameMessage(fields, vals, Fill(fields, vals))
    decreases fields, 1
  {
    forall i | 0 <= i < |fields|
      ensures SameVal(fields[i], vals[i], FillVal(fields[i], vals[i]))
    {
      forall k | 0 <= k < |vals[i].items|
        ensures SameItem(fields[i], vals[i].items[k], FillItem(fields[i], vals[i].items[k]))
      {
        FillItemIsSame(fields[i], vals[i].items[k]);
      }
    }
  }

  /** The decoded message is the encoded one, as far as a caller can observe. */
  lemma DecodedMessageIsSame(fields: seq<Field>, vals: seq<Val>)
    requires WellFormed(fields) && MessageValid(fields, vals) && LengthsFit(fields, vals) && Terminated(fields, vals)
    ensures var r := ParseFresh(fields, EncodeMessage(fields, vals));
            r.Success? && r.rest == [] && SameMessage(fields, vals, r.value)
  {
    MessageRoundTrip(fields, vals);
    FillIsSame(fields, vals);
  }

  /** Equal bytes come from equal messages. */
  lemma EncodingIsInjective(fields: seq<Field>, v: seq<Val>, w: seq<Val>)
    requires WellFormed(fields)
    requires MessageValid(fields, v) && LengthsFit(fields, v) && Terminated(fields, v)
    requires MessageValid(fields, w) && LengthsFit(fields, w) && Terminated(fields, w)
    requires EncodeMessage(fields, v) == EncodeMessage(fields, w)
    ensures Fill(fields, v) == Fill(fields, w)
  {
    MessageRoundTrip(fields, v);
    MessageRoundTrip(fields, w);
  }

  // ---------------------------------------------------------------- encoding again

  lemma {:induction false} RefilledItem(f: Field, item: Item)
    requires WellFormedField(f) && ItemValid(f, item)
    ensures EncodeItem(f, FillItem(f, item)) == EncodeItem(f, item)
    decreases f, 0
  {
    if f.ltype.Submessage? {
      EncodeAgain(f.sub, item.vals);
    }
  }

  lemma {:induction false} RefilledRecords(f: Field, items: seq<Item>)
    requires WellFormedField(f) && forall k :: 0 <= k < |items| ==> ItemValid(f, items[k])
    ensures EncodeRecords(f, FillItems(f, items)) == EncodeRecords(f, items)
    decreases f, 1, |items|
  {
    if items != [] {
      RefilledItem(f, items[0]);
      RefilledRecords(f, items[1..]);
      assert FillItems(f, items)[1..] == FillItems(f, items[1..]);
    }
  }

  lemma {:induction false} RefilledVal(f: Field, v: Val)
    requires WellFormedField(f) && ValValid(f, v)
    ensures EncodeVal(f, FillVal(f, v)) == EncodeVal(f, v)
    decreases f, 2
  {
    if f.htype.Repeated? {
      RefilledRecords(f, v.items);
      if f.ltype.Packable() {
        assert FillItems(f, v.items) == v.items;
      }
    } else if v.present {
      assert v.items == [FirstItem(f, v)];
      assert FillItems(f, v.items) == [FillItem(f, FirstItem(f, v))];
      RefilledRecords(f, [FirstItem(f, v)]);
      RefilledRecords(f, []);
      assert FillItems(f, []) == [];
    }
  }

  lemma {:induction false} EncodeFromAgain(fields: seq<Field>, vals: seq<Val>, i: nat)
    requires WellFormed(fields) && MessageValid(fields, vals) && i <= |fields|
    ensures EncodeFrom(fields, Fill(fields, vals), i) == EncodeFrom(fields, vals, i)
    decreases fields, 3, |fields| - i
  {
    if i < |fields| {
      assert ValValid(fields[i], vals[i]);
      RefilledVal(fields[i], vals[i]);
      EncodeFromAgain(fields, vals, i + 1);
    }
  }

  /** Encoding a decoded message reproduces the bytes it was decoded from. */
  lemma {:induction false} EncodeAgain(fields: seq<Field>, vals: seq<Val>)
    requires WellFormed(fields) && MessageValid(fields, vals)
    ensures EncodeMessage(fields, Fill(fields, vals)) == EncodeMessage(fields, vals)
    decreases fields, 4
  {
    EncodeFromAgain(fields, vals, 0);
  }
}
