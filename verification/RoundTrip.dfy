/** Decoding what was encoded gives back the message. */
module RoundTrip {
  import opened Wire
  import opened Descriptor
  import opened Integers
  import opened Message
  import opened Encoding
  import opened Decoding
  import opened Validity

  /** One record at the front of the input, for a declared field. */
  lemma FirstRecord(fields: seq<Field>, i: nat, wireType: nat, s: Bytes, vals: seq<Val>, seen: set<nat>)
    requires WellFormed(fields) && i < |fields| && |vals| == |fields| && wireType < 8
    ensures ParseRecords(fields, TagBytes(wireType, fields[i].tag) + s, vals, seen) ==
            match ParseField(fields, i, wireType, s, vals)
            case Failure => Stuck
            case Success(vals', rest) => ParseRecords(fields, rest, vals', seen + {i})
  {
    TagRoundTrip(wireType, fields[i].tag, s);
    TagSelects(fields, i);
  }

  lemma ScalarRoundTrip(f: Field, item: Item, t: Bytes)
    requires WellFormedField(f) && ItemValid(f, item) && !f.ltype.Submessage?
    ensures ParseScalar(f, EncodeScalar(f, item) + t) == if ItemTerminated(f, item) then Success(item, t) else Failure
  {
    var e := EncodeScalar(f, item);
    match f.ltype
    case Varint | UVarint | SVarint =>
      Varint64RoundTrip(ToWire(f.ltype, item.n), t);
      IntegerRoundTrip(f.ltype, f.dataSize, item.n);
    case Fixed32 =>
      FixedItem(item.n, 4, t);
    case Fixed64 =>
      FixedItem(item.n, 8, t);
    case BytesArray | FixedLengthBytes =>
      BlockRoundTrip(item.b, t);
    case CString =>
      BlockRoundTrip(item.b, t);
      NoNul(item.b);
  }

  lemma FixedItem(n: nat, width: nat, t: Bytes)
    requires width in {4, 8} && n < Modulus(width)
    ensures WrapUnsigned(n, width) == n
    ensures (FixedBytes(n, width) + t)[..width] == FixedBytes(n, width)
    ensures (FixedBytes(n, width) + t)[width..] == t
    ensures LittleEndian(FixedBytes(n, width)) == n
  {
    SmallRemainder(n, Modulus(width));
    Pow2Values(8 * width);
    FixedRoundTrip(n, width);
  }

  lemma {:induction false} NoNul(b: Bytes)
    requires forall k :: 0 <= k < |b| ==> b[k] != 0
    ensures UpToNul(b) == b
  {
    assert |UpToNul(b)| == |b|;
  }

  // ---------------------------------------------------------------- storing

  lemma OwnStorage(fields: seq<Field>, i: nat, j: nat)
    requires i < |fields| && j < |fields| && i != j && Home(fields, i) == Home(fields, j)
    ensures fields[i].htype.Oneof? && fields[j].htype.Oneof?
  {}

  lemma PutTwice(fields: seq<Field>, vals: seq<Val>, i: nat, a: seq<Item>, b: seq<Item>)
    requires |vals| == |fields| && i < |fields|
    ensures Put(fields, Put(fields, vals, i, a), i, b) == Put(fields, vals, i, b)
  {}

  lemma PutSame(fields: seq<Field>, vals: seq<Val>, i: nat)
    requires |vals| == |fields| && i < |fields| && !fields[i].htype.Oneof? && vals[i].present
    ensures Put(fields, vals, i, vals[i].items) == vals
  {}

  // ---------------------------------------------------------------- repeated fields

  lemma PackedItem(f: Field, item: Item, rest: Bytes, acc: seq<Item>)
    requires WellFormedField(f) && f.ltype.Packable() && ItemValid(f, item)
    ensures ParsePacked(f, EncodeScalar(f, item) + rest, acc) ==
            if |acc| < f.arraySize then ParsePacked(f, rest, acc + [item]) else None
  {
    ScalarRoundTrip(f, item, rest);
  }

  lemma {:induction false} PackedRoundTrip(f: Field, items: seq<Item>, acc: seq<Item>)
    requires WellFormedField(f) && f.ltype.Packable()
    requires forall k :: 0 <= k < |items| ==> ItemValid(f, items[k])
    ensures ParsePacked(f, EncodeItems(f, items), acc) ==
            if items == [] || |acc| + |items| <= f.arraySize then Some(acc + items) else None
    decreases |items|
  {
    if items == [] {
      assert acc + items == acc;
    } else {
      var rest := EncodeItems(f, items[1..]);
      PackedItem(f, items[0], rest, acc);
      PackedRoundTrip(f, items[1..], acc + [items[0]]);
      assert acc + [items[0]] + items[1..] == acc + items;
    }
  }

  /** One packed record appends all its items, or fails if they do not fit. */
  lemma PackedRecord(fields: seq<Field>, i: nat, items: seq<Item>, t: Bytes, cur: seq<Val>, seen: set<nat>)
    requires WellFormed(fields) && i < |fields| && |cur| == |fields|
    requires fields[i].htype.Repeated? && fields[i].ltype.Packable()
    requires forall k :: 0 <= k < |items| ==> ItemValid(fields[i], items[k])
    requires |EncodeItems(fields[i], items)| < TWO_32
    ensures ParseRecords(fields,
                         TagBytes(WT_STRING, fields[i].tag) + (Block(EncodeItems(fields[i], items)) + t), cur, seen) ==
            if items == [] || |cur[i].items| + |items| <= fields[i].arraySize
            then ParseRecords(fields, t, Put(fields, cur, i, cur[i].items + items), seen + {i})
            else Stuck
  {
    var body := EncodeItems(fields[i], items);
    FirstRecord(fields, i, WT_STRING, Block(body) + t, cur, seen);
    BlockRoundTrip(body, t);
    PackedRoundTrip(fields[i], items, cur[i].items);
  }

  /** The items of field `i` once a record with `item` has been stored. */
  function Stored(f: Field, v: Val, item: Item): seq<Item> {
    if f.htype.Repeated? then v.items + [item] else [item]
  }

  /** One record whose body `e` decodes to `item`. */
  lemma RecordStores(fields: seq<Field>, i: nat, e: Bytes, item: Item, t: Bytes, cur: seq<Val>, seen: set<nat>)
    requires WellFormed(fields) && i < |fields| && |cur| == |fields|
    requires ParseItem(fields[i], e + t, Defaults(fields[i].sub)) ==
             if ItemTerminated(fields[i], item) then Success(FillItem(fields[i], item), t) else Failure
    requires if fields[i].htype.Repeated? then |cur[i].items| < fields[i].arraySize
             else Base(fields[i], cur[i]) == Defaults(fields[i].sub)
    ensures ParseRecords(fields, TagBytes(fields[i].ltype.WireType(), fields[i].tag) + (e + t), cur, seen) ==
            if ItemTerminated(fields[i], item)
            then ParseRecords(fields, t, Put(fields, cur, i, Stored(fields[i], cur[i], FillItem(fields[i], item))),
                              seen + {i})
            else Stuck
  {
    var f := fields[i];
    assert f.ltype.Packable() ==> f.ltype.WireType() != WT_STRING;
    assert ParseField(fields, i, f.ltype.WireType(), e + t, cur) ==
           if ItemTerminated(f, item)
           then Success(Put(fields, cur, i, Stored(f, cur[i], FillItem(f, item))), t)
           else Failure;
    FirstRecord(fields, i, f.ltype.WireType(), e + t, cur, seen);
  }

  /** One record that carries one item. */
  lemma {:induction false} RecordRoundTrip(fields: seq<Field>, i: nat, item: Item, t: Bytes,
                                           cur: seq<Val>, seen: set<nat>)
    requires WellFormed(fields) && i < |fields| && |cur| == |fields|
    requires ItemValid(fields[i], item) && ItemFits(fields[i], item)
    requires if fields[i].htype.Repeated? then |cur[i].items| < fields[i].arraySize
             else Base(fields[i], cur[i]) == Defaults(fields[i].sub)
    ensures ParseRecords(fields,
                         TagBytes(fields[i].ltype.WireType(), fields[i].tag) + (EncodeItem(fields[i], item) + t),
                         cur, seen) ==
            if ItemTerminated(fields[i], item)
            then ParseRecords(fields, t, Put(fields, cur, i, Stored(fields[i], cur[i], FillItem(fields[i], item))),
                              seen + {i})
            else Stuck
    decreases fields, 0
  {
    ItemRoundTrip(fields[i], item, t, Defaults(fields[i].sub));
    RecordStores(fields, i, EncodeItem(fields[i], item), item, t, cur, seen);
  }

  /** The first of the records of a field. */
  lemma {:induction false} FirstItemRoundTrip(fields: seq<Field>, i: nat, items: seq<Item>, t: Bytes,
                                              cur: seq<Val>, seen: set<nat>)
    requires WellFormed(fields) && i < |fields| && |cur| == |fields| && items != []
    requires ItemValid(fields[i], items[0]) && ItemFits(fields[i], items[0])
    requires if fields[i].htype.Repeated? then |cur[i].items| < fields[i].arraySize
             else Base(fields[i], cur[i]) == Defaults(fields[i].sub)
    ensures ParseRecords(fields, EncodeRecords(fields[i], items) + t, cur, seen) ==
            if ItemTerminated(fields[i], items[0])
            then ParseRecords(fields, EncodeRecords(fields[i], items[1..]) + t,
                              Put(fields, cur, i, Stored(fields[i], cur[i], FillItem(fields[i], items[0]))), seen + {i})
            else Stuck
    decreases fields, 1, 0
  {
    FirstOfRecords(fields[i], items, t);
    RecordRoundTrip(fields, i, items[0], EncodeRecords(fields[i], items[1..]) + t, cur, seen);
  }

  /** Records of a repeated field, one item each, append to the array. */
  lemma {:induction false} RepeatedRoundTrip(fields: seq<Field>, i: nat, items: seq<Item>, t: Bytes,
                                             cur: seq<Val>, seen: set<nat>)
    requires WellFormed(fields) && i < |fields| && |cur| == |fields| && fields[i].htype.Repeated? && cur[i].present
    requires |cur[i].items| + |items| <= fields[i].arraySize
    requires forall k :: 0 <= k < |items| ==> ItemValid(fields[i], items[k]) && ItemFits(fields[i], items[k])
    ensures ParseRecords(fields, EncodeRecords(fields[i], items) + t, cur, seen) ==
            if forall k :: 0 <= k < |items| ==> ItemTerminated(fields[i], items[k])
            then ParseRecords(fields, t, Put(fields, cur, i, cur[i].items + FillItems(fields[i], items)),
                              if items == [] then seen else seen + {i})
            else Stuck
    decreases fields, 1, |items|
  {
    var f := fields[i];
    if items == [] {
      NothingStored(fields, i, t, cur);
    } else {
      FirstItemRoundTrip(fields, i, items, t, cur, seen);
      if ItemTerminated(f, items[0]) {
        var cur' := Put(fields, cur, i, cur[i].items + [FillItem(f, items[0])]);
        RepeatedRoundTrip(fields, i, items[1..], t, cur', seen + {i});
        StoredInTurn(fields, cur, i, items);
        assert seen + {i} + {i} == seen + {i};
        AllInTail(f, items);
      }
    }
  }

  lemma NothingStored(fields: seq<Field>, i: nat, t: Bytes, cur: seq<Val>)
    requires i < |fields| && |cur| == |fields| && fields[i].htype.Repeated? && cur[i].present
    ensures EncodeRecords(fields[i], []) + t == t
    ensures Put(fields, cur, i, cur[i].items + FillItems(fields[i], [])) == cur
  {
    PutSame(fields, cur, i);
    assert cur[i].items + FillItems(fields[i], []) == cur[i].items;
  }

  lemma FirstOfRecords(f: Field, items: seq<Item>, t: Bytes)
    requires items != []
    ensures EncodeRecords(f, items) + t ==
            TagBytes(f.ltype.WireType(), f.tag) + (EncodeItem(f, items[0]) + (EncodeRecords(f, items[1..]) + t))
  {}

  lemma StoredInTurn(fields: seq<Field>, cur: seq<Val>, i: nat, items: seq<Item>)
    requires i < |fields| && |cur| == |fields| && items != []
    ensures var cur' := Put(fields, cur, i, cur[i].items + [FillItem(fields[i], items[0])]);
            Put(fields, cur', i, cur'[i].items + FillItems(fields[i], items[1..])) ==
            Put(fields, cur, i, cur[i].items + FillItems(fields[i], items))
  {
    var f := fields[i];
    var first, rest := cur[i].items + [FillItem(f, items[0])], FillItems(f, items[1..]);
    PutTwice(fields, cur, i, first, first + rest);
    assert first + rest == cur[i].items + FillItems(f, items);
  }

  lemma AllInTail(f: Field, items: seq<Item>)
    requires items != [] && ItemTerminated(f, items[0])
    ensures (forall k :: 0 <= k < |items| ==> ItemTerminated(f, items[k])) <==>
            forall k :: 0 <= k < |items[1..]| ==> ItemTerminated(f, items[1..][k])
  {
    assert forall k :: 1 <= k < |items| ==> items[k] == items[1..][k - 1];
  }

  // ---------------------------------------------------------------- items and messages

  /** An item at the front of the input; a submessage outside an array starts from its defaults. */
  lemma {:induction false} ItemRoundTrip(f: Field, item: Item, t: Bytes, base: seq<Val>)
    requires WellFormedField(f) && ItemValid(f, item) && ItemFits(f, item)
    requires |base| == |f.sub| && (f.htype.Repeated? || base == Defaults(f.sub))
    ensures ParseItem(f, EncodeItem(f, item) + t, base) ==
            if ItemTerminated(f, item) then Success(FillItem(f, item), t) else Failure
    decreases f, 0, 0
  {
    if f.ltype.Submessage? {
      BlockRoundTrip(EncodeMessage(f.sub, item.vals), t);
      MessageRoundTrip(f.sub, item.vals);
    } else {
      ScalarRoundTrip(f, item, t);
    }
  }

  /** The state after `i` fields have been decoded: they are filled in, the others at their defaults. */
  function Halfway(fields: seq<Field>, vals: seq<Val>, i: nat): (r: seq<Val>)
    requires |vals| == |fields|
    ensures |r| == |fields|
  {
    seq(|fields|, j requires 0 <= j < |fields| =>
      if j < i then FillVal(fields[j], vals[j]) else DefaultVal(fields[j]))
  }

  lemma FreshBase(f: Field)
    requires !f.htype.Repeated?
    ensures Base(f, DefaultVal(f)) == Defaults(f.sub)
  {
    assert FirstItem(f, DefaultVal(f)) == DefaultItem(f);
    if !f.ltype.Submessage? {
      assert !DefaultItem(f).Msg?;
    }
  }

  /** A field that is not written reads as its default. */
  lemma SilentField(f: Field, v: Val)
    requires WellFormedField(f) && ValValid(f, v) && LiveItems(f, v) == []
    ensures FillVal(f, v) == DefaultVal(f)
  {
    if f.Singular() {
      assert v.items == [FirstItem(f, v)];
      assert FillItems(f, v.items) == [FirstItem(f, v)];
    } else if !f.htype.Optional? {
      assert v.items == [];
    }
  }

  /** Storing a written field moves the state one field on, union or not. */
  lemma WrittenField(fields: seq<Field>, vals: seq<Val>, i: nat)
    requires MessageValid(fields, vals) && i < |fields| && vals[i].present
    ensures Put(fields, Halfway(fields, vals, i), i, FillItems(fields[i], vals[i].items)) ==
            Halfway(fields, vals, i + 1)
  {
    forall j | 0 <= j < |fields| && j != i && Home(fields, j) == Home(fields, i)
      ensures Halfway(fields, vals, i + 1)[j] == Val(false, [])
    {
      OwnStorage(fields, i, j);
      NotBothSelected(fields, vals, |fields|, i, j);
      assert ValValid(fields[j], vals[j]);
    }
  }

  /** One field's records take the state from field `i` to field `i + 1`. */
  lemma {:induction false} FieldRoundTrip(fields: seq<Field>, vals: seq<Val>, i: nat, t: Bytes, seen: set<nat>)
    requires WellFormed(fields) && MessageValid(fields, vals) && LengthsFit(fields, vals) && i < |fields|
    ensures ParseRecords(fields, EncodeVal(fields[i], vals[i]) + t, Halfway(fields, vals, i), seen) ==
            if ValTerminated(fields[i], vals[i])
            then ParseRecords(fields, t, Halfway(fields, vals, i + 1),
                              if LiveItems(fields[i], vals[i]) == [] then seen else seen + {i})
            else Stuck
    decreases fields, 2, 1
  {
    if LiveItems(fields[i], vals[i]) == [] {
      NothingWritten(fields, vals, i, t);
    } else if fields[i].htype.Repeated? && fields[i].ltype.Packable() {
      PackedArrayRoundTrip(fields, vals, i, t, seen);
    } else if fields[i].htype.Repeated? {
      UnpackedArrayRoundTrip(fields, vals, i, t, seen);
    } else {
      SingleRoundTrip(fields, vals, i, t, seen);
    }
  }

  lemma NothingWritten(fields: seq<Field>, vals: seq<Val>, i: nat, t: Bytes)
    requires WellFormed(fields) && MessageValid(fields, vals) && i < |fields| && LiveItems(fields[i], vals[i]) == []
    ensures Halfway(fields, vals, i + 1) == Halfway(fields, vals, i)
    ensures ValTerminated(fields[i], vals[i]) && EncodeVal(fields[i], vals[i]) + t == t
  {
    assert ValValid(fields[i], vals[i]);
    SilentField(fields[i], vals[i]);
  }

  /** An array whose items are packed into one record. */
  lemma PackedArrayRoundTrip(fields: seq<Field>, vals: seq<Val>, i: nat, t: Bytes, seen: set<nat>)
    requires WellFormed(fields) && MessageValid(fields, vals) && LengthsFit(fields, vals) && i < |fields|
    requires fields[i].htype.Repeated? && fields[i].ltype.Packable() && vals[i].items != []
    ensures ValTerminated(fields[i], vals[i])
    ensures ParseRecords(fields, EncodeVal(fields[i], vals[i]) + t, Halfway(fields, vals, i), seen) ==
            ParseRecords(fields, t, Halfway(fields, vals, i + 1), seen + {i})
  {
    var f, v, cur := fields[i], vals[i], Halfway(fields, vals, i);
    assert ValValid(f, v) && ValFits(f, v);
    assert EncodeVal(f, v) + t == TagBytes(WT_STRING, f.tag) + (Block(EncodeItems(f, v.items)) + t);
    PackedRecord(fields, i, v.items, t, cur, seen);
    assert [] + v.items == v.items && FillItems(f, v.items) == v.items;
    WrittenField(fields, vals, i);
  }

  /** An array with one record per item. */
  lemma {:induction false} UnpackedArrayRoundTrip(fields: seq<Field>, vals: seq<Val>, i: nat, t: Bytes, seen: set<nat>)
    requires WellFormed(fields) && MessageValid(fields, vals) && LengthsFit(fields, vals) && i < |fields|
    requires fields[i].htype.Repeated? && !fields[i].ltype.Packable() && vals[i].items != []
    ensures ParseRecords(fields, EncodeVal(fields[i], vals[i]) + t, Halfway(fields, vals, i), seen) ==
            if ValTerminated(fields[i], vals[i])
            then ParseRecords(fields, t, Halfway(fields, vals, i + 1), seen + {i})
            else Stuck
    decreases fields, 2, 0
  {
    var f, v := fields[i], vals[i];
    assert ValValid(f, v) && ValFits(f, v);
    assert LiveItems(f, v) == v.items && [] + FillItems(f, v.items) == FillItems(f, v.items);
    assert forall k :: 0 <= k < |v.items| ==> ItemFits(f, LiveItems(f, v)[k]);
    RepeatedRoundTrip(fields, i, v.items, t, Halfway(fields, vals, i), seen);
    WrittenField(fields, vals, i);
  }

  lemma {:induction false} SingleRoundTrip(fields: seq<Field>, vals: seq<Val>, i: nat, t: Bytes, seen: set<nat>)
    requires WellFormed(fields) && MessageValid(fields, vals) && LengthsFit(fields, vals) && i < |fields|
    requires !fields[i].htype.Repeated? && LiveItems(fields[i], vals[i]) != []
    ensures ParseRecords(fields, EncodeVal(fields[i], vals[i]) + t, Halfway(fields, vals, i), seen) ==
            if ValTerminated(fields[i], vals[i])
            then ParseRecords(fields, t, Halfway(fields, vals, i + 1), seen + {i})
            else Stuck
    decreases fields, 1, 0
  {
    var f, v, cur := fields[i], vals[i], Halfway(fields, vals, i);
    var item := FirstItem(f, v);
    assert ValValid(f, v) && ValFits(f, v);
    assert LiveItems(f, v) == [item] && v.items == [item];
    assert LiveItems(f, v)[0] == item;
    assert EncodeVal(f, v) + t == TagBytes(f.ltype.WireType(), f.tag) + (EncodeItem(f, item) + t) by {
      assert EncodeRecords(f, [item]) ==
             TagBytes(f.ltype.WireType(), f.tag) + EncodeItem(f, item) + EncodeRecords(f, []);
    }
    FreshBase(f);
    RecordRoundTrip(fields, i, item, t, cur, seen);
    assert FillItems(f, v.items) == [FillItem(f, item)];
    WrittenField(fields, vals, i);
    assert ValTerminated(f, v) <==> ItemTerminated(f, item);
  }

  predicate TerminatedFrom(fields: seq<Field>, vals: seq<Val>, i: nat)
    requires |vals| == |fields|
  {
    forall j :: i <= j < |fields| ==> ValTerminated(fields[j], vals[j])
  }

  /** How the record loop ends on the records of the fields from `i` on. */
  predicate Finished(fields: seq<Field>, vals: seq<Val>, i: nat, seen: set<nat>, r: Run)
    requires |vals| == |fields|
  {
    if TerminatedFrom(fields, vals, i) then
      && r.Ran?
      && r.complete
      && r.rest == []
      && r.vals == Halfway(fields, vals, |fields|)
      && seen <= r.seen
      && forall j :: i <= j < |fields| && fields[j].htype.Required? ==> j in r.seen
    else r.Stuck?
  }

  lemma FinishedEarlier(fields: seq<Field>, vals: seq<Val>, i: nat, seen: set<nat>, r: Run)
    requires MessageValid(fields, vals) && i < |fields| && ValTerminated(fields[i], vals[i])
    requires Finished(fields, vals, i + 1, if LiveItems(fields[i], vals[i]) == [] then seen else seen + {i}, r)
    ensures Finished(fields, vals, i, seen, r)
  {
    assert ValValid(fields[i], vals[i]);
  }

  /** The records of the fields from `i` on. */
  lemma {:induction false} RecordsRoundTrip(fields: seq<Field>, vals: seq<Val>, i: nat, seen: set<nat>)
    requires WellFormed(fields) && MessageValid(fields, vals) && LengthsFit(fields, vals) && i <= |fields|
    ensures Finished(fields, vals, i, seen,
                     ParseRecords(fields, EncodeFrom(fields, vals, i), Halfway(fields, vals, i), seen))
    decreases fields, 3, |fields| - i
  {
    if i < |fields| {
      FieldRoundTrip(fields, vals, i, EncodeFrom(fields, vals, i + 1), seen);
      if ValTerminated(fields[i], vals[i]) {
        var seen' := if LiveItems(fields[i], vals[i]) == [] then seen else seen + {i};
        RecordsRoundTrip(fields, vals, i + 1, seen');
        FinishedEarlier(fields, vals, i, seen,
                        ParseRecords(fields, EncodeFrom(fields, vals, i + 1), Halfway(fields, vals, i + 1), seen'));
      }
    }
  }

  /**
   For every well-formed descriptor, nested to any depth, and every valid content: decoding
   the encoded bytes succeeds exactly when every live string is NUL-terminated inside its
   array, and then yields the content with absent optional fields at their defaults.
   */
  lemma {:induction false} MessageRoundTrip(fields: seq<Field>, vals: seq<Val>)
    requires WellFormed(fields) && MessageValid(fields, vals) && LengthsFit(fields, vals)
    ensures ParseFresh(fields, EncodeMessage(fields, vals)) ==
            if Terminated(fields, vals) then Success(Fill(fields, vals), []) else Failure
    decreases fields, 4
  {
    assert Halfway(fields, vals, 0) == Defaults(fields);
    assert Halfway(fields, vals, |fields|) == Fill(fields, vals);
    RecordsRoundTrip(fields, vals, 0, {});
  }
}
