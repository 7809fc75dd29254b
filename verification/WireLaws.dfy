/** Laws of the wire format that span encoder and decoder, over all well-formed descriptors. */
module WireLaws {
  import opened Wire
  import opened Descriptor
  import opened Message
  import opened Encoding
  import opened Decoding
  import opened Validity
  import opened RoundTrip
  import opened Concatenation

  // ---------------------------------------------------------------- packed arrays

  /** `e` has the extent of one element of a packable field, whatever its value. */
  predicate WholeElement(f: Field, e: Bytes) {
    if f.ltype.Integer() then ReadVarint64(e).Success? && ReadVarint64(e).rest == []
    else |e| == if f.ltype.Fixed32? then 4 else 8
  }

  function Joined(elements: seq<Bytes>): Bytes {
    if elements == [] then [] else elements[0] + Joined(elements[1..])
  }

  /** The elements as one record each. */
  function Unpacked(f: Field, elements: seq<Bytes>): Bytes {
    if elements == [] then []
    else TagBytes(f.ltype.WireType(), f.tag) + (elements[0] + Unpacked(f, elements[1..]))
  }

  /** A whole element decodes to the same item, or fails, whatever follows it. */
  lemma ElementExtends(f: Field, e: Bytes, t: Bytes)
    requires f.ltype.Packable() && WholeElement(f, e)
    ensures ParseScalar(f, e + t) ==
            match ParseScalar(f, e)
            case Failure => Failure
            case Success(item, _) => Success(item, t)
    ensures ParseScalar(f, e).Success? ==> ParseScalar(f, e).rest == []
  {
    if f.ltype.Integer() {
      Base128Extends(e, t);
      assert [] + t == t;
    } else {
      TakeExtends(e, |e|, t);
      assert e[..|e|] == e && e[|e|..] == [];
    }
  }

  lemma UnpackedStep(fields: seq<Field>, i: nat, e: Bytes, rest: Bytes, cur: seq<Val>, seen: set<nat>)
    requires WellFormed(fields) && i < |fields| && |cur| == |fields|
    requires fields[i].htype.Repeated? && fields[i].ltype.Packable() && WholeElement(fields[i], e)
    ensures ParseRecords(fields, TagBytes(fields[i].ltype.WireType(), fields[i].tag) + (e + rest), cur, seen) ==
            if |cur[i].items| < fields[i].arraySize && ParseScalar(fields[i], e).Success?
            then ParseRecords(fields, rest, Put(fields, cur, i, cur[i].items + [ParseScalar(fields[i], e).value]),
                              seen + {i})
            else Stuck
  {
    FirstRecord(fields, i, fields[i].ltype.WireType(), e + rest, cur, seen);
    ElementExtends(fields[i], e, rest);
  }

  lemma PackedStep(f: Field, e: Bytes, more: Bytes, items: seq<Item>)
    requires f.ltype.Packable() && WholeElement(f, e)
    ensures ParsePacked(f, e + more, items) ==
            if |items| < f.arraySize && ParseScalar(f, e).Success?
            then ParsePacked(f, more, items + [ParseScalar(f, e).value])
            else None
  {
    ElementExtends(f, e, more);
    assert e != [];
  }

  lemma {:induction false} UnpackedRecords(fields: seq<Field>, i: nat, elements: seq<Bytes>, t: Bytes,
                                           cur: seq<Val>, seen: set<nat>)
    requires WellFormed(fields) && i < |fields| && |cur| == |fields|
    requires fields[i].htype.Repeated? && fields[i].ltype.Packable() && cur[i].present
    requires forall k :: 0 <= k < |elements| ==> WholeElement(fields[i], elements[k])
    ensures ParseRecords(fields, Unpacked(fields[i], elements) + t, cur, seen) ==
            match ParsePacked(fields[i], Joined(elements), cur[i].items)
            case None => Stuck
            case Some(items) => ParseRecords(fields, t, Put(fields, cur, i, items),
                                             if elements == [] then seen else seen + {i})
    decreases |elements|
  {
    var f := fields[i];
    if elements == [] {
      PutSame(fields, cur, i);
      assert Unpacked(f, elements) + t == t;
    } else {
      var e, more := elements[0], elements[1..];
      var rest := Unpacked(f, more) + t;
      assert Unpacked(f, elements) + t == TagBytes(f.ltype.WireType(), f.tag) + (e + rest);
      UnpackedStep(fields, i, e, rest, cur, seen);
      PackedStep(f, e, Joined(more), cur[i].items);
      if |cur[i].items| < f.arraySize && ParseScalar(f, e).Success? {
        var items := cur[i].items + [ParseScalar(f, e).value];
        UnpackedRecords(fields, i, more, t, Put(fields, cur, i, items), seen + {i});
        PutAgain(fields, cur, i, items, seen);
      }
    }
  }

  lemma PutAgain(fields: seq<Field>, cur: seq<Val>, i: nat, items: seq<Item>, seen: set<nat>)
    requires |cur| == |fields| && i < |fields|
    ensures forall b :: Put(fields, Put(fields, cur, i, items), i, b) == Put(fields, cur, i, b)
    ensures seen + {i} + {i} == seen + {i}
  {
    forall b: seq<Item>
      ensures Put(fields, Put(fields, cur, i, items), i, b) == Put(fields, cur, i, b)
    {
      PutTwice(fields, cur, i, items, b);
    }
  }

  /**
   One packed record and the same elements as separate records decode alike: the same array,
   or both fail, because an element does not decode or the total exceeds the array. The
   elements are arbitrary encodings, the array may already hold items.
   */
  lemma PackedAndUnpackedAlike(fields: seq<Field>, i: nat, elements: seq<Bytes>, t: Bytes,
                               cur: seq<Val>, seen: set<nat>)
    requires WellFormed(fields) && i < |fields| && |cur| == |fields|
    requires fields[i].htype.Repeated? && fields[i].ltype.Packable() && cur[i].present
    requires elements != [] && |Joined(elements)| < TWO_32
    requires forall k :: 0 <= k < |elements| ==> WholeElement(fields[i], elements[k])
    ensures ParseRecords(fields, TagBytes(WT_STRING, fields[i].tag) + (Block(Joined(elements)) + t), cur, seen) ==
            ParseRecords(fields, Unpacked(fields[i], elements) + t, cur, seen)
  {
    FirstRecord(fields, i, WT_STRING, Block(Joined(elements)) + t, cur, seen);
    BlockRoundTrip(Joined(elements), t);
    UnpackedRecords(fields, i, elements, t, cur, seen);
  }

  function ElementItems(f: Field, elements: seq<Bytes>): (items: seq<Item>)
    requires forall k :: 0 <= k < |elements| ==> ParseScalar(f, elements[k]).Success?
    ensures |items| == |elements|
  {
    seq(|elements|, k requires 0 <= k < |elements| => ParseScalar(f, elements[k]).value)
  }

  /**
   When every element decodes, both forms fail exactly when the total exceeds the array, and
   otherwise append the elements in order.
   */
  lemma {:induction false} PackedFailsOnOverflow(f: Field, elements: seq<Bytes>, acc: seq<Item>)
    requires f.ltype.Packable()
    requires forall k :: 0 <= k < |elements| ==> WholeElement(f, elements[k]) && ParseScalar(f, elements[k]).Success?
    ensures ParsePacked(f, Joined(elements), acc) ==
            if elements == [] || |acc| + |elements| <= f.arraySize
            then Some(acc + ElementItems(f, elements))
            else None
    decreases |elements|
  {
    if elements == [] {
      assert acc + ElementItems(f, elements) == acc;
    } else {
      var first := ParseScalar(f, elements[0]).value;
      PackedStep(f, elements[0], Joined(elements[1..]), acc);
      PackedFailsOnOverflow(f, elements[1..], acc + [first]);
      assert acc + [first] + ElementItems(f, elements[1..]) == acc + ElementItems(f, elements);
    }
  }

  /**
   The wire type of a record is not compared with the type of its field: it only tells a packed
   array from a single element.
   */
  lemma WireTypeIsNotChecked(fields: seq<Field>, i: nat, w1: nat, w2: nat, s: Bytes, vals: seq<Val>)
    requires |vals| == |fields| && i < |fields|
    requires fields[i].htype.Repeated? && fields[i].ltype.Packable() ==> (w1 == 2 <==> w2 == 2)
    ensures ParseField(fields, i, w1, s, vals) == ParseField(fields, i, w2, s, vals)
  {}

  // ---------------------------------------------------------------- blocks

  /**
   Which blocks a buffer takes: bytes that fit behind the 4-byte size word, strings that leave room
   for the NUL and are cut at the first one, and for fixed-length bytes the exact length, or nothing,
   which reads as zeros.
   */
  lemma BufferTakes(f: Field, body: Bytes, t: Bytes)
    requires |body| < TWO_32 && (f.ltype.BytesArray? || f.ltype.CString? || f.ltype.FixedLengthBytes?)
    ensures ParseScalar(f, Block(body) + t).Success? <==>
            if f.ltype.BytesArray? then |body| + 4 <= f.dataSize
            else if f.ltype.CString? then |body| < f.dataSize
            else |body| == 0 || |body| == f.dataSize
    ensures var r := ParseScalar(f, Block(body) + t);
            r.Success? ==>
              && r.rest == t && r.value.Blob?
              && if f.ltype.FixedLengthBytes? && body == [] then
                   |r.value.b| == f.dataSize && forall k :: 0 <= k < f.dataSize ==> r.value.b[k] == 0
                 else r.value.b <= body && (f.ltype.CString? || r.value.b == body)
  {
    BlockRoundTrip(body, t);
  }

  /**
   A message in a block may end before the block does: what it leaves unread is skipped, and parsing
   goes on behind the block.
   */
  lemma LeftoverIsSkipped(f: Field, body: Bytes, t: Bytes, base: seq<Val>, vals: seq<Val>, unread: Bytes)
    requires |base| == |f.sub| && |body| < TWO_32
    requires ParseMessage(f.sub, body, base) == Success(vals, unread)
    ensures ParseBlock(f.sub, Block(body) + t, base) == Success(vals, t)
    ensures f.ltype.Submessage? && (f.htype.Repeated? ==> base == Defaults(f.sub)) ==>
              ParseItem(f, Block(body) + t, base) == Success(Msg(vals), t)
  {
    BlockRoundTrip(body, t);
  }

  // ---------------------------------------------------------------- delimited streams

  /** A message content and the descriptor of its type. */
  datatype Typed = Typed(fields: seq<Field>, vals: seq<Val>)

  /** A message that decodes to itself. */
  predicate Sendable(m: Typed) {
    && WellFormed(m.fields)
    && MessageValid(m.fields, m.vals)
    && |EncodeMessage(m.fields, m.vals)| < TWO_32
    && Terminated(m.fields, m.vals)
  }

  /** What pb_encode_delimited writes. */
  function Delimited(m: Typed): Bytes {
    if |m.vals| == |m.fields| then Block(EncodeMessage(m.fields, m.vals)) else []
  }

  /** Messages of any types, written back to back. */
  function DelimitedStream(ms: seq<Typed>): Bytes {
    if ms == [] then [] else Delimited(ms[0]) + DelimitedStream(ms[1..])
  }

  /** One call of pb_decode_delimited for each expected type. */
  function ReadStream(types: seq<seq<Field>>, s: Bytes): Parse<seq<Typed>> {
    if types == [] then Success([], s)
    else
      match ParseDelimited(types[0], s)
      case Failure => Failure
      case Success(vals, rest) =>
        match ReadStream(types[1..], rest)
        case Failure => Failure
        case Success(others, rest') => Success([Typed(types[0], vals)] + others, rest')
  }

  function Types(ms: seq<Typed>): seq<seq<Field>> {
    if ms == [] then [] else [ms[0].fields] + Types(ms[1..])
  }

  function Filled(m: Typed): Typed {
    if |m.vals| == |m.fields| then Typed(m.fields, Fill(m.fields, m.vals)) else m
  }

  function FilledStream(ms: seq<Typed>): seq<Typed> {
    if ms == [] then [] else [Filled(ms[0])] + FilledStream(ms[1..])
  }

  /** Every call ends exactly at the next message boundary. */
  lemma DelimitedRoundTrip(m: Typed, t: Bytes)
    requires Sendable(m)
    ensures ParseDelimited(m.fields, Delimited(m) + t) == Success(Filled(m).vals, t)
  {
    BlockRoundTrip(EncodeMessage(m.fields, m.vals), t);
    SmallMessageFits(m.fields, m.vals);
    MessageRoundTrip(m.fields, m.vals);
  }

  lemma ReadOneMore(fields: seq<Field>, vals: seq<Val>, types: seq<seq<Field>>, others: seq<Typed>,
                    s: Bytes, s1: Bytes, s2: Bytes)
    requires ParseDelimited(fields, s) == Success(vals, s1) && ReadStream(types, s1) == Success(others, s2)
    ensures ReadStream([fields] + types, s) == Success([Typed(fields, vals)] + others, s2)
  {
    assert ([fields] + types)[1..] == types;
  }

  lemma OneMoreMessage(m: Typed, ms: seq<Typed>, t: Bytes)
    ensures Types([m] + ms) == [m.fields] + Types(ms)
    ensures FilledStream([m] + ms) == [Typed(m.fields, Filled(m).vals)] + FilledStream(ms)
    ensures DelimitedStream([m] + ms) + t == Delimited(m) + (DelimitedStream(ms) + t)
  {
    assert ([m] + ms)[1..] == ms;
    assert Filled(m) == Typed(m.fields, Filled(m).vals);
  }

  lemma StreamStep(m: Typed, ms: seq<Typed>, t: Bytes)
    requires ParseDelimited(m.fields, Delimited(m) + (DelimitedStream(ms) + t)) ==
             Success(Filled(m).vals, DelimitedStream(ms) + t)
    requires ReadStream(Types(ms), DelimitedStream(ms) + t) == Success(FilledStream(ms), t)
    ensures ReadStream(Types([m] + ms), DelimitedStream([m] + ms) + t) == Success(FilledStream([m] + ms), t)
  {
    var s1 := DelimitedStream(ms) + t;
    OneMoreMessage(m, ms, t);
    ReadOneMore(m.fields, Filled(m).vals, Types(ms), FilledStream(ms), Delimited(m) + s1, s1, t);
  }

  /** A stream of delimited messages is recovered in order, and what follows it is untouched. */
  lemma {:induction false} StreamRoundTrip(ms: seq<Typed>, t: Bytes)
    requires forall k :: 0 <= k < |ms| ==> Sendable(ms[k])
    ensures ReadStream(Types(ms), DelimitedStream(ms) + t) == Success(FilledStream(ms), t)
    decreases |ms|
  {
    if ms == [] {
      assert DelimitedStream(ms) + t == t;
    } else {
      DelimitedRoundTrip(ms[0], DelimitedStream(ms[1..]) + t);
      StreamRoundTrip(ms[1..], t);
      StreamStep(ms[0], ms[1..], t);
      assert [ms[0]] + ms[1..] == ms;
    }
  }
}
