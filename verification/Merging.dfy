/**
 Records of one submessage field that follow each other: merged outside a oneof, as the Protocol
 Buffers encoding document asks in "Last One Wins", but not inside one.
 */
module Merging {
  import opened Wire
  import opened Descriptor
  import opened Integers
  import opened Message
  import opened Encoding
  import opened Decoding
  import opened Validity
  import opened RoundTrip
  import opened Concatenation

  /** A record of a submessage field with the given body. */
  function SubmessageRecord(f: Field, body: Bytes): Bytes {
    TagBytes(WT_STRING, f.tag) + Block(body)
  }

  /** What such a record does to the struct. */
  lemma OneSubmessageRecord(fields: seq<Field>, i: nat, body: Bytes, t: Bytes, cur: seq<Val>, seen: set<nat>)
    requires WellFormed(fields) && i < |fields| && |cur| == |fields| && |body| < TWO_32
    requires fields[i].ltype.Submessage? && !fields[i].htype.Repeated?
    ensures ParseRecords(fields, SubmessageRecord(fields[i], body) + t, cur, seen) ==
            var r := ParseMessage(fields[i].sub, body, Base(fields[i], cur[i]));
            if r.Failure? then Stuck
            else ParseRecords(fields, t, Put(fields, cur, i, [Msg(r.value)]), seen + {i})
  {
    assert SubmessageRecord(fields[i], body) + t == TagBytes(WT_STRING, fields[i].tag) + (Block(body) + t);
    FirstRecord(fields, i, WT_STRING, Block(body) + t, cur, seen);
    BlockRoundTrip(body, t);
  }

  /**
   Two records of a submessage field, the first whole and complete in itself. Outside a oneof they
   decode like one record with the concatenated body. In a oneof the first one is forgotten, also
   when both select the same member. In both cases the second one must be complete by itself.
   */
  lemma SubmessageRecordsMerge(fields: seq<Field>, i: nat, a: Bytes, b: Bytes, t: Bytes, cur: seq<Val>, seen: set<nat>)
    requires WellFormed(fields) && i < |fields| && |cur| == |fields| && |a + b| < TWO_32
    requires fields[i].ltype.Submessage? && !fields[i].htype.Repeated?
    requires WholeRecords(fields[i].sub, a, Base(fields[i], cur[i]))
    requires ParseMessage(fields[i].sub, a, Base(fields[i], cur[i])).Success?
    ensures var f, first := fields[i], ParseMessage(fields[i].sub, a, Base(fields[i], cur[i])).value;
            ParseRecords(fields, SubmessageRecord(f, a) + (SubmessageRecord(f, b) + t), cur, seen) ==
            if f.htype.Oneof? then ParseRecords(fields, SubmessageRecord(f, b) + t, cur, seen)
            else if ParseMessage(f.sub, b, first).Success? then
              ParseRecords(fields, SubmessageRecord(f, a + b) + t, cur, seen)
            else Stuck
  {
    var f, base := fields[i], Base(fields[i], cur[i]);
    var first := ParseMessage(f.sub, a, base).value;
    var next := Put(fields, cur, i, [Msg(first)]);
    OneSubmessageRecord(fields, i, a, SubmessageRecord(f, b) + t, cur, seen);
    OneSubmessageRecord(fields, i, b, t, next, seen + {i});
    OneSubmessageRecord(fields, i, b, t, cur, seen);
    OneSubmessageRecord(fields, i, a + b, t, cur, seen);
    assert seen + {i} + {i} == seen + {i};
    assert Base(f, next[i]) == if f.htype.Oneof? then base else first;
    if ParseMessage(f.sub, b, Base(f, next[i])).Success? {
      var second := ParseMessage(f.sub, b, Base(f, next[i])).value;
      PutTwice(fields, cur, i, [Msg(first)], [Msg(second)]);
      DecodeConcatenation(f.sub, a, b, base);
    }
  }

  /**
   Two records of a scalar field that is not an array: the last value wins, whatever the field held
   before and whether it was present, and it alone is left of the union it may belong to.
   */
  lemma LastValueWins(fields: seq<Field>, i: nat, a: Item, b: Item, t: Bytes, cur: seq<Val>, seen: set<nat>)
    requires WellFormed(fields) && i < |fields| && |cur| == |fields|
    requires !fields[i].ltype.Submessage? && !fields[i].htype.Repeated?
    requires ItemValid(fields[i], a) && ItemTerminated(fields[i], a)
    requires ItemValid(fields[i], b) && ItemTerminated(fields[i], b)
    ensures var f := fields[i];
            var header := TagBytes(f.ltype.WireType(), f.tag);
            ParseRecords(fields, header + (EncodeItem(f, a) + (header + (EncodeItem(f, b) + t))), cur, seen) ==
            ParseRecords(fields, t, seq(|fields|, j requires 0 <= j < |fields| =>
                                          if j == i then Val(true, [b])
                                          else if Home(fields, j) == Home(fields, i) then Val(false, [])
                                          else cur[j]), seen + {i})
  {
    var f := fields[i];
    var second := TagBytes(f.ltype.WireType(), f.tag) + (EncodeItem(f, b) + t);
    OneScalarRecord(fields, i, a, second, cur, seen);
    OneScalarRecord(fields, i, b, t, Put(fields, cur, i, [a]), seen + {i});
    PutTwice(fields, cur, i, [a], [b]);
    assert seen + {i} + {i} == seen + {i};
    assert Put(fields, cur, i, [b]) == seq(|fields|, j requires 0 <= j < |fields| =>
                                             if j == i then Val(true, [b])
                                             else if Home(fields, j) == Home(fields, i) then Val(false, [])
                                             else cur[j]);
  }

  lemma OneScalarRecord(fields: seq<Field>, i: nat, a: Item, t: Bytes, cur: seq<Val>, seen: set<nat>)
    requires WellFormed(fields) && i < |fields| && |cur| == |fields|
    requires !fields[i].ltype.Submessage? && !fields[i].htype.Repeated?
    requires ItemValid(fields[i], a) && ItemTerminated(fields[i], a)
    ensures var f := fields[i];
            ParseRecords(fields, TagBytes(f.ltype.WireType(), f.tag) + (EncodeItem(f, a) + t), cur, seen) ==
            ParseRecords(fields, t, Put(fields, cur, i, [a]), seen + {i})
  {
    var f := fields[i];
    assert WellFormedField(f);
    ScalarRoundTrip(f, a, t);
    FirstRecord(fields, i, f.ltype.WireType(), EncodeItem(f, a) + t, cur, seen);
    assert ParseField(fields, i, f.ltype.WireType(), EncodeItem(f, a) + t, cur) ==
           Success(Put(fields, cur, i, [a]), t);
  }

  /** Decoding into a oneof does not depend on what the union held. */
  lemma OneofSubmessageRestarts(fields: seq<Field>, i: nat, wireType: nat, s: Bytes, a: seq<Val>, b: seq<Val>)
    requires |a| == |b| == |fields| && i < |fields| && fields[i].htype.Oneof?
    requires forall j :: 0 <= j < |fields| && Home(fields, j) != Home(fields, i) ==> a[j] == b[j]
    ensures ParseField(fields, i, wireType, s, a) == ParseField(fields, i, wireType, s, b)
  {
    forall items: seq<Item>
      ensures Put(fields, a, i, items) == Put(fields, b, i, items)
    {}
  }

  // ---------------------------------------------------------------- an input that shows it

  // a message with one optional uint32 field, and a message with the first one in a oneof
  const INNER: seq<Field> := [Field(1, UVarint, Optional, 4, -4, 4, 0, [], None)]
  const OUTER: seq<Field> := [Field(1, Submessage, Oneof, 4, -4, 8, 0, INNER, None)]

  lemma SmallDescriptors()
    ensures WellFormed(INNER) && WellFormed(OUTER)
  {
    assert RequiredBefore(INNER, 0) == 0 && RequiredBefore(OUTER, 0) == 0;
    assert RequiredBefore(INNER, 1) == 0 && RequiredBefore(OUTER, 1) == 0;
    assert DistinctTags(INNER[..0]) && DistinctTags(OUTER[..0]);
    assert WellFormedField(INNER[0]);
    assert WellFormed(INNER);
    assert WellFormedField(OUTER[0]);
  }

  /** The content of INNER with its field set to 7. */
  const SEVEN: seq<Val> := [Val(true, [Num(7)])]

  lemma SevenRoundTrip()
    ensures var run := ParseRecords(INNER, EncodeMessage(INNER, SEVEN), Defaults(INNER), {});
            |EncodeMessage(INNER, SEVEN)| == 2 && run == Ran(SEVEN, {0}, [], true)
  {
    SmallDescriptors();
    var value: Bytes := [7];
    assert EncodeRecords(INNER[0], []) == [];
    assert EncodeScalar(INNER[0], Num(7)) == value;
    assert EncodeVal(INNER[0], SEVEN[0]) == TagBytes(WT_VARINT, 1) + value + EncodeRecords(INNER[0], []);
    assert EncodeFrom(INNER, SEVEN, 1) == [];
    assert EncodeMessage(INNER, SEVEN) == TagBytes(WT_VARINT, 1) + value;
    assert TagBytes(WT_VARINT, 1) == [8];
    FirstRecord(INNER, 0, WT_VARINT, value, Defaults(INNER), {});
    IntegerRoundTrip(UVarint, 4, 7);
    assert ParseScalar(INNER[0], value) == Success(Num(7), []);
    assert Put(INNER, Defaults(INNER), 0, [Num(7)]) == SEVEN;
    assert {} + {0} == {0};
  }

  lemma OneRecordInOneof(body: Bytes)
    requires |body| < TWO_32 && ParseFresh(INNER, body).Success?
    ensures ParseFresh(OUTER, SubmessageRecord(OUTER[0], body)) ==
            Success([Val(true, [Msg(ParseFresh(INNER, body).value)])], [])
  {
    var cur, r := Defaults(OUTER), SubmessageRecord(OUTER[0], body);
    SmallDescriptors();
    OneSubmessageRecord(OUTER, 0, body, [], cur, {});
    assert r + [] == r;
    var item := Msg(ParseFresh(INNER, body).value);
    assert Put(OUTER, cur, 0, [item]) == [Val(true, [item])];
  }

  /**
   A oneof submessage holding 7, followed by an empty record of the same member: the 7 is gone,
   while one record with the joined body keeps it.
   */
  lemma OneofRecordsDoNotMerge()
    ensures WellFormed(OUTER) && Defaults(INNER) != SEVEN
    ensures var a, f := EncodeMessage(INNER, SEVEN), OUTER[0];
            && ParseFresh(OUTER, SubmessageRecord(f, a + [])) == Success([Val(true, [Msg(SEVEN)])], [])
            && ParseFresh(OUTER, SubmessageRecord(f, a) + SubmessageRecord(f, [])) ==
               Success([Val(true, [Msg(Defaults(INNER))])], [])
  {
    var a, f := EncodeMessage(INNER, SEVEN), OUTER[0];
    SmallDescriptors();
    SevenRoundTrip();
    OneRecordInOneof(a);
    OneRecordInOneof([]);
    SubmessageRecordsMerge(OUTER, 0, a, [], [], Defaults(OUTER), {});
    assert a + [] == a && SubmessageRecord(f, []) + [] == SubmessageRecord(f, []);
    assert !Defaults(INNER)[0].present;
  }
}
