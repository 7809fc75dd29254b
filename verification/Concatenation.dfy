/**
 Parsers only look at the bytes they consume, so decoding whole records one after the other
 is decoding their concatenation: the last value wins, repeated fields append, submessages
 merge.
 */
module Concatenation {
  import opened Wire
  import opened Descriptor
  import opened Message
  import opened Decoding

  // ---------------------------------------------------------------- more input behind

  lemma {:induction false} Base128Extends(s: Bytes, t: Bytes)
    requires Base128(s).Success?
    ensures Base128(s + t) == Success(Base128(s).value, Base128(s).rest + t)
  {
    assert (s + t)[1..] == s[1..] + t;
    if s[0] >= 128 {
      Base128Extends(s[1..], t);
    }
  }

  lemma TakeExtends(s: Bytes, n: nat, t: Bytes)
    requires n <= |s|
    ensures (s + t)[..n] == s[..n] && (s + t)[n..] == s[n..] + t
  {}

  lemma BlockExtends(s: Bytes, t: Bytes)
    requires ReadBlock(s).Success?
    ensures ReadBlock(s + t) == Success(ReadBlock(s).value, ReadBlock(s).rest + t)
  {
    Base128Extends(s, t);
    TakeExtends(ReadVarint32(s).rest, ReadVarint32(s).value, t);
  }

  lemma ScalarExtends(f: Field, s: Bytes, t: Bytes)
    requires ParseScalar(f, s).Success?
    ensures ParseScalar(f, s + t) == Success(ParseScalar(f, s).value, ParseScalar(f, s).rest + t)
  {
    match f.ltype
    case Varint | UVarint | SVarint => Base128Extends(s, t);
    case Fixed32 => TakeExtends(s, 4, t);
    case Fixed64 => TakeExtends(s, 8, t);
    case BytesArray | CString | FixedLengthBytes => BlockExtends(s, t);
  }

  lemma ItemExtends(f: Field, s: Bytes, base: seq<Val>, t: Bytes)
    requires |base| == |f.sub| && ParseItem(f, s, base).Success?
    ensures ParseItem(f, s + t, base) == Success(ParseItem(f, s, base).value, ParseItem(f, s, base).rest + t)
  {
    if f.ltype.Submessage? {
      BlockExtends(s, t);
    } else {
      ScalarExtends(f, s, t);
    }
  }

  lemma FieldExtends(fields: seq<Field>, i: nat, wireType: nat, s: Bytes, vals: seq<Val>, t: Bytes)
    requires |vals| == |fields| && i < |fields| && ParseField(fields, i, wireType, s, vals).Success?
    ensures var r := ParseField(fields, i, wireType, s, vals);
            ParseField(fields, i, wireType, s + t, vals) == Success(r.value, r.rest + t)
  {
    var f := fields[i];
    if f.htype.Repeated? && wireType == WT_STRING && f.ltype.Packable() {
      BlockExtends(s, t);
    } else {
      ItemExtends(f, s, if f.htype.Repeated? then Defaults(f.sub) else Base(f, vals[i]), t);
    }
  }

  lemma SkipExtends(wireType: nat, s: Bytes, t: Bytes)
    requires SkipField(wireType, s).Success?
    ensures SkipField(wireType, s + t) == Success((), SkipField(wireType, s).rest + t)
  {
    if wireType == WT_VARINT {
      Base128Extends(s, t);
    } else if wireType == WT_64BIT {
      TakeExtends(s, 8, t);
    } else if wireType == WT_STRING {
      BlockExtends(s, t);
    } else {
      TakeExtends(s, 4, t);
    }
  }

  lemma TagExtends(s: Bytes, t: Bytes)
    requires ReadTag(s).Record?
    ensures ReadTag(s + t) == Record(ReadTag(s).tag, ReadTag(s).wireType, ReadTag(s).rest + t)
  {
    Base128Extends(s, t);
  }

  lemma RecordExtends(fields: seq<Field>, tag: nat, wireType: nat, s: Bytes, vals: seq<Val>, t: Bytes)
    requires |vals| == |fields| && ParseRecord(fields, tag, wireType, s, vals).Success?
    ensures var r := ParseRecord(fields, tag, wireType, s, vals);
            ParseRecord(fields, tag, wireType, s + t, vals) == Success(r.value, r.rest + t)
  {
    match FieldWithTag(fields, tag)
    case Some(i) => FieldExtends(fields, i, wireType, s, vals, t);
    case None => SkipExtends(wireType, s, t);
  }

  // ---------------------------------------------------------------- whole records

  /** `a` is a sequence of whole records that decode from `vals` without error. */
  predicate WholeRecords(fields: seq<Field>, a: Bytes, vals: seq<Val>)
    requires |vals| == |fields|
  {
    var r := ParseRecords(fields, a, vals, {});
    r.Ran? && r.complete
  }

  /** The fields met so far do not influence the loop. */
  lemma {:induction false} SeenAccumulates(fields: seq<Field>, s: Bytes, vals: seq<Val>, seen: set<nat>)
    requires |vals| == |fields|
    ensures ParseRecords(fields, s, vals, seen) ==
            match ParseRecords(fields, s, vals, {})
            case Stuck => Stuck
            case Ran(vals', seen', rest, complete) => Ran(vals', seen + seen', rest, complete)
    decreases |s|
  {
    if s != [] && ReadTag(s).Record? {
      var h := ReadTag(s);
      var r := ParseRecord(fields, h.tag, h.wireType, h.rest, vals);
      if r.Success? {
        var here := SeenBy(fields, h.tag);
        SeenAccumulates(fields, r.rest, r.value, seen + here);
        SeenAccumulates(fields, r.rest, r.value, {} + here);
        SeenUnion(seen, here, ParseRecords(fields, r.rest, r.value, {}));
      }
    }
  }

  lemma SeenUnion(seen: set<nat>, here: set<nat>, r: Run)
    ensures {} + here == here
    ensures r.Ran? ==> seen + here + r.seen == seen + (here + r.seen)
  {}

  /** The loop on `a + b` is the loop on `a` followed by the loop on `b`. */
  lemma {:induction false} RecordsConcatenate(fields: seq<Field>, a: Bytes, b: Bytes, vals: seq<Val>, seen: set<nat>)
    requires |vals| == |fields|
    requires ParseRecords(fields, a, vals, seen).Ran? && ParseRecords(fields, a, vals, seen).complete
    ensures var r := ParseRecords(fields, a, vals, seen);
            ParseRecords(fields, a + b, vals, seen) == ParseRecords(fields, b, r.vals, r.seen)
    decreases |a|
  {
    if a == [] {
      assert a + b == b;
    } else {
      var h := ReadTag(a);
      TagExtends(a, b);
      RecordExtends(fields, h.tag, h.wireType, h.rest, vals, b);
      var r := ParseRecord(fields, h.tag, h.wireType, h.rest, vals);
      RecordsConcatenate(fields, r.rest, b, r.value, seen + SeenBy(fields, h.tag));
    }
  }

  /**
   Concatenation is sequential composition. Decoding `a + b` into a struct ends where decoding
   `b` ends in the struct that `a` left behind, and it succeeds exactly when both record loops
   do and together they meet every required field.
   */
  lemma DecodeConcatenation(fields: seq<Field>, a: Bytes, b: Bytes, vals: seq<Val>)
    requires |vals| == |fields| && WholeRecords(fields, a, vals)
    ensures var first := ParseRecords(fields, a, vals, {});
            ParseMessage(fields, a + b, vals) ==
            match ParseRecords(fields, b, first.vals, {})
            case Stuck => Failure
            case Ran(vals', seen, rest, _) =>
              if AllRequired(fields, first.seen + seen) then Success(vals', rest) else Failure
  {
    var first := ParseRecords(fields, a, vals, {});
    RecordsConcatenate(fields, a, b, vals, {});
    SeenAccumulates(fields, b, first.vals, first.seen);
  }

  /** In particular, two successful decodes in a row are one decode of the concatenation. */
  lemma DecodeTwiceIsDecodeOnce(fields: seq<Field>, a: Bytes, b: Bytes, s: seq<Val>, s1: seq<Val>, s2: seq<Val>,
                                rest: Bytes)
    requires |s| == |s1| == |fields| && WholeRecords(fields, a, s)
    requires ParseMessage(fields, a, s) == Success(s1, [])
    requires ParseMessage(fields, b, s1) == Success(s2, rest)
    ensures ParseMessage(fields, a + b, s) == Success(s2, rest)
  {
    DecodeConcatenation(fields, a, b, s);
  }

  // ---------------------------------------------------------------- unknown fields

  /** `u` is one well-formed record for a tag without a field, not 0 if there are no fields at all. */
  predicate UnknownRecord(fields: seq<Field>, u: Bytes) {
    match ReadTag(u)
    case Record(tag, wireType, body) =>
      && (tag != 0 || fields != [])
      && FieldWithTag(fields, tag).None?
      && SkipField(wireType, body) == Success((), [])
    case _ => false
  }

  lemma UnknownRecordIsSkipped(fields: seq<Field>, u: Bytes, b: Bytes, vals: seq<Val>, seen: set<nat>)
    requires |vals| == |fields| && UnknownRecord(fields, u)
    ensures ParseRecords(fields, u + b, vals, seen) == ParseRecords(fields, b, vals, seen)
  {
    var h := ReadTag(u);
    TagExtends(u, b);
    SkipExtends(h.wireType, h.rest, b);
    assert [] + b == b;
    assert seen + {} == seen;
  }

  /** Inserting an unknown record between records changes neither the result nor success. */
  lemma UnknownFieldsAreTransparent(fields: seq<Field>, a: Bytes, u: Bytes, b: Bytes, vals: seq<Val>)
    requires |vals| == |fields| && WholeRecords(fields, a, vals) && UnknownRecord(fields, u)
    ensures ParseMessage(fields, a + u + b, vals) == ParseMessage(fields, a + b, vals)
  {
    var first := ParseRecords(fields, a, vals, {});
    assert a + u + b == a + (u + b);
    RecordsConcatenate(fields, a, u + b, vals, {});
    RecordsConcatenate(fields, a, b, vals, {});
    UnknownRecordIsSkipped(fields, u, b, first.vals, first.seen);
  }

  /** With no fields at all, tag 0 is taken for the terminator of the descriptor, and the record fails. */
  lemma EmptyDescriptorRejectsTagZero(a: Bytes, b: Bytes)
    requires WholeRecords([], a, []) && ReadTag(b).Record? && ReadTag(b).tag == 0
    ensures ParseMessage([], a + b, []).Failure?
  {
    RecordsConcatenate([], a, b, [], {});
  }

  // ---------------------------------------------------------------- early ends

  /** Nothing but continuation bytes, and no more than a 32-bit varint may have. */
  predicate CutOff(b: Bytes) {
    |b| <= 5 && forall k :: 0 <= k < |b| ==> b[k] >= 128
  }

  lemma {:induction false} NeverTerminates(b: Bytes)
    ensures Base128(b).Failure? <==> forall k :: 0 <= k < |b| ==> b[k] >= 128
  {
    if b != [] && b[0] >= 128 {
      NeverTerminates(b[1..]);
      assert forall k :: 1 <= k < |b| ==> b[k] == b[1..][k - 1];
    }
  }

  /** The bytes at which the decoder takes a message to be over: a cut-off header, or a zero. */
  lemma EndsHere(b: Bytes)
    ensures ReadTag(b).End? <==> CutOff(b) || (ReadVarint32(b).Success? && ReadVarint32(b).value == 0)
    ensures CutOff(b) ==> ReadTag(b).rest == []
  {
    NeverTerminates(b);
  }

  /**
   A message is not only over at the end of its bytes. After whole records, a header that is cut
   off and a header that reads as 0 end it as well, with the same content and the same success;
   only the bytes left unread differ.
   */
  lemma MessageEndsEarly(fields: seq<Field>, a: Bytes, b: Bytes, vals: seq<Val>)
    requires |vals| == |fields| && WholeRecords(fields, a, vals)
    requires CutOff(b) || (ReadVarint32(b).Success? && ReadVarint32(b).value == 0)
    ensures ParseMessage(fields, a, vals).Success? == ParseMessage(fields, a + b, vals).Success?
    ensures ParseMessage(fields, a, vals).Success? ==>
              ParseMessage(fields, a + b, vals) == Success(ParseMessage(fields, a, vals).value, ReadTag(b).rest)
  {
    EndsHere(b);
    RecordsConcatenate(fields, a, b, vals, {});
  }
}
