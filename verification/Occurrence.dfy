/**
 The records of an input, seen from outside of the loop: a field counts as met exactly when the
 input has a record header with its tag behind whole records. It decides which required fields
 are missing and which fields keep what they held.
 */
module Occurrence {
  import opened Wire
  import opened Descriptor
  import opened Message
  import opened Decoding
  import opened Concatenation

  // ---------------------------------------------------------------- cutting off the rest

  lemma {:induction false} Base128Cut(s: Bytes) returns (u: Bytes)
    requires Base128(s).Success?
    ensures s == u + Base128(s).rest && Base128(u) == Success(Base128(s).value, [])
  {
    if s[0] < 128 {
      u := [s[0]];
    } else {
      var v := Base128Cut(s[1..]);
      u := [s[0]] + v;
      assert u[1..] == v;
    }
  }

  lemma Varint32Cut(s: Bytes) returns (u: Bytes)
    requires ReadVarint32(s).Success?
    ensures s == u + ReadVarint32(s).rest && ReadVarint32(u) == Success(ReadVarint32(s).value, [])
  {
    u := Base128Cut(s);
  }

  lemma WholeBlock(head: Bytes, body: Bytes)
    requires ReadVarint32(head) == Success(|body|, [])
    ensures ReadBlock(head + body) == Success(body, [])
  {
    Base128Extends(head, body);
    assert [] + body == body && body[..|body|] == body && body[|body|..] == [];
  }

  /** A block is its length and its body, and nothing after them. */
  lemma BlockCut(s: Bytes) returns (u: Bytes)
    requires ReadBlock(s).Success?
    ensures s == u + ReadBlock(s).rest && ReadBlock(u) == Success(ReadBlock(s).value, [])
  {
    var body := ReadBlock(s).value;
    var head := Varint32Cut(s);
    WholeBlock(head, body);
    u := head + body;
  }

  lemma IntegerCut(f: Field, s: Bytes) returns (u: Bytes)
    requires f.ltype.Integer() && ParseScalar(f, s).Success?
    ensures s == u + ParseScalar(f, s).rest && ParseScalar(f, u) == Success(ParseScalar(f, s).value, [])
  {
    u := Base128Cut(s);
  }

  lemma TakeCut(s: Bytes, n: nat)
    requires n <= |s|
    ensures s == s[..n] + s[n..] && s[..n][..n] == s[..n] && s[..n][n..] == []
  {}

  lemma ScalarCut(f: Field, s: Bytes) returns (u: Bytes)
    requires ParseScalar(f, s).Success?
    ensures s == u + ParseScalar(f, s).rest && ParseScalar(f, u) == Success(ParseScalar(f, s).value, [])
  {
    if f.ltype.Integer() {
      u := IntegerCut(f, s);
    } else if f.ltype.Fixed32? || f.ltype.Fixed64? {
      var n := if f.ltype.Fixed32? then 4 else 8;
      TakeCut(s, n);
      u := s[..n];
    } else {
      u := BlockCut(s);
    }
  }

  lemma ItemCut(f: Field, s: Bytes, base: seq<Val>) returns (u: Bytes)
    requires |base| == |f.sub| && ParseItem(f, s, base).Success?
    ensures s == u + ParseItem(f, s, base).rest
    ensures ParseItem(f, u, base) == Success(ParseItem(f, s, base).value, [])
  {
    if f.ltype.Submessage? {
      u := BlockCut(s);
    } else {
      u := ScalarCut(f, s);
    }
  }

  lemma FieldCut(fields: seq<Field>, i: nat, wireType: nat, s: Bytes, vals: seq<Val>) returns (u: Bytes)
    requires |vals| == |fields| && i < |fields| && ParseField(fields, i, wireType, s, vals).Success?
    ensures var r := ParseField(fields, i, wireType, s, vals);
            s == u + r.rest && ParseField(fields, i, wireType, u, vals) == Success(r.value, [])
  {
    var f := fields[i];
    if f.htype.Repeated? && wireType == WT_STRING && f.ltype.Packable() {
      u := BlockCut(s);
    } else {
      u := ItemCut(f, s, if f.htype.Repeated? then Defaults(f.sub) else Base(f, vals[i]));
    }
  }

  lemma SkipCut(wireType: nat, s: Bytes) returns (u: Bytes)
    requires SkipField(wireType, s).Success?
    ensures s == u + SkipField(wireType, s).rest && SkipField(wireType, u) == Success((), [])
  {
    if wireType == WT_VARINT {
      u := Base128Cut(s);
    } else if wireType == WT_STRING {
      u := BlockCut(s);
    } else {
      var n := if wireType == WT_64BIT then 8 else 4;
      TakeCut(s, n);
      u := s[..n];
    }
  }

  lemma RecordCut(fields: seq<Field>, tag: nat, wireType: nat, s: Bytes, vals: seq<Val>) returns (u: Bytes)
    requires |vals| == |fields| && ParseRecord(fields, tag, wireType, s, vals).Success?
    ensures var r := ParseRecord(fields, tag, wireType, s, vals);
            s == u + r.rest && ParseRecord(fields, tag, wireType, u, vals) == Success(r.value, [])
  {
    match FieldWithTag(fields, tag)
    case Some(i) => u := FieldCut(fields, i, wireType, s, vals);
    case None => u := SkipCut(wireType, s);
  }

  lemma TagCut(s: Bytes) returns (u: Bytes)
    requires ReadTag(s).Record?
    ensures s == u + ReadTag(s).rest && ReadTag(u) == Record(ReadTag(s).tag, ReadTag(s).wireType, [])
  {
    u := Varint32Cut(s);
  }

  lemma HeaderThen(head: Bytes, body: Bytes)
    requires ReadTag(head).Record? && ReadTag(head).rest == []
    ensures ReadTag(head + body) == Record(ReadTag(head).tag, ReadTag(head).wireType, body)
  {
    TagExtends(head, body);
    assert [] + body == body;
  }

  lemma Join(a: Bytes, b: Bytes, c: Bytes)
    ensures a + (b + c) == a + b + c
  {}

  lemma OneRecord(fields: seq<Field>, s: Bytes, vals: seq<Val>)
    requires |vals| == |fields| && ReadTag(s).Record?
    requires var h := ReadTag(s);
             var r := ParseRecord(fields, h.tag, h.wireType, h.rest, vals);
             r.Success? && r.rest == []
    ensures var h := ReadTag(s);
            var r := ParseRecord(fields, h.tag, h.wireType, h.rest, vals);
            ParseRecords(fields, s, vals, {}) == Ran(r.value, SeenBy(fields, h.tag), [], true)
  {
    var h := ReadTag(s);
    assert {} + SeenBy(fields, h.tag) == SeenBy(fields, h.tag);
  }

  /** One round of the loop reads one whole record. */
  lemma FirstRecord(fields: seq<Field>, s: Bytes, vals: seq<Val>) returns (u: Bytes)
    requires |vals| == |fields| && ReadTag(s).Record?
    requires var h := ReadTag(s); ParseRecord(fields, h.tag, h.wireType, h.rest, vals).Success?
    ensures var h := ReadTag(s);
            var r := ParseRecord(fields, h.tag, h.wireType, h.rest, vals);
            && s == u + r.rest
            && ParseRecords(fields, u, vals, {}) == Ran(r.value, SeenBy(fields, h.tag), [], true)
  {
    var h := ReadTag(s);
    var head := TagCut(s);
    var body := RecordCut(fields, h.tag, h.wireType, h.rest, vals);
    HeaderThen(head, body);
    u := head + body;
    OneRecord(fields, u, vals);
    Join(head, body, ParseRecord(fields, h.tag, h.wireType, h.rest, vals).rest);
  }

  // ---------------------------------------------------------------- occurrence

  /** `s` starts with a record header for `tag`: the base-128 number in front, mod 2^32, is 8 * tag + type. */
  ghost predicate HeaderFor(s: Bytes, tag: nat) {
    exists n: nat :: n <= 5 && TerminatesAt(s, n) && DigitSum(s[..n]) % 0x1_0000_0000 / 8 == tag
  }

  /** `s` has a record for `tag` behind whole records. */
  ghost predicate Occurs(fields: seq<Field>, s: Bytes, vals: seq<Val>, tag: nat)
    requires |vals| == |fields|
  {
    exists k: nat :: k <= |s| && WholeRecords(fields, s[..k], vals) && HeaderFor(s[k..], tag)
  }

  lemma HeaderIsRead(s: Bytes, tag: nat)
    requires tag > 0
    ensures HeaderFor(s, tag) <==> ReadTag(s).Record? && ReadTag(s).tag == tag
  {
    Varint32Exact(s);
  }

  /** Whole records and then a record for field `i`: the loop meets the field. */
  lemma OccursIsSeen(fields: seq<Field>, s: Bytes, vals: seq<Val>, i: nat)
    requires |vals| == |fields| && i < |fields| && DistinctTags(fields) && fields[i].tag > 0
    requires ParseRecords(fields, s, vals, {}).Ran? && Occurs(fields, s, vals, fields[i].tag)
    ensures i in ParseRecords(fields, s, vals, {}).seen
  {
    var k: nat :| k <= |s| && WholeRecords(fields, s[..k], vals) && HeaderFor(s[k..], fields[i].tag);
    var b := s[k..];
    assert s == s[..k] + b;
    RecordsConcatenate(fields, s[..k], b, vals, {});
    var first := ParseRecords(fields, s[..k], vals, {});
    FirstIsSeen(fields, b, first.vals, first.seen, i);
  }

  lemma FirstIsSeen(fields: seq<Field>, b: Bytes, vals: seq<Val>, seen: set<nat>, i: nat)
    requires |vals| == |fields| && i < |fields| && DistinctTags(fields) && fields[i].tag > 0
    requires HeaderFor(b, fields[i].tag) && ParseRecords(fields, b, vals, seen).Ran?
    ensures i in ParseRecords(fields, b, vals, seen).seen
  {
    HeaderIsRead(b, fields[i].tag);
    TagSelects(fields, i);
  }

  lemma WholeJoin(fields: seq<Field>, u: Bytes, w: Bytes, vals: seq<Val>)
    requires |vals| == |fields| && WholeRecords(fields, u, vals)
    requires WholeRecords(fields, w, ParseRecords(fields, u, vals, {}).vals)
    ensures WholeRecords(fields, u + w, vals)
  {
    var first := ParseRecords(fields, u, vals, {});
    RecordsConcatenate(fields, u, w, vals, {});
    SeenAccumulates(fields, w, first.vals, first.seen);
  }

  /** What occurs behind a whole record occurs in the whole. */
  lemma OccursBehind(fields: seq<Field>, u: Bytes, b: Bytes, vals: seq<Val>, tag: nat)
    requires |vals| == |fields| && WholeRecords(fields, u, vals)
    requires Occurs(fields, b, ParseRecords(fields, u, vals, {}).vals, tag)
    ensures Occurs(fields, u + b, vals, tag)
  {
    var first := ParseRecords(fields, u, vals, {});
    var k: nat :| k <= |b| && WholeRecords(fields, b[..k], first.vals) && HeaderFor(b[k..], tag);
    WholeJoin(fields, u, b[..k], vals);
    SplitBehind(u, b, k);
    assert WholeRecords(fields, (u + b)[..|u| + k], vals) && HeaderFor((u + b)[|u| + k..], tag);
  }

  lemma SplitBehind(u: Bytes, b: Bytes, k: nat)
    requires k <= |b|
    ensures (u + b)[..|u| + k] == u + b[..k] && (u + b)[|u| + k..] == b[k..]
  {}

  lemma {:induction false} SeenOccurs(fields: seq<Field>, s: Bytes, vals: seq<Val>, i: nat)
    requires |vals| == |fields| && i < |fields| && fields[i].tag > 0
    requires ParseRecords(fields, s, vals, {}).Ran? && i in ParseRecords(fields, s, vals, {}).seen
    ensures Occurs(fields, s, vals, fields[i].tag)
    decreases |s|
  {
    var h := ReadTag(s);
    var r := ParseRecord(fields, h.tag, h.wireType, h.rest, vals);
    if FieldWithTag(fields, h.tag) == Some(i) {
      HeaderIsRead(s, h.tag);
      assert s[0..] == s;
      assert WholeRecords(fields, s[..0], vals);
    } else {
      var u := FirstRecord(fields, s, vals);
      SeenAccumulates(fields, r.rest, r.value, {} + SeenBy(fields, h.tag));
      SeenOccurs(fields, r.rest, r.value, i);
      OccursBehind(fields, u, r.rest, vals, fields[i].tag);
    }
  }

  /** The loop counts a field as met exactly when a record for its tag occurs in the input. */
  lemma SeenExactly(fields: seq<Field>, s: Bytes, vals: seq<Val>, i: nat)
    requires |vals| == |fields| && i < |fields| && WellFormed(fields)
    requires ParseRecords(fields, s, vals, {}).Ran?
    ensures i in ParseRecords(fields, s, vals, {}).seen <==> Occurs(fields, s, vals, fields[i].tag)
  {
    assert WellFormedField(fields[i]);
    if i in ParseRecords(fields, s, vals, {}).seen {
      SeenOccurs(fields, s, vals, i);
    } else if Occurs(fields, s, vals, fields[i].tag) {
      OccursIsSeen(fields, s, vals, i);
    }
  }

  /**
   Decoding succeeds exactly when the record loop gets through and the input has a record for every
   required field.
   */
  lemma RequiredExactly(fields: seq<Field>, s: Bytes, vals: seq<Val>)
    requires |vals| == |fields| && WellFormed(fields)
    ensures ParseMessage(fields, s, vals).Success? <==>
            && ParseRecords(fields, s, vals, {}).Ran?
            && forall i {:trigger fields[i]} ::
                 0 <= i < |fields| && fields[i].htype.Required? ==> Occurs(fields, s, vals, fields[i].tag)
  {
    if ParseRecords(fields, s, vals, {}).Ran? {
      forall i | 0 <= i < |fields|
        ensures i in ParseRecords(fields, s, vals, {}).seen <==> Occurs(fields, s, vals, fields[i].tag)
      {
        SeenExactly(fields, s, vals, i);
      }
    }
  }

  // ---------------------------------------------------------------- fields without a record

  lemma {:induction false} UnseenKept(fields: seq<Field>, s: Bytes, vals: seq<Val>, seen: set<nat>, i: nat)
    requires |vals| == |fields| && i < |fields| && ParseRecords(fields, s, vals, seen).Ran?
    requires forall j {:trigger Home(fields, j)} ::
               0 <= j < |fields| && Home(fields, j) == Home(fields, i) ==>
                 j !in ParseRecords(fields, s, vals, seen).seen
    ensures ParseRecords(fields, s, vals, seen).vals[i] == vals[i]
    decreases |s|
  {
    if s != [] && ReadTag(s).Record? {
      var h := ReadTag(s);
      var r := ParseRecord(fields, h.tag, h.wireType, h.rest, vals);
      UnseenKept(fields, r.rest, r.value, seen + SeenBy(fields, h.tag), i);
      if FieldWithTag(fields, h.tag).Some? {
        var j := FieldWithTag(fields, h.tag).value;
        assert j in seen + SeenBy(fields, h.tag);
        assert Home(fields, j) != Home(fields, i);
        assert ParseRecord(fields, h.tag, h.wireType, h.rest, vals) ==
               ParseField(fields, j, h.wireType, h.rest, vals);
      }
    }
  }

  /**
   A field keeps its content when the input has a record neither for it nor for another member of
   its union. After pb_decode that is its default.
   */
  lemma UnnamedKept(fields: seq<Field>, s: Bytes, vals: seq<Val>, i: nat)
    requires |vals| == |fields| && i < |fields| && WellFormed(fields) && ParseMessage(fields, s, vals).Success?
    requires forall j {:trigger Home(fields, j)} ::
               0 <= j < |fields| && Home(fields, j) == Home(fields, i) ==> !Occurs(fields, s, vals, fields[j].tag)
    ensures ParseMessage(fields, s, vals).value[i] == vals[i]
  {
    forall j | 0 <= j < |fields| && Home(fields, j) == Home(fields, i)
      ensures j !in ParseRecords(fields, s, vals, {}).seen
    {
      SeenExactly(fields, s, vals, j);
    }
    UnseenKept(fields, s, vals, {}, i);
  }
}
