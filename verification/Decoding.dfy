/**
 What pb_decode.c computes, as functions from the remaining input bytes and the content of
 the destination struct to its new content. `rest` is the input after the parsed part.
 */
module Decoding {
  import opened Wire
  import opened Descriptor
  import opened Integers
  import opened Message

  /** The field decoders other than pb_dec_submessage. */
  function ParseScalar(f: Field, s: Bytes): (r: Parse<Item>)
    ensures r.Success? ==> |r.rest| < |s|
  {
    match f.ltype
    case Varint | UVarint | SVarint => (
      match ReadVarint64(s)
      case Failure => Failure
      case Success(u, rest) =>
        match FromWire(f.ltype, f.dataSize, u)
        case None => Failure
        case Some(n) => Success(Num(n), rest))
    case Fixed32 =>
      if |s| >= 4 then Success(Num(LittleEndian(s[..4])), s[4..]) else Failure
    case Fixed64 =>
      if |s| >= 8 then Success(Num(LittleEndian(s[..8])), s[8..]) else Failure
    case BytesArray => (
      match ReadBlock(s)
      case Failure => Failure
      case Success(b, rest) => if |b| + BYTES_HEADER > f.dataSize then Failure else Success(Blob(b), rest))
    case CString => (
      match ReadBlock(s)
      case Failure => Failure
      case Success(b, rest) => if |b| + 1 > f.dataSize then Failure else Success(Blob(UpToNul(b)), rest))
    case FixedLengthBytes => (
      match ReadBlock(s)
      case Failure => Failure
      case Success(b, rest) =>
        if |b| == 0 then Success(Blob(Zeros(f.dataSize)), rest)
        else if |b| != f.dataSize then Failure
        else Success(Blob(b), rest))
    case Submessage | Extension => Failure
  }

  /** The packed branch of decode_static_field: items from a block until it is used up. */
  function ParsePacked(f: Field, s: Bytes, items: seq<Item>): Option<seq<Item>>
    decreases |s|
  {
    if s == [] then Some(items)
    else if |items| >= f.arraySize then None
    else
      match ParseScalar(f, s)
      case Failure => None
      case Success(item, rest) => ParsePacked(f, rest, items + [item])
  }

  /** One item; a submessage is merged into `base`, or parsed afresh in a repeated field. */
  function ParseItem(f: Field, s: Bytes, base: seq<Val>): (r: Parse<Item>)
    requires |base| == |f.sub|
    ensures r.Success? ==> |r.rest| < |s|
    decreases f, 0, 0
  {
    if f.ltype.Submessage? then
      match ReadBlock(s)
      case Failure => Failure
      case Success(body, rest) =>
        match ParseMessage(f.sub, body, if f.htype.Repeated? then Defaults(f.sub) else base)
        case Failure => Failure
        case Success(vals, _) => Success(Msg(vals), rest)
    else ParseScalar(f, s)
  }

  /** What a submessage record is merged into: a union member is reset first. */
  function Base(f: Field, v: Val): (base: seq<Val>)
    ensures |base| == |f.sub|
  {
    if f.htype.Oneof? then Defaults(f.sub) else SubVals(f, FirstItem(f, v))
  }

  /** decode_static_field. */
  function ParseField(fields: seq<Field>, i: nat, wireType: nat, s: Bytes, vals: seq<Val>): (r: Parse<seq<Val>>)
    requires |vals| == |fields| && i < |fields|
    ensures r.Success? ==> |r.rest| < |s| && |r.value| == |fields|
    decreases fields, |s|, 1
  {
    var f := fields[i];
    if f.htype.Repeated? then
      if wireType == WT_STRING && f.ltype.Packable() then
        match ReadBlock(s)
        case Failure => Failure
        case Success(body, rest) =>
          match ParsePacked(f, body, vals[i].items)
          case None => Failure
          case Some(items) => Success(Put(fields, vals, i, items), rest)
      else if |vals[i].items| >= f.arraySize then Failure
      else
        match ParseItem(f, s, Defaults(f.sub))
        case Failure => Failure
        case Success(item, rest) => Success(Put(fields, vals, i, vals[i].items + [item]), rest)
    else
      match ParseItem(f, s, Base(f, vals[i]))
      case Failure => Failure
      case Success(item, rest) => Success(Put(fields, vals, i, [item]), rest)
  }

  /**
   The part of a record after its header. On an empty descriptor tag 0 selects the
   terminator, whose zero data size makes the decoder fail; other unknown tags are skipped.
   */
  function ParseRecord(fields: seq<Field>, tag: nat, wireType: nat, s: Bytes, vals: seq<Val>): (r: Parse<seq<Val>>)
    requires |vals| == |fields|
    ensures r.Success? ==> |r.rest| < |s| && |r.value| == |fields|
    decreases fields, |s|, 2
  {
    match FieldWithTag(fields, tag)
    case Some(i) => ParseField(fields, i, wireType, s, vals)
    case None =>
      if fields == [] && tag == 0 then Failure
      else
        match SkipField(wireType, s)
        case Failure => Failure
        case Success(_, rest) => Success(vals, rest)
  }

  function SeenBy(fields: seq<Field>, tag: nat): set<nat> {
    match FieldWithTag(fields, tag)
    case None => {}
    case Some(i) => {i}
  }

  /**
   The record loop of pb_decode_noinit: the content it reaches, the fields it met, what it
   left unread, and whether it stopped because the input was used up (`complete`) rather than
   at an unreadable or zero header.
   */
  datatype Run = Stuck | Ran(vals: seq<Val>, seen: set<nat>, rest: Bytes, complete: bool)

  function ParseRecords(fields: seq<Field>, s: Bytes, vals: seq<Val>, seen: set<nat>): (r: Run)
    requires |vals| == |fields|
    ensures r.Ran? ==> |r.vals| == |fields| && seen <= r.seen
    ensures r.Ran? && r.complete ==> r.rest == []
    decreases fields, |s|, 3
  {
    if s == [] then Ran(vals, seen, [], true)
    else
      match ReadTag(s)
      case Malformed => Stuck
      case End(rest) => Ran(vals, seen, rest, false)
      case Record(tag, wireType, body) =>
        match ParseRecord(fields, tag, wireType, body, vals)
        case Failure => Stuck
        case Success(vals', rest) => ParseRecords(fields, rest, vals', seen + SeenBy(fields, tag))
  }

  predicate AllRequired(fields: seq<Field>, seen: set<nat>) {
    forall i :: 0 <= i < |fields| && fields[i].htype.Required? ==> i in seen
  }

  /** pb_decode_noinit. */
  function ParseMessage(fields: seq<Field>, s: Bytes, vals: seq<Val>): (r: Parse<seq<Val>>)
    requires |vals| == |fields|
    ensures r.Success? ==> |r.value| == |fields|
    decreases fields, |s|, 4
  {
    match ParseRecords(fields, s, vals, {})
    case Stuck => Failure
    case Ran(vals', seen, rest, _) => if AllRequired(fields, seen) then Success(vals', rest) else Failure
  }

  /** pb_decode. */
  function ParseFresh(fields: seq<Field>, s: Bytes): Parse<seq<Val>> {
    ParseMessage(fields, s, Defaults(fields))
  }

  /** A message in a length-prefixed block; what it leaves unread of the block is skipped. */
  function ParseBlock(fields: seq<Field>, s: Bytes, base: seq<Val>): Parse<seq<Val>>
    requires |base| == |fields|
  {
    match ReadBlock(s)
    case Failure => Failure
    case Success(body, rest) =>
      match ParseMessage(fields, body, base)
      case Failure => Failure
      case Success(vals, _) => Success(vals, rest)
  }

  /** pb_decode_delimited. */
  function ParseDelimited(fields: seq<Field>, s: Bytes): Parse<seq<Val>> {
    ParseBlock(fields, s, Defaults(fields))
  }
}
