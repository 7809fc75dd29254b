/**
 The encoding seen by a reader that knows the wire format of Protocol Buffers and no descriptor: the
 wire types by number, and where each record ends.
 */
module WireNumbers {
  import opened Wire
  import opened Descriptor
  import opened Message
  import opened Encoding

  /** What a record with the given wire type number takes of the input behind its header. */
  function Payload(number: nat, s: Bytes): (r: Parse<()>)
    ensures r.Success? ==> |r.rest| <= |s|
  {
    if number == 0 then
      match Base128(s)
      case Failure => Failure
      case Success(_, rest) => Success((), rest)
    else if number == 2 then
      match Base128(s)
      case Failure => Failure
      case Success(n, rest) => if n <= |rest| then Success((), rest[n..]) else Failure
    else if number == 1 then
      if |s| >= 8 then Success((), s[8..]) else Failure
    else if number == 5 then
      if |s| >= 4 then Success((), s[4..]) else Failure
    else Failure
  }

  /** The tags and wire type numbers of the records that `s` consists of. */
  function Walk(s: Bytes): Option<seq<(nat, nat)>>
    decreases |s|
  {
    if s == [] then Some([])
    else
      match Base128(s)
      case Failure => None
      case Success(header, body) =>
        match Payload(header % 8, body)
        case Failure => None
        case Success(_, rest) => Then([(header / 8, header % 8)], Walk(rest))
  }

  function Then(headers: seq<(nat, nat)>, more: Option<seq<(nat, nat)>>): Option<seq<(nat, nat)>> {
    match more
    case None => None
    case Some(m) => Some(headers + m)
  }

  lemma WalkStep(s: Bytes, header: nat, body: Bytes, rest: Bytes)
    requires Base128(s) == Success(header, body) && Payload(header % 8, body) == Success((), rest)
    ensures Walk(s) == Then([(header / 8, header % 8)], Walk(rest))
  {}

  // ---------------------------------------------------------------- writing

  /** The records of one field: one for a packed array, one for each item otherwise. */
  function Headers(f: Field, v: Val): seq<(nat, nat)> {
    if f.htype.Repeated? && f.ltype.Packable() && v.items != [] then [(f.tag, 2)]
    else Repeated((f.tag, WireNumber(f.ltype)), |LiveItems(f, v)|)
  }

  function Repeated(header: (nat, nat), n: nat): seq<(nat, nat)> {
    seq(n, _ => header)
  }

  function WireNumber(ltype: LType): nat {
    match ltype
    case Varint | UVarint | SVarint => 0
    case Fixed64 => 1
    case Fixed32 => 5
    case BytesArray | CString | FixedLengthBytes | Submessage | Extension => 2
  }

  function AllHeaders(fields: seq<Field>, vals: seq<Val>, i: nat): seq<(nat, nat)>
    requires |vals| == |fields| && i <= |fields|
    decreases |fields| - i
  {
    if i == |fields| then [] else Headers(fields[i], vals[i]) + AllHeaders(fields, vals, i + 1)
  }

  lemma BlockTaken(body: Bytes, t: Bytes)
    ensures Payload(2, Block(body) + t) == Success((), t)
  {
    VarintRoundTrip(|body|, body + t);
    assert Block(body) + t == VarintBytes(|body|) + (body + t);
    assert (body + t)[|body|..] == t;
  }

  /** Every item ends where its wire type number says. */
  lemma ItemTaken(f: Field, item: Item, t: Bytes)
    requires !f.ltype.Extension?
    ensures Payload(WireNumber(f.ltype), EncodeItem(f, item) + t) == Success((), t)
  {
    var e := EncodeItem(f, item);
    match f.ltype
    case Varint | UVarint | SVarint => VarintRoundTrip(Integers.ToWire(f.ltype, NumOf(item)), t);
    case Fixed32 => assert (e + t)[4..] == t;
    case Fixed64 => assert (e + t)[8..] == t;
    case BytesArray | CString | FixedLengthBytes => BlockTaken(BlobOf(item), t);
    case Submessage => BlockTaken(EncodeMessage(f.sub, SubVals(f, item)), t);
  }

  lemma WalkRecord(tag: nat, number: nat, e: Bytes, t: Bytes)
    requires number < 8 && Payload(number, e + t) == Success((), t)
    ensures Walk(TagBytes(number, tag) + (e + t)) == Then([(tag, number)], Walk(t))
  {
    VarintRoundTrip(tag * 8 + number, e + t);
    assert (tag * 8 + number) / 8 == tag && (tag * 8 + number) % 8 == number;
    WalkStep(TagBytes(number, tag) + (e + t), tag * 8 + number, e + t, t);
  }

  lemma {:induction false} WalkRecords(f: Field, items: seq<Item>, t: Bytes)
    requires !f.ltype.Extension?
    ensures Walk(EncodeRecords(f, items) + t) == Then(Repeated((f.tag, WireNumber(f.ltype)), |items|), Walk(t))
    decreases |items|
  {
    var here := (f.tag, WireNumber(f.ltype));
    if items == [] {
      assert EncodeRecords(f, items) + t == t;
      ThenNothing(Walk(t));
    } else {
      var more := EncodeRecords(f, items[1..]) + t;
      OneMoreRecord(f, items, t);
      WalkRecords(f, items[1..], t);
      assert Repeated(here, |items|) == [here] + Repeated(here, |items| - 1);
      ThenThen([here], Repeated(here, |items| - 1), Walk(t));
    }
  }

  lemma OneMoreRecord(f: Field, items: seq<Item>, t: Bytes)
    requires !f.ltype.Extension? && items != []
    ensures Walk(EncodeRecords(f, items) + t) ==
            Then([(f.tag, WireNumber(f.ltype))], Walk(EncodeRecords(f, items[1..]) + t))
  {
    var e, more := EncodeItem(f, items[0]), EncodeRecords(f, items[1..]) + t;
    RecordsSplit(f, items, t);
    ItemTaken(f, items[0], more);
    WalkRecord(f.tag, WireNumber(f.ltype), e, more);
  }

  lemma RecordsSplit(f: Field, items: seq<Item>, t: Bytes)
    requires items != []
    ensures EncodeRecords(f, items) + t ==
            TagBytes(WireNumber(f.ltype), f.tag) + (EncodeItem(f, items[0]) + (EncodeRecords(f, items[1..]) + t))
  {
    NumberWritten(f.ltype);
    Regroup(TagBytes(WireNumber(f.ltype), f.tag), EncodeItem(f, items[0]), EncodeRecords(f, items[1..]), t);
  }

  lemma NumberWritten(ltype: LType)
    ensures ltype.WireType() == WireNumber(ltype)
  {}

  lemma Regroup(a: Bytes, b: Bytes, c: Bytes, d: Bytes)
    ensures a + b + c + d == a + (b + (c + d))
  {}

  lemma ThenNothing(more: Option<seq<(nat, nat)>>)
    ensures Then([], more) == more
  {
    assert more.Some? ==> [] + more.value == more.value;
  }

  lemma ThenThen(a: seq<(nat, nat)>, b: seq<(nat, nat)>, more: Option<seq<(nat, nat)>>)
    ensures Then(a, Then(b, more)) == Then(a + b, more)
  {
    assert more.Some? ==> a + (b + more.value) == a + b + more.value;
  }

  lemma WalkVal(f: Field, v: Val, t: Bytes)
    requires !f.ltype.Extension?
    ensures Walk(EncodeVal(f, v) + t) == Then(Headers(f, v), Walk(t))
  {
    if f.htype.Repeated? && f.ltype.Packable() && v.items != [] {
      var body := EncodeItems(f, v.items);
      BlockTaken(body, t);
      WalkRecord(f.tag, 2, Block(body), t);
      assert EncodeVal(f, v) + t == TagBytes(2, f.tag) + (Block(body) + t);
    } else {
      WalkRecords(f, LiveItems(f, v), t);
    }
  }

  lemma {:induction false} WalkFrom(fields: seq<Field>, vals: seq<Val>, i: nat)
    requires |vals| == |fields| && i <= |fields|
    requires forall k :: 0 <= k < |fields| ==> !fields[k].ltype.Extension?
    ensures Walk(EncodeFrom(fields, vals, i)) == Some(AllHeaders(fields, vals, i))
    decreases |fields| - i
  {
    if i < |fields| {
      WalkFrom(fields, vals, i + 1);
      WalkVal(fields[i], vals[i], EncodeFrom(fields, vals, i + 1));
    }
  }

  /**
   Every encoded message, of any size, is a sequence of records that end where their wire type
   numbers say: 0 for integers, 1 and 5 for the words of eight and four bytes, 2 for everything with
   a length, packed arrays included. The tags are those of the live fields, in descriptor order.
   */
  lemma EncodingWalks(fields: seq<Field>, vals: seq<Val>)
    requires |vals| == |fields| && WellFormed(fields)
    ensures Walk(EncodeMessage(fields, vals)) == Some(AllHeaders(fields, vals, 0))
  {
    forall k | 0 <= k < |fields|
      ensures !fields[k].ltype.Extension?
    {
      assert WellFormedField(fields[k]);
    }
    WalkFrom(fields, vals, 0);
  }

  // ---------------------------------------------------------------- skipping

  /** Where a skipped record ends, by wire type number: as for any other reader, except for lengths. */
  lemma SkipsByNumber(number: nat, s: Bytes)
    ensures number != 2 ==> SkipField(number, s) == Payload(number, s)
    ensures SkipField(2, s).Success? <==>
            exists n: nat :: n <= 5 && TerminatesAt(s, n) && n + DigitSum(s[..n]) % 0x1_0000_0000 <= |s|
    ensures forall n: nat :: n <= 5 && TerminatesAt(s, n) && n + DigitSum(s[..n]) % 0x1_0000_0000 <= |s| ==>
                          SkipField(2, s) == Success((), s[n + DigitSum(s[..n]) % 0x1_0000_0000..])
  {
    Varint32Exact(s);
  }
}
