/**
 Reading with an older schema: the bytes of a message decode under a descriptor that lacks some
 of its fields, at any depth, to the projection of the message.
 */
module Projection {
  import opened Wire
  import opened Descriptor
  import opened Integers
  import opened Message
  import opened Encoding
  import opened Decoding
  import opened Validity
  import opened RoundTrip

  /** The index of the field that `g` is in the wide descriptor. */
  function OriginOf(wide: seq<Field>, g: Field): (i: nat)
    ensures i < |wide| ==> wide[i].tag == g.tag
  {
    match FieldWithTag(wide, g.tag)
    case None => |wide|
    case Some(i) => i
  }

  function Origins(wide: seq<Field>, narrow: seq<Field>): (origin: seq<nat>)
    ensures |origin| == |narrow|
  {
    seq(|narrow|, j requires 0 <= j < |narrow| => OriginOf(wide, narrow[j]))
  }

  /** `g` is `f` as the older schema knows it; layout and default value may differ. */
  predicate Follows(f: Field, g: Field)
    decreases g, 0
  {
    && g.ltype == f.ltype && g.htype == f.htype && g.arraySize == f.arraySize && g.Singular() == f.Singular()
    && if g.ltype.Submessage? then Narrows(f.sub, g.sub) else g.dataSize == f.dataSize
  }

  /**
   `narrow` keeps some fields of `wide`, in order and with the same tags. Members of one union in
   `narrow` come from one union in `wide`.
   */
  predicate Narrows(wide: seq<Field>, narrow: seq<Field>)
    decreases narrow, 1
  {
    var origin := Origins(wide, narrow);
    && Increasing(origin)
    && (forall j :: 0 <= j < |narrow| ==> origin[j] < |wide| && Follows(wide[origin[j]], narrow[j]))
    && UnionsKept(wide, narrow, origin)
  }

  predicate UnionsKept(wide: seq<Field>, narrow: seq<Field>, origin: seq<nat>)
    requires |origin| == |narrow|
  {
    forall j, k {:trigger origin[j], origin[k]} ::
      0 <= j < k < |narrow| && origin[j] < |wide| && origin[k] < |wide| && Home(narrow, j) == Home(narrow, k) ==>
        Home(wide, origin[j]) == Home(wide, origin[k])
  }

  predicate Increasing(origin: seq<nat>) {
    |origin| >= 2 ==> origin[0] < origin[1] && Increasing(origin[1..])
  }

  lemma {:induction false} IncreasingAt(origin: seq<nat>, j: nat, k: nat)
    requires Increasing(origin) && j < k < |origin|
    ensures origin[j] < origin[k]
    decreases k
  {
    if j > 0 {
      IncreasingAt(origin[1..], j - 1, k - 1);
    } else if k > 1 {
      IncreasingAt(origin[1..], 0, k - 1);
    }
  }

  /** The first `j` kept fields are among the first `i` fields, and no others. */
  predicate Split(origin: seq<nat>, i: nat, j: nat) {
    && j <= |origin|
    && (forall k :: 0 <= k < j ==> origin[k] < i)
    && (j < |origin| ==> origin[j] >= i)
    && (forall k :: j < k < |origin| ==> origin[k] >= i)
  }

  /** Field `i` is the kept field `j`, or it is not kept. */
  lemma NextSplit(origin: seq<nat>, i: nat, j: nat)
    requires Increasing(origin) && Split(origin, i, j)
    ensures if j < |origin| && origin[j] == i then Split(origin, i + 1, j + 1)
            else i !in origin && Split(origin, i + 1, j)
  {
    forall k | j < k < |origin|
      ensures origin[k] > origin[j]
    {
      IncreasingAt(origin, j, k);
    }
  }

  // ---------------------------------------------------------------- the projection

  function ProjectItem(f: Field, g: Field, item: Item): Item
    decreases g, 0
  {
    if g.ltype.Submessage? then Msg(Project(f.sub, g.sub, SubVals(f, item))) else item
  }

  function ProjectItems(f: Field, g: Field, items: seq<Item>): (r: seq<Item>)
    ensures |r| == |items|
    decreases g, 1
  {
    seq(|items|, k requires 0 <= k < |items| => ProjectItem(f, g, items[k]))
  }

  function ProjectVal(f: Field, g: Field, v: Val): Val
    decreases g, 2
  {
    Val(v.present, ProjectItems(f, g, v.items))
  }

  /** The content without the fields that `narrow` lacks. */
  function Project(wide: seq<Field>, narrow: seq<Field>, vals: seq<Val>): (r: seq<Val>)
    requires |vals| == |wide|
    ensures |r| == |narrow|
    decreases narrow, 3
  {
    seq(|narrow|, j requires 0 <= j < |narrow| =>
      var i := OriginOf(wide, narrow[j]);
      if i < |wide| then ProjectVal(wide[i], narrow[j], vals[i]) else DefaultVal(narrow[j]))
  }

  lemma KeptField(wide: seq<Field>, narrow: seq<Field>, vals: seq<Val>, j: nat)
    requires Narrows(wide, narrow) && |vals| == |wide| && j < |narrow|
    ensures var i := OriginOf(wide, narrow[j]);
            && i < |wide| && Origins(wide, narrow)[j] == i
            && Follows(wide[i], narrow[j]) && wide[i].tag == narrow[j].tag
            && Project(wide, narrow, vals)[j] == ProjectVal(wide[i], narrow[j], vals[i])
  {}

  // ---------------------------------------------------------------- validity

  lemma {:induction false} ItemStaysValid(f: Field, g: Field, item: Item)
    requires Follows(f, g) && ItemValid(f, item)
    ensures ItemValid(g, ProjectItem(f, g, item))
    decreases g, 0
  {
    if g.ltype.Submessage? {
      ProjectionIsValid(f.sub, g.sub, item.vals);
    }
  }

  lemma {:induction false} ValStaysValid(f: Field, g: Field, v: Val)
    requires Follows(f, g) && ValValid(f, v)
    ensures ValValid(g, ProjectVal(f, g, v))
    decreases g, 1
  {
    forall k | 0 <= k < |v.items| && v.present
      ensures ItemValid(g, ProjectItem(f, g, v.items[k]))
    {
      ItemStaysValid(f, g, v.items[k]);
    }
  }

  lemma ProjectionIsExclusive(wide: seq<Field>, narrow: seq<Field>, vals: seq<Val>)
    requires Narrows(wide, narrow) && MessageValid(wide, vals)
    ensures Exclusive(narrow, Project(wide, narrow, vals))
  {
    var origin, kept := Origins(wide, narrow), Project(wide, narrow, vals);
    forall j, k | 0 <= j < k < |narrow| && Home(narrow, j) == Home(narrow, k)
      ensures !kept[j].present || !kept[k].present
    {
      KeptField(wide, narrow, vals, j);
      KeptField(wide, narrow, vals, k);
      IncreasingAt(origin, j, k);
      NotBothSelected(wide, vals, |wide|, origin[j], origin[k]);
    }
  }

  /** The projection of a valid content is valid. */
  lemma {:induction false} ProjectionIsValid(wide: seq<Field>, narrow: seq<Field>, vals: seq<Val>)
    requires Narrows(wide, narrow) && MessageValid(wide, vals)
    ensures MessageValid(narrow, Project(wide, narrow, vals))
    decreases narrow, 2
  {
    forall j | 0 <= j < |narrow|
      ensures ValValid(narrow[j], Project(wide, narrow, vals)[j])
    {
      KeptField(wide, narrow, vals, j);
      var i := OriginOf(wide, narrow[j]);
      ValStaysValid(wide[i], narrow[j], vals[i]);
    }
    ProjectionIsExclusive(wide, narrow, vals);
    AtMostOne(narrow, Project(wide, narrow, vals), |narrow|);
  }

  // ---------------------------------------------------------------- sizes

  lemma {:induction false} VarintGrows(a: nat, b: nat)
    requires a <= b
    ensures |VarintBytes(a)| <= |VarintBytes(b)|
  {
    if a >= 128 {
      VarintGrows(a / 128, b / 128);
    }
  }

  lemma {:induction false} ItemShrinks(f: Field, g: Field, item: Item)
    requires WellFormedField(g) && Follows(f, g) && ItemValid(f, item)
    ensures |EncodeItem(g, ProjectItem(f, g, item))| <= |EncodeItem(f, item)|
    decreases g, 0, 0
  {
    if g.ltype.Submessage? {
      MessageShrinks(f.sub, g.sub, item.vals);
      VarintGrows(|EncodeMessage(g.sub, Project(f.sub, g.sub, item.vals))|, |EncodeMessage(f.sub, item.vals)|);
    }
  }

  lemma {:induction false} RecordsShrink(f: Field, g: Field, items: seq<Item>)
    requires WellFormedField(g) && Follows(f, g) && f.tag == g.tag
    requires forall k :: 0 <= k < |items| ==> ItemValid(f, items[k])
    ensures |EncodeRecords(g, ProjectItems(f, g, items))| <= |EncodeRecords(f, items)|
    decreases g, 1, |items|
  {
    if items != [] {
      ItemShrinks(f, g, items[0]);
      RecordsShrink(f, g, items[1..]);
      assert ProjectItems(f, g, items)[1..] == ProjectItems(f, g, items[1..]);
    }
  }

  lemma {:induction false} PackedItemsKept(f: Field, g: Field, items: seq<Item>)
    requires Follows(f, g) && g.ltype.Packable()
    ensures EncodeItems(g, items) == EncodeItems(f, items)
    decreases |items|
  {
    if items != [] {
      PackedItemsKept(f, g, items[1..]);
    }
  }

  /** What is written of a projected field, in terms of what is written of the field. */
  lemma LiveItemsKept(f: Field, g: Field, v: Val)
    requires WellFormedField(g) && Follows(f, g) && f.tag == g.tag && ValValid(f, v)
    ensures LiveItems(g, ProjectVal(f, g, v)) == ProjectItems(f, g, LiveItems(f, v))
    ensures g.htype.Repeated? && g.ltype.Packable() ==>
              EncodeVal(g, ProjectVal(f, g, v)) == EncodeVal(f, v) && ProjectItems(f, g, v.items) == v.items
  {
    assert g.ltype.Submessage? || ProjectItems(f, g, v.items) == v.items;
    if g.htype.Repeated? && g.ltype.Packable() {
      PackedItemsKept(f, g, v.items);
      assert LiveItems(g, ProjectVal(f, g, v)) == LiveItems(f, v) == v.items;
    } else if !g.htype.Repeated? && |v.items| == 1 {
      assert v.items == [FirstItem(f, v)];
      assert ProjectItems(f, g, v.items) == [ProjectItem(f, g, FirstItem(f, v))];
    }
  }

  lemma {:induction false} ValShrinks(f: Field, g: Field, v: Val)
    requires WellFormedField(g) && Follows(f, g) && f.tag == g.tag && ValValid(f, v)
    ensures |EncodeVal(g, ProjectVal(f, g, v))| <= |EncodeVal(f, v)|
    decreases g, 2
  {
    LiveItemsKept(f, g, v);
    if !(g.htype.Repeated? && g.ltype.Packable()) {
      RecordsShrink(f, g, LiveItems(f, v));
    }
  }

  lemma FieldShrinks(wide: seq<Field>, narrow: seq<Field>, vals: seq<Val>, j: nat)
    requires WellFormed(narrow) && Narrows(wide, narrow) && MessageValid(wide, vals) && j < |narrow|
    ensures var i := Origins(wide, narrow)[j];
            i < |wide| && |EncodeVal(narrow[j], Project(wide, narrow, vals)[j])| <= |EncodeVal(wide[i], vals[i])|
    decreases narrow, 3, 0
  {
    KeptField(wide, narrow, vals, j);
    var i := OriginOf(wide, narrow[j]);
    assert WellFormedField(narrow[j]) && ValValid(wide[i], vals[i]);
    ValShrinks(wide[i], narrow[j], vals[i]);
  }

  /** From field `i` of the wide message on, there are no fewer bytes than from the kept field `j` on. */
  lemma {:induction false} FieldsShrink(wide: seq<Field>, vals: seq<Val>, narrow: seq<Field>, kept: seq<Val>,
                                        origin: seq<nat>, i: nat, j: nat)
    requires |vals| == |wide| && |kept| == |narrow| == |origin| && i <= |wide|
    requires Increasing(origin) && Split(origin, i, j) && forall k :: 0 <= k < |origin| ==> origin[k] < |wide|
    requires forall k {:trigger kept[k]} ::
               0 <= k < |narrow| ==> |EncodeVal(narrow[k], kept[k])| <= |EncodeVal(wide[origin[k]], vals[origin[k]])|
    ensures |EncodeFrom(narrow, kept, j)| <= |EncodeFrom(wide, vals, i)|
    decreases |wide| - i
  {
    if i < |wide| {
      NextSplit(origin, i, j);
      if j < |origin| && origin[j] == i {
        assert |EncodeVal(narrow[j], kept[j])| <= |EncodeVal(wide[i], vals[i])|;
        FieldsShrink(wide, vals, narrow, kept, origin, i + 1, j + 1);
      } else {
        FieldsShrink(wide, vals, narrow, kept, origin, i + 1, j);
      }
    }
  }

  /** The projection is not longer on the wire. */
  lemma {:induction false} MessageShrinks(wide: seq<Field>, narrow: seq<Field>, vals: seq<Val>)
    requires WellFormed(narrow) && Narrows(wide, narrow) && MessageValid(wide, vals)
    ensures |EncodeMessage(narrow, Project(wide, narrow, vals))| <= |EncodeMessage(wide, vals)|
    decreases narrow, 4
  {
    var origin, kept := Origins(wide, narrow), Project(wide, narrow, vals);
    forall k | 0 <= k < |narrow|
      ensures |EncodeVal(narrow[k], kept[k])| <= |EncodeVal(wide[origin[k]], vals[origin[k]])|
    {
      FieldShrinks(wide, narrow, vals, k);
    }
    FieldsShrink(wide, vals, narrow, kept, origin, 0, 0);
  }

  lemma {:induction false} ItemStaysFit(f: Field, g: Field, item: Item)
    requires WellFormedField(g) && Follows(f, g) && ItemValid(f, item) && ItemFits(f, item)
    ensures ItemFits(g, ProjectItem(f, g, item))
    decreases g, 0
  {
    if g.ltype.Submessage? {
      MessageShrinks(f.sub, g.sub, item.vals);
      ProjectionFits(f.sub, g.sub, item.vals);
    }
  }

  lemma {:induction false} ValStaysFit(f: Field, g: Field, v: Val)
    requires WellFormedField(g) && Follows(f, g) && f.tag == g.tag && ValValid(f, v) && ValFits(f, v)
    ensures ValFits(g, ProjectVal(f, g, v))
    decreases g, 1
  {
    LiveItemsKept(f, g, v);
    if g.htype.Repeated? && g.ltype.Packable() {
      PackedItemsKept(f, g, v.items);
    }
    forall k | 0 <= k < |LiveItems(f, v)|
      ensures ItemFits(g, ProjectItem(f, g, LiveItems(f, v)[k]))
    {
      assert ItemValid(f, LiveItems(f, v)[k]);
      ItemStaysFit(f, g, LiveItems(f, v)[k]);
    }
  }

  lemma {:induction false} ProjectionFits(wide: seq<Field>, narrow: seq<Field>, vals: seq<Val>)
    requires WellFormed(narrow) && Narrows(wide, narrow) && MessageValid(wide, vals) && LengthsFit(wide, vals)
    ensures LengthsFit(narrow, Project(wide, narrow, vals))
    decreases narrow, 2
  {
    forall j | 0 <= j < |narrow|
      ensures ValFits(narrow[j], Project(wide, narrow, vals)[j])
    {
      KeptField(wide, narrow, vals, j);
      var i := OriginOf(wide, narrow[j]);
      ValStaysFit(wide[i], narrow[j], vals[i]);
    }
  }

  // ---------------------------------------------------------------- dropped fields

  lemma SkippedItem(f: Field, item: Item, t: Bytes)
    requires WellFormedField(f) && ItemValid(f, item) && ItemFits(f, item)
    ensures SkipField(f.ltype.WireType(), EncodeItem(f, item) + t) == Success((), t)
  {
    match f.ltype
    case Varint | UVarint | SVarint => VarintRoundTrip(ToWire(f.ltype, item.n), t);
    case Fixed32 | Fixed64 =>
    case BytesArray | CString | FixedLengthBytes => BlockRoundTrip(item.b, t);
    case Submessage => BlockRoundTrip(EncodeMessage(f.sub, item.vals), t);
  }

  lemma SkippedRecord(narrow: seq<Field>, tag: nat, wireType: nat, body: Bytes, t: Bytes, cur: seq<Val>, seen: set<nat>)
    requires |cur| == |narrow| && FieldWithTag(narrow, tag).None? && 1 <= tag < TWO_32 / 8 && wireType < 8
    requires SkipField(wireType, body + t) == Success((), t)
    ensures ParseRecords(narrow, TagBytes(wireType, tag) + (body + t), cur, seen) == ParseRecords(narrow, t, cur, seen)
  {
    TagRoundTrip(wireType, tag, body + t);
    assert seen + {} == seen;
  }

  lemma {:induction false} SkippedRecords(narrow: seq<Field>, f: Field, items: seq<Item>, t: Bytes,
                                          cur: seq<Val>, seen: set<nat>)
    requires |cur| == |narrow| && FieldWithTag(narrow, f.tag).None? && WellFormedField(f)
    requires forall k :: 0 <= k < |items| ==> ItemValid(f, items[k]) && ItemFits(f, items[k])
    ensures ParseRecords(narrow, EncodeRecords(f, items) + t, cur, seen) == ParseRecords(narrow, t, cur, seen)
    decreases |items|
  {
    if items == [] {
      assert EncodeRecords(f, items) + t == t;
    } else {
      var rest := EncodeRecords(f, items[1..]) + t;
      assert EncodeRecords(f, items) + t == TagBytes(f.ltype.WireType(), f.tag) + (EncodeItem(f, items[0]) + rest);
      SkippedItem(f, items[0], rest);
      SkippedRecord(narrow, f.tag, f.ltype.WireType(), EncodeItem(f, items[0]), rest, cur, seen);
      SkippedRecords(narrow, f, items[1..], t, cur, seen);
    }
  }

  lemma SkippedBlock(narrow: seq<Field>, tag: nat, body: Bytes, t: Bytes, cur: seq<Val>, seen: set<nat>)
    requires |cur| == |narrow| && FieldWithTag(narrow, tag).None? && 1 <= tag < TWO_32 / 8 && |body| < TWO_32
    ensures ParseRecords(narrow, TagBytes(WT_STRING, tag) + (Block(body) + t), cur, seen) ==
            ParseRecords(narrow, t, cur, seen)
  {
    BlockRoundTrip(body, t);
    SkippedRecord(narrow, tag, WT_STRING, Block(body), t, cur, seen);
  }

  lemma SkippedVal(narrow: seq<Field>, f: Field, v: Val, t: Bytes, cur: seq<Val>, seen: set<nat>)
    requires |cur| == |narrow| && FieldWithTag(narrow, f.tag).None? && WellFormedField(f)
    requires ValValid(f, v) && ValFits(f, v)
    ensures ParseRecords(narrow, EncodeVal(f, v) + t, cur, seen) == ParseRecords(narrow, t, cur, seen)
  {
    if f.htype.Repeated? && f.ltype.Packable() && v.items != [] {
      assert EncodeVal(f, v) + t == TagBytes(WT_STRING, f.tag) + (Block(EncodeItems(f, v.items)) + t);
      SkippedBlock(narrow, f.tag, EncodeItems(f, v.items), t, cur, seen);
    } else {
      assert forall k :: 0 <= k < |LiveItems(f, v)| ==> ItemFits(f, LiveItems(f, v)[k]);
      SkippedRecords(narrow, f, LiveItems(f, v), t, cur, seen);
    }
  }

  // ---------------------------------------------------------------- decoding kept fields

  predicate Projecting(wide: seq<Field>, vals: seq<Val>, narrow: seq<Field>) {
    && WellFormed(wide) && WellFormed(narrow) && Narrows(wide, narrow)
    && MessageValid(wide, vals) && LengthsFit(wide, vals)
  }

  lemma ProjectionIsTransmissible(wide: seq<Field>, vals: seq<Val>, narrow: seq<Field>)
    requires Projecting(wide, vals, narrow)
    ensures MessageValid(narrow, Project(wide, narrow, vals)) && LengthsFit(narrow, Project(wide, narrow, vals))
  {
    ProjectionIsValid(wide, narrow, vals);
    ProjectionFits(wide, narrow, vals);
  }

  /** An item of the wide field decodes under the narrow one to its projection. */
  lemma {:induction false} NarrowItem(f: Field, g: Field, item: Item, t: Bytes, base: seq<Val>)
    requires WellFormedField(f) && WellFormedField(g) && Follows(f, g) && ItemValid(f, item) && ItemFits(f, item)
    requires |base| == |g.sub| && (g.htype.Repeated? || base == Defaults(g.sub))
    ensures var p := ProjectItem(f, g, item);
            ParseItem(g, EncodeItem(f, item) + t, base) ==
            if ItemTerminated(g, p) then Success(FillItem(g, p), t) else Failure
    decreases g, 0
  {
    if g.ltype.Submessage? {
      BlockRoundTrip(EncodeMessage(f.sub, item.vals), t);
      NarrowDecode(f.sub, item.vals, g.sub);
    } else {
      ItemStaysValid(f, g, item);
      ScalarRoundTrip(g, item, t);
    }
  }

  /** The first record of a wide field, read under the narrow one. */
  lemma {:induction false} NarrowFirst(narrow: seq<Field>, j: nat, f: Field, items: seq<Item>, t: Bytes,
                                       cur: seq<Val>, seen: set<nat>)
    requires WellFormed(narrow) && j < |narrow| && |cur| == |narrow| && items != []
    requires WellFormedField(f) && Follows(f, narrow[j]) && f.tag == narrow[j].tag
    requires ItemValid(f, items[0]) && ItemFits(f, items[0])
    requires if narrow[j].htype.Repeated? then |cur[j].items| < narrow[j].arraySize
             else Base(narrow[j], cur[j]) == Defaults(narrow[j].sub)
    ensures var g := narrow[j];
            var p := ProjectItem(f, g, items[0]);
            ParseRecords(narrow, EncodeRecords(f, items) + t, cur, seen) ==
            if ItemTerminated(g, p)
            then ParseRecords(narrow, EncodeRecords(f, items[1..]) + t,
                              Put(narrow, cur, j, Stored(g, cur[j], FillItem(g, p))), seen + {j})
            else Stuck
    decreases narrow, 0
  {
    var g, rest := narrow[j], EncodeRecords(f, items[1..]) + t;
    FirstOfRecords(f, items, t);
    NarrowItem(f, g, items[0], rest, Defaults(g.sub));
    RecordStores(narrow, j, EncodeItem(f, items[0]), ProjectItem(f, g, items[0]), rest, cur, seen);
  }

  /** The first record of the projected field. */
  lemma ProjectedFirst(narrow: seq<Field>, j: nat, f: Field, items: seq<Item>, t: Bytes, cur: seq<Val>, seen: set<nat>)
    requires WellFormed(narrow) && j < |narrow| && |cur| == |narrow| && items != []
    requires Follows(f, narrow[j]) && ItemValid(f, items[0]) && ItemFits(f, items[0])
    requires if narrow[j].htype.Repeated? then |cur[j].items| < narrow[j].arraySize
             else Base(narrow[j], cur[j]) == Defaults(narrow[j].sub)
    ensures var g := narrow[j];
            var p := ProjectItem(f, g, items[0]);
            ParseRecords(narrow, EncodeRecords(g, ProjectItems(f, g, items)) + t, cur, seen) ==
            if ItemTerminated(g, p)
            then ParseRecords(narrow, EncodeRecords(g, ProjectItems(f, g, items[1..])) + t,
                              Put(narrow, cur, j, Stored(g, cur[j], FillItem(g, p))), seen + {j})
            else Stuck
  {
    var g, kept := narrow[j], ProjectItems(f, narrow[j], items);
    ItemStaysValid(f, g, items[0]);
    ItemStaysFit(f, g, items[0]);
    FirstItemRoundTrip(narrow, j, kept, t, cur, seen);
    assert kept[1..] == ProjectItems(f, g, items[1..]);
  }

  /** The records of a wide field decode under the narrow one like those of its projection. */
  lemma {:induction false} NarrowFieldRecords(narrow: seq<Field>, j: nat, f: Field, items: seq<Item>, t: Bytes,
                                              cur: seq<Val>, seen: set<nat>)
    requires WellFormed(narrow) && j < |narrow| && |cur| == |narrow|
    requires WellFormedField(f) && Follows(f, narrow[j]) && f.tag == narrow[j].tag
    requires forall k :: 0 <= k < |items| ==> ItemValid(f, items[k]) && ItemFits(f, items[k])
    requires if narrow[j].htype.Repeated? then |cur[j].items| + |items| <= narrow[j].arraySize
             else |items| <= 1 && Base(narrow[j], cur[j]) == Defaults(narrow[j].sub)
    ensures ParseRecords(narrow, EncodeRecords(f, items) + t, cur, seen) ==
            ParseRecords(narrow, EncodeRecords(narrow[j], ProjectItems(f, narrow[j], items)) + t, cur, seen)
    decreases narrow, 1, |items|
  {
    var g := narrow[j];
    if items != [] {
      NarrowFirst(narrow, j, f, items, t, cur, seen);
      ProjectedFirst(narrow, j, f, items, t, cur, seen);
      if g.htype.Repeated? {
        var next := Put(narrow, cur, j, Stored(g, cur[j], FillItem(g, ProjectItem(f, g, items[0]))));
        NarrowFieldRecords(narrow, j, f, items[1..], t, next, seen + {j});
      } else {
        assert items[1..] == [];
      }
    }
  }

  /** The same for all that is written of a field. */
  lemma {:induction false} NarrowField(narrow: seq<Field>, j: nat, f: Field, v: Val, t: Bytes,
                                       cur: seq<Val>, seen: set<nat>)
    requires WellFormed(narrow) && j < |narrow| && |cur| == |narrow| && cur[j] == DefaultVal(narrow[j])
    requires WellFormedField(f) && Follows(f, narrow[j]) && f.tag == narrow[j].tag && ValValid(f, v) && ValFits(f, v)
    ensures ParseRecords(narrow, EncodeVal(f, v) + t, cur, seen) ==
            ParseRecords(narrow, EncodeVal(narrow[j], ProjectVal(f, narrow[j], v)) + t, cur, seen)
    decreases narrow, 2
  {
    var g := narrow[j];
    LiveItemsKept(f, g, v);
    if !(g.htype.Repeated? && g.ltype.Packable()) {
      if !g.htype.Repeated? {
        FreshBase(g);
      }
      assert forall k :: 0 <= k < |LiveItems(f, v)| ==> ItemFits(f, LiveItems(f, v)[k]);
      NarrowFieldRecords(narrow, j, f, LiveItems(f, v), t, cur, seen);
    }
  }

  // ---------------------------------------------------------------- decoding the message

  /** From field `i` of the wide message on, its bytes decode like those of the kept fields from `j` on. */
  predicate SameRun(wide: seq<Field>, vals: seq<Val>, narrow: seq<Field>, kept: seq<Val>, i: nat, j: nat,
                    seen: set<nat>)
    requires |vals| == |wide| && |kept| == |narrow| && i <= |wide| && j <= |narrow|
  {
    ParseRecords(narrow, EncodeFrom(wide, vals, i), Halfway(narrow, kept, j), seen) ==
    ParseRecords(narrow, EncodeFrom(narrow, kept, j), Halfway(narrow, kept, j), seen)
  }

  function SeenAfter(f: Field, v: Val, j: nat, seen: set<nat>): set<nat> {
    if LiveItems(f, v) == [] then seen else seen + {j}
  }

  lemma DroppedTag(wide: seq<Field>, narrow: seq<Field>, i: nat)
    requires DistinctTags(wide) && i < |wide| && i !in Origins(wide, narrow)
    ensures FieldWithTag(narrow, wide[i].tag).None?
  {
    TagSelects(wide, i);
    forall k | 0 <= k < |narrow|
      ensures narrow[k].tag != wide[i].tag
    {
      assert Origins(wide, narrow)[k] in Origins(wide, narrow);
    }
  }

  /** A dropped field is skipped. */
  lemma DroppedStep(wide: seq<Field>, vals: seq<Val>, narrow: seq<Field>, i: nat, cur: seq<Val>, seen: set<nat>)
    requires Projecting(wide, vals, narrow) && i < |wide| && i !in Origins(wide, narrow) && |cur| == |narrow|
    ensures ParseRecords(narrow, EncodeFrom(wide, vals, i), cur, seen) ==
            ParseRecords(narrow, EncodeFrom(wide, vals, i + 1), cur, seen)
  {
    DroppedTag(wide, narrow, i);
    assert ValValid(wide[i], vals[i]) && ValFits(wide[i], vals[i]) && WellFormedField(wide[i]);
    SkippedVal(narrow, wide[i], vals[i], EncodeFrom(wide, vals, i + 1), cur, seen);
  }

  /** A kept field takes the narrow struct one field on. */
  lemma {:induction false} KeptFieldDecodes(narrow: seq<Field>, kept: seq<Val>, j: nat, f: Field, v: Val, rest: Bytes,
                                            seen: set<nat>)
    requires WellFormed(narrow) && MessageValid(narrow, kept) && LengthsFit(narrow, kept) && j < |narrow|
    requires WellFormedField(f) && Follows(f, narrow[j]) && f.tag == narrow[j].tag && ValValid(f, v) && ValFits(f, v)
    requires kept[j] == ProjectVal(f, narrow[j], v)
    ensures ParseRecords(narrow, EncodeVal(f, v) + rest, Halfway(narrow, kept, j), seen) ==
            if ValTerminated(narrow[j], kept[j])
            then ParseRecords(narrow, rest, Halfway(narrow, kept, j + 1), SeenAfter(narrow[j], kept[j], j, seen))
            else Stuck
    decreases narrow, 3
  {
    NarrowField(narrow, j, f, v, rest, Halfway(narrow, kept, j), seen);
    FieldRoundTrip(narrow, kept, j, rest, seen);
  }

  /** A kept field is decoded on both sides, or stops both. */
  lemma {:induction false} KeptStep(wide: seq<Field>, vals: seq<Val>, narrow: seq<Field>, kept: seq<Val>,
                                    i: nat, j: nat, seen: set<nat>)
    requires |vals| == |wide| && i < |wide| && WellFormedField(wide[i])
    requires ValValid(wide[i], vals[i]) && ValFits(wide[i], vals[i])
    requires WellFormed(narrow) && MessageValid(narrow, kept) && LengthsFit(narrow, kept) && j < |narrow|
    requires Follows(wide[i], narrow[j]) && wide[i].tag == narrow[j].tag
    requires kept[j] == ProjectVal(wide[i], narrow[j], vals[i])
    requires SameRun(wide, vals, narrow, kept, i + 1, j + 1, SeenAfter(narrow[j], kept[j], j, seen))
    ensures SameRun(wide, vals, narrow, kept, i, j, seen)
    decreases narrow, 4
  {
    KeptFieldDecodes(narrow, kept, j, wide[i], vals[i], EncodeFrom(wide, vals, i + 1), seen);
    FieldRoundTrip(narrow, kept, j, EncodeFrom(narrow, kept, j + 1), seen);
  }

  lemma KeptFacts(wide: seq<Field>, vals: seq<Val>, narrow: seq<Field>, j: nat)
    requires Projecting(wide, vals, narrow) && j < |narrow|
    ensures var i, kept := Origins(wide, narrow)[j], Project(wide, narrow, vals);
            && i < |wide| && WellFormedField(wide[i]) && ValValid(wide[i], vals[i]) && ValFits(wide[i], vals[i])
            && Follows(wide[i], narrow[j]) && wide[i].tag == narrow[j].tag
            && kept[j] == ProjectVal(wide[i], narrow[j], vals[i])
            && WellFormed(narrow) && MessageValid(narrow, kept) && LengthsFit(narrow, kept)
  {
    KeptField(wide, narrow, vals, j);
    ProjectionIsTransmissible(wide, vals, narrow);
  }

  lemma {:induction false} NarrowKept(wide: seq<Field>, vals: seq<Val>, narrow: seq<Field>, i: nat, j: nat,
                                      seen: set<nat>)
    requires Projecting(wide, vals, narrow) && j < |narrow| && i == Origins(wide, narrow)[j]
    ensures i < |wide| && KeptOk(wide, vals, narrow, Project(wide, narrow, vals), i, j, seen)
    decreases narrow, 5
  {
    var kept := Project(wide, narrow, vals);
    KeptFacts(wide, vals, narrow, j);
    if SameRun(wide, vals, narrow, kept, i + 1, j + 1, SeenAfter(narrow[j], kept[j], j, seen)) {
      KeptStep(wide, vals, narrow, kept, i, j, seen);
    }
  }

  lemma NarrowDropped(wide: seq<Field>, vals: seq<Val>, narrow: seq<Field>, i: nat, j: nat, seen: set<nat>)
    requires Projecting(wide, vals, narrow) && j <= |narrow| && i < |wide| && i !in Origins(wide, narrow)
    ensures DroppedOk(wide, vals, narrow, Project(wide, narrow, vals), i, j, seen)
  {
    DroppedStep(wide, vals, narrow, i, Halfway(narrow, Project(wide, narrow, vals), j), seen);
  }

  /** The step over a kept field, and over a dropped one. */
  predicate KeptOk(wide: seq<Field>, vals: seq<Val>, narrow: seq<Field>, kept: seq<Val>, i: nat, j: nat, seen: set<nat>)
    requires |vals| == |wide| && |kept| == |narrow| && i < |wide| && j < |narrow|
  {
    SameRun(wide, vals, narrow, kept, i + 1, j + 1, SeenAfter(narrow[j], kept[j], j, seen)) ==>
      SameRun(wide, vals, narrow, kept, i, j, seen)
  }

  predicate DroppedOk(wide: seq<Field>, vals: seq<Val>, narrow: seq<Field>, kept: seq<Val>, i: nat, j: nat,
                      seen: set<nat>)
    requires |vals| == |wide| && |kept| == |narrow| && i < |wide| && j <= |narrow|
  {
    SameRun(wide, vals, narrow, kept, i + 1, j, seen) ==> SameRun(wide, vals, narrow, kept, i, j, seen)
  }

  ghost predicate StepsOk(wide: seq<Field>, vals: seq<Val>, narrow: seq<Field>, kept: seq<Val>, origin: seq<nat>)
    requires |vals| == |wide| && |kept| == |narrow| == |origin|
  {
    && Increasing(origin)
    && (forall k :: 0 <= k < |origin| ==> origin[k] < |wide|)
    && (forall k: nat, s {:trigger KeptOk(wide, vals, narrow, kept, origin[k], k, s)} ::
          k < |origin| ==> KeptOk(wide, vals, narrow, kept, origin[k], k, s))
    && (forall h: nat, k: nat, s {:trigger DroppedOk(wide, vals, narrow, kept, h, k, s)} ::
          h < |wide| && h !in origin && k <= |narrow| ==> DroppedOk(wide, vals, narrow, kept, h, k, s))
  }

  /** Both steps are sound. */
  lemma {:induction false} NarrowSteps(wide: seq<Field>, vals: seq<Val>, narrow: seq<Field>)
    requires Projecting(wide, vals, narrow)
    ensures StepsOk(wide, vals, narrow, Project(wide, narrow, vals), Origins(wide, narrow))
    decreases narrow, 6
  {
    var origin, kept := Origins(wide, narrow), Project(wide, narrow, vals);
    forall k: nat, s: set<nat> | k < |origin|
      ensures origin[k] < |wide| && KeptOk(wide, vals, narrow, kept, origin[k], k, s)
    {
      NarrowKept(wide, vals, narrow, origin[k], k, s);
    }
    forall h: nat, k: nat, s: set<nat> | h < |wide| && h !in origin && k <= |narrow|
      ensures DroppedOk(wide, vals, narrow, kept, h, k, s)
    {
      NarrowDropped(wide, vals, narrow, h, k, s);
    }
    assert forall k :: 0 <= k < |origin| ==> origin[k] < |wide| && KeptOk(wide, vals, narrow, kept, origin[k], k, {});
  }

  /** The steps make up the run. */
  lemma {:induction false} NarrowRecords(wide: seq<Field>, vals: seq<Val>, narrow: seq<Field>, kept: seq<Val>,
                                         origin: seq<nat>, i: nat, j: nat, seen: set<nat>)
    requires |vals| == |wide| && |kept| == |narrow| == |origin| && StepsOk(wide, vals, narrow, kept, origin)
    requires i <= |wide| && Split(origin, i, j)
    ensures SameRun(wide, vals, narrow, kept, i, j, seen)
    decreases |wide| - i
  {
    if i < |wide| {
      NextSplit(origin, i, j);
      if j < |origin| && origin[j] == i {
        NarrowRecords(wide, vals, narrow, kept, origin, i + 1, j + 1, SeenAfter(narrow[j], kept[j], j, seen));
        assert KeptOk(wide, vals, narrow, kept, origin[j], j, seen);
      } else {
        NarrowRecords(wide, vals, narrow, kept, origin, i + 1, j, seen);
        assert DroppedOk(wide, vals, narrow, kept, i, j, seen);
      }
    } else {
      NothingLeft(wide, vals, narrow, kept, j);
    }
  }

  lemma NothingLeft(wide: seq<Field>, vals: seq<Val>, narrow: seq<Field>, kept: seq<Val>, j: nat)
    requires |vals| == |wide| && |kept| == |narrow| && j == |narrow|
    ensures EncodeFrom(wide, vals, |wide|) == EncodeFrom(narrow, kept, j)
  {}

  lemma {:induction false} RunsAlike(wide: seq<Field>, vals: seq<Val>, narrow: seq<Field>)
    requires Projecting(wide, vals, narrow)
    ensures SameRun(wide, vals, narrow, Project(wide, narrow, vals), 0, 0, {})
    decreases narrow, 7
  {
    NarrowSteps(wide, vals, narrow);
    NarrowRecords(wide, vals, narrow, Project(wide, narrow, vals), Origins(wide, narrow), 0, 0, {});
  }

  lemma SameRunSameMessage(wide: seq<Field>, vals: seq<Val>, narrow: seq<Field>, kept: seq<Val>)
    requires |vals| == |wide| && |kept| == |narrow| && SameRun(wide, vals, narrow, kept, 0, 0, {})
    ensures ParseFresh(narrow, EncodeMessage(wide, vals)) == ParseFresh(narrow, EncodeMessage(narrow, kept))
  {
    assert Halfway(narrow, kept, 0) == Defaults(narrow);
  }

  /**
   The fields a descriptor lacks, at any depth, are transparent at decoding: the bytes of the wide
   message give its projection.
   */
  lemma {:induction false} NarrowDecode(wide: seq<Field>, vals: seq<Val>, narrow: seq<Field>)
    requires WellFormed(wide) && WellFormed(narrow) && Narrows(wide, narrow)
    requires MessageValid(wide, vals) && LengthsFit(wide, vals)
    ensures var kept := Project(wide, narrow, vals);
            ParseFresh(narrow, EncodeMessage(wide, vals)) ==
            if Terminated(narrow, kept) then Success(Fill(narrow, kept), []) else Failure
    decreases narrow, 8
  {
    var kept := Project(wide, narrow, vals);
    ProjectionIsTransmissible(wide, vals, narrow);
    RunsAlike(wide, vals, narrow);
    SameRunSameMessage(wide, vals, narrow, kept);
    MessageRoundTrip(narrow, kept);
  }
}
