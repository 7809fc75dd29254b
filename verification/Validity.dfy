/**
 Which message contents a C struct can hold, which of them survive the wire, and what the
 decoder turns them into.
 */
module Validity {
  import opened Wire
  import opened Descriptor
  import opened Message
  import opened Encoding

  // ---------------------------------------------------------------- valid contents

  predicate ItemValid(f: Field, item: Item)
    decreases f, 0
  {
    match f.ltype
    case Varint | UVarint | SVarint | Fixed32 | Fixed64 => item.Num? && InRange(f.ltype, f.dataSize, item.n)
    case BytesArray => item.Blob? && |item.b| + BYTES_HEADER <= f.dataSize
    case CString => item.Blob? && |item.b| <= f.dataSize && forall k :: 0 <= k < |item.b| ==> item.b[k] != 0
    case FixedLengthBytes => item.Blob? && |item.b| == f.dataSize
    case Submessage => item.Msg? && MessageValid(f.sub, item.vals)
    case Extension => false
  }

  predicate ValValid(f: Field, v: Val)
    decreases f, 1
  {
    && (v.present ==> forall k :: 0 <= k < |v.items| ==> ItemValid(f, v.items[k]))
    && match f.htype
       case Repeated => v.present && |v.items| <= f.arraySize
       case Oneof => |v.items| == if v.present then 1 else 0
       case Optional => |v.items| == 1 && (f.Singular() ==> v.present)
       case Required => |v.items| == 1 && v.present
  }

  predicate MessageValid(fields: seq<Field>, vals: seq<Val>)
    decreases fields, 2
  {
    && |vals| == |fields|
    && (forall i :: 0 <= i < |fields| ==> ValValid(fields[i], vals[i]))
    && OneSelected(fields, vals, |fields|)
  }

  /** Among the first `n` fields, at most one member of a union is selected. */
  predicate OneSelected(fields: seq<Field>, vals: seq<Val>, n: nat)
    requires |vals| == |fields| && n <= |fields|
  {
    n > 0 ==>
      && OneSelected(fields, vals, n - 1)
      && (vals[n - 1].present ==>
            forall i {:trigger vals[i]} ::
              0 <= i < n - 1 && Home(fields, i) == Home(fields, n - 1) ==> !vals[i].present)
  }

  lemma {:induction false} NotBothSelected(fields: seq<Field>, vals: seq<Val>, n: nat, i: nat, j: nat)
    requires |vals| == |fields| && n <= |fields| && OneSelected(fields, vals, n)
    requires i < n && j < n && i != j && Home(fields, i) == Home(fields, j)
    ensures !vals[i].present || !vals[j].present
  {
    if i < n - 1 && j < n - 1 {
      NotBothSelected(fields, vals, n - 1, i, j);
    }
  }

  /** The same, pair by pair. */
  predicate Exclusive(fields: seq<Field>, vals: seq<Val>)
    requires |vals| == |fields|
  {
    forall i, j {:trigger vals[i], vals[j]} :: 0 <= i < j < |fields| && Home(fields, i) == Home(fields, j) ==>
      !vals[i].present || !vals[j].present
  }

  lemma {:induction false} AtMostOne(fields: seq<Field>, vals: seq<Val>, n: nat)
    requires |vals| == |fields| && n <= |fields| && Exclusive(fields, vals)
    ensures OneSelected(fields, vals, n)
  {
    if n > 0 {
      AtMostOne(fields, vals, n - 1);
    }
  }

  // ---------------------------------------------------------------- contents that survive

  /** Every live string has its NUL inside the char array. */
  predicate ItemTerminated(f: Field, item: Item)
    decreases f, 0
  {
    && (f.ltype.CString? ==> |BlobOf(item)| < f.dataSize)
    && (f.ltype.Submessage? ==> Terminated(f.sub, SubVals(f, item)))
  }

  predicate ValTerminated(f: Field, v: Val)
    decreases f, 1
  {
    forall k :: 0 <= k < |LiveItems(f, v)| ==> ItemTerminated(f, LiveItems(f, v)[k])
  }

  predicate Terminated(fields: seq<Field>, vals: seq<Val>)
    requires |vals| == |fields|
    decreases fields, 2
  {
    forall i :: 0 <= i < |fields| ==> ValTerminated(fields[i], vals[i])
  }

  /** Every length prefix fits the 32 bits that the decoder reads. */
  predicate ItemFits(f: Field, item: Item)
    decreases f, 0
  {
    f.ltype.Submessage? ==>
      |EncodeMessage(f.sub, SubVals(f, item))| < TWO_32 && LengthsFit(f.sub, SubVals(f, item))
  }

  predicate ValFits(f: Field, v: Val)
    decreases f, 1
  {
    && (f.htype.Repeated? && f.ltype.Packable() ==> |EncodeItems(f, v.items)| < TWO_32)
    && forall k :: 0 <= k < |LiveItems(f, v)| ==> ItemFits(f, LiveItems(f, v)[k])
  }

  predicate LengthsFit(fields: seq<Field>, vals: seq<Val>)
    requires |vals| == |fields|
    decreases fields, 2
  {
    forall i :: 0 <= i < |fields| ==> ValFits(fields[i], vals[i])
  }

  // ---------------------------------------------------------------- length prefixes

  lemma {:induction false} FieldWithin(fields: seq<Field>, vals: seq<Val>, i: nat, k: nat)
    requires |vals| == |fields| && i <= k < |fields|
    ensures |EncodeVal(fields[k], vals[k])| <= |EncodeFrom(fields, vals, i)|
    decreases k - i
  {
    if i < k {
      FieldWithin(fields, vals, i + 1, k);
    }
  }

  lemma {:induction false} ItemWithin(f: Field, items: seq<Item>, k: nat)
    requires k < |items|
    ensures |EncodeItem(f, items[k])| <= |EncodeRecords(f, items)|
    decreases k
  {
    if k > 0 {
      ItemWithin(f, items[1..], k - 1);
    }
  }

  lemma {:induction false} SmallValFits(f: Field, v: Val)
    requires |EncodeVal(f, v)| < TWO_32
    ensures ValFits(f, v)
    decreases f, 0
  {
    if !(f.htype.Repeated? && f.ltype.Packable()) {
      forall k | 0 <= k < |LiveItems(f, v)|
        ensures ItemFits(f, LiveItems(f, v)[k])
      {
        ItemWithin(f, LiveItems(f, v), k);
        if f.ltype.Submessage? {
          SmallMessageFits(f.sub, SubVals(f, LiveItems(f, v)[k]));
        }
      }
    }
  }

  /** A message below 4 GiB has only length prefixes that the decoder can read. */
  lemma {:induction false} SmallMessageFits(fields: seq<Field>, vals: seq<Val>)
    requires |vals| == |fields| && |EncodeMessage(fields, vals)| < TWO_32
    ensures LengthsFit(fields, vals)
    decreases fields, 1
  {
    forall i | 0 <= i < |fields|
      ensures ValFits(fields[i], vals[i])
    {
      FieldWithin(fields, vals, 0, i);
      SmallValFits(fields[i], vals[i]);
    }
  }

  // ---------------------------------------------------------------- decoded contents

  /** An item with the defaults in place of everything that is not written. */
  function FillItem(f: Field, item: Item): Item
    decreases f, 0
  {
    if f.ltype.Submessage? then Msg(Fill(f.sub, SubVals(f, item))) else item
  }

  function FillItems(f: Field, items: seq<Item>): (r: seq<Item>)
    ensures |r| == |items|
    decreases f, 1
  {
    seq(|items|, k requires 0 <= k < |items| => FillItem(f, items[k]))
  }

  function FillVal(f: Field, v: Val): Val
    decreases f, 2
  {
    if f.htype.Optional? && !v.present then Val(false, [DefaultItem(f)])
    else Val(v.present, FillItems(f, v.items))
  }

  /** The content with absent optional fields, at any depth, at their defaults. */
  function Fill(fields: seq<Field>, vals: seq<Val>): (r: seq<Val>)
    requires |vals| == |fields|
    ensures |r| == |fields|
    decreases fields, 3
  {
    seq(|fields|, i requires 0 <= i < |fields| => FillVal(fields[i], vals[i]))
  }
}
