/** The encoder and the decoder together, from one struct in memory to another. */
module Exchange {
  import opened Wire
  import opened Descriptor
  import opened Message
  import opened Encoding
  import opened Decoding
  import opened Validity
  import opened Observation
  import opened RoundTrip
  import opened SameStructs
  import opened OutputStream
  import opened InputStream
  import opened Encoder
  import opened Decoder

  lemma {:induction false} ItemOfIsValid(f: Field, c: Cell)
    requires WellFormedField(f) && CellShape(f, c)
    ensures ItemValid(f, ItemOf(f, c))
    decreases f, 0
  {
    if f.ltype.Submessage? {
      ContentsAreValid(f.sub, c.slots);
    }
  }

  lemma {:induction false} ValOfIsValid(f: Field, slot: Slot)
    requires WellFormedField(f) && SlotShape(f, slot)
    ensures ValValid(f, ValOf(f, slot))
    decreases f, 1
  {
    if f.htype.Oneof? ==> slot.size == f.tag {
      forall k | 0 <= k < |slot.cells|
        ensures ItemValid(f, ItemOf(f, slot.cells[k]))
      {
        ItemOfIsValid(f, slot.cells[k]);
      }
    }
  }

  lemma OneTag(f: Field, g: Field, slot: Slot)
    requires f.htype.Oneof? && g.htype.Oneof? && f.tag != g.tag
    ensures !ValOf(f, slot).present || !ValOf(g, slot).present
  {}

  lemma OneOfTwo(fields: seq<Field>, slots: seq<Slot>, i: nat, j: nat)
    requires DistinctTags(fields) && |slots| == |fields| && i < |fields| && j < |fields| && i != j
    requires Home(fields, i) == Home(fields, j)
    ensures !Contents(fields, slots)[i].present || !Contents(fields, slots)[j].present
  {
    TagsDiffer(fields, i, j);
    OwnStorage(fields, i, j);
    OneTag(fields[i], fields[j], slots[Home(fields, i)]);
  }

  /** Two members of a union have different tags, so its which tag selects at most one of them. */
  lemma TagsExclude(fields: seq<Field>, slots: seq<Slot>)
    requires DistinctTags(fields) && |slots| == |fields|
    ensures Exclusive(fields, Contents(fields, slots))
  {
    var vals := Contents(fields, slots);
    forall i, j | 0 <= i < j < |fields| && Home(fields, i) == Home(fields, j)
      ensures !vals[i].present || !vals[j].present
    {
      OneOfTwo(fields, slots, i, j);
    }
  }

  /** Whatever a struct of the right layout holds is a valid message content. */
  lemma {:induction false} ContentsAreValid(fields: seq<Field>, slots: seq<Slot>)
    requires WellFormed(fields) && StructShape(fields, slots)
    ensures MessageValid(fields, Contents(fields, slots))
    decreases fields, 2
  {
    TagsExclude(fields, slots);
    AtMostOne(fields, Contents(fields, slots), |fields|);
    forall i | 0 <= i < |fields|
      ensures ValValid(fields[i], ValOf(fields[i], slots[Home(fields, i)]))
    {
      ValOfIsValid(fields[i], slots[Home(fields, i)]);
    }
  }

  // ---------------------------------------------------------------- encode, then decode

  lemma SentIsReceived(fields: seq<Field>, slots: seq<Slot>, r: Parse<seq<Val>>)
    requires WellFormed(fields) && StructShape(fields, slots)
    requires |EncodeMessage(fields, Contents(fields, slots))| < TWO_32
    requires r == ParseFresh(fields, EncodeMessage(fields, Contents(fields, slots)))
    ensures r.Success? == Terminated(fields, Contents(fields, slots))
    ensures r.Success? ==> r.rest == [] && SameMessage(fields, Contents(fields, slots), r.value)
  {
    var vals := Contents(fields, slots);
    ContentsAreValid(fields, slots);
    SmallMessageFits(fields, vals);
    MessageRoundTrip(fields, vals);
    FillIsSame(fields, vals);
  }

  /**
   pb_encode into a buffer and pb_decode of exactly the bytes it wrote. The first succeeds
   unless a count or a bytes size is out of bounds or the buffer is too small; then the second
   succeeds unless a live string has no NUL, and the two structs are the same to a reader that
   goes by the counts and sizes in memory, whatever the destination held.
   */
  method Transfer(fields: seq<Field>, source: seq<Slot>, buffer: array<Byte>, dest: MessageStruct)
    returns (sent: bool, received: bool)
    requires WellFormed(fields) && StructShape(fields, source) && StructShape(fields, dest.slots)
    requires |EncodeMessage(fields, Contents(fields, source))| < TWO_64 && buffer.Length < TWO_32
    modifies buffer, dest
    ensures sent == (StructEncodable(fields, source) &&
                     |EncodeMessage(fields, Contents(fields, source))| <= buffer.Length)
    ensures received == (sent && Terminated(fields, Contents(fields, source)))
    ensures received ==>
              && StructShape(fields, dest.slots) && StructBounded(fields, dest.slots)
              && SameMessage(fields, Contents(fields, source), Contents(fields, dest.slots))
              && SameStruct(fields, source, dest.slots)
  {
    ghost var bytes := EncodeMessage(fields, Contents(fields, source));
    var output := new OStream.FromBuffer(buffer, 0, buffer.Length);
    received := false;
    sent := Encode(output, fields, source);
    if sent {
      assert output.State().bytes == buffer[..] && output.State().written == |bytes|;
      var input := new IStream(buffer[..], 0, output.bytesWritten);
      assert input.Window() == bytes;
      SentIsReceived(fields, source, ParseFresh(fields, bytes));
      received := Decode(input, fields, dest);
      if received {
        BoundedIsEncodable(fields, dest.slots);
        SameContentsSameStruct(fields, source, dest.slots);
      }
    }
  }

  // a message with one required string, in a char array of one byte
  const TEXT: seq<Field> := [Field(1, CString, Required, 0, 0, 1, 0, [], None)]

  // the letter A, and no NUL
  const LETTER: seq<Slot> := [Slot(0, [CBuf(0, [65])])]

  lemma LetterIsLegal()
    ensures WellFormed(TEXT) && StructShape(TEXT, LETTER) && StructEncodable(TEXT, LETTER)
    ensures Contents(TEXT, LETTER) == [Val(true, [Blob([65])])]
  {
    assert RequiredBefore(TEXT, 0) == 0 && RequiredBefore(TEXT, 1) == 1;
    assert DistinctTags(TEXT[..0]) && WellFormedField(TEXT[0]);
    assert SlotShape(TEXT[0], LETTER[0]);
    assert UpToNul([65]) == [65] by {
      assert UpToNul([65][1..]) == [];
    }
    assert ValOf(TEXT[0], LETTER[0]).items == [ItemOf(TEXT[0], LETTER[0].cells[0])];
  }

  /** A char array without a NUL is encoded, and the decoder refuses the bytes. */
  lemma UnterminatedStringIsRefused()
    ensures WellFormed(TEXT) && StructShape(TEXT, LETTER) && StructEncodable(TEXT, LETTER)
    ensures ParseFresh(TEXT, EncodeMessage(TEXT, Contents(TEXT, LETTER))).Failure?
  {
    LetterIsLegal();
    var vals := Contents(TEXT, LETTER);
    assert LiveItems(TEXT[0], vals[0]) == [Blob([65])];
    assert EncodeRecords(TEXT[0], []) == [];
    assert EncodeVal(TEXT[0], vals[0]) == TagBytes(WT_STRING, 1) + Block([65]) + EncodeRecords(TEXT[0], []);
    assert EncodeFrom(TEXT, vals, 1) == [];
    assert !ValTerminated(TEXT[0], vals[0]);
    SentIsReceived(TEXT, LETTER, ParseFresh(TEXT, EncodeMessage(TEXT, vals)));
  }
}
