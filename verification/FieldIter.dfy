/**
 The circular field iterator of pb_common.c. Pointers into the struct are offsets from its
 start; the position in the descriptor is an index.
 */
module FieldIterator {
  import opened Descriptor

  class FieldIter {
    const fields: seq<Field>
    var pos: nat
    var requiredFieldIndex: nat
    var pData: int
    var pSize: int

    /** Every field of the iterator is a function of its position. */
    ghost predicate Valid()
      reads this
    {
      // a zero tag marks the terminator
      && (forall i :: 0 <= i < |fields| ==> fields[i].tag != 0)
      && (fields == [] ==> pos == 0 && requiredFieldIndex == 0 && pData == 0 && pSize == 0)
      && (fields != [] ==>
            && pos < |fields|
            && requiredFieldIndex == RequiredBefore(fields, pos)
            && pData == DataAt(fields, pos)
            && pSize == SizeAt(fields, pos))
    }

    constructor (fields: seq<Field>)
      requires forall i :: 0 <= i < |fields| ==> fields[i].tag != 0
      ensures Valid() && this.fields == fields && pos == 0
    {
      this.fields := fields;
      pos, requiredFieldIndex := 0, 0;
      pData := if fields == [] then 0 else fields[0].dataOffset;
      pSize := if fields == [] then 0 else fields[0].dataOffset + fields[0].sizeOffset;
    }

    /** pb_field_iter_begin. */
    method Begin() returns (nonempty: bool)
      requires forall i :: 0 <= i < |fields| ==> fields[i].tag != 0
      modifies this
      ensures Valid() && pos == 0
      ensures nonempty == (fields != [])
      ensures fields != [] ==> pData == fields[0].dataOffset && pSize == pData + fields[0].sizeOffset
    {
      pos, requiredFieldIndex := 0, 0;
      if fields == [] {
        pData, pSize := 0, 0;
        return false;
      }
      pData := fields[0].dataOffset;
      pSize := pData + fields[0].sizeOffset;
      return true;
    }

    /** pb_field_iter_next. */
    method Next() returns (more: bool)
      requires Valid()
      modifies this
      ensures Valid()
      ensures more == (old(pos) + 1 < |fields|)
      ensures pos == if more then old(pos) + 1 else 0
      ensures more ==>
                var f, g := fields[old(pos)], fields[pos];
                var size := f.dataSize * if f.htype.Repeated? then f.arraySize else 1;
                if f.htype.Oneof? && g.htype.Oneof? && g.dataOffset == 0xFFFF_FFFF then
                  pData == old(pData) && pSize == old(pSize)
                else
                  pData == old(pData) + size + g.dataOffset && pSize == pData + g.sizeOffset
    {
      if fields == [] {
        return false;
      }
      var prev := fields[pos];
      pos := pos + 1;
      if pos == |fields| {
        var _ := Begin();
        return false;
      }
      var prevSize := prev.dataSize;
      if prev.htype.Oneof? && fields[pos].htype.Oneof? && fields[pos].dataOffset == PB_SIZE_MAX {
        return true;
      } else if prev.htype.Repeated? {
        prevSize := prevSize * prev.arraySize;
      }
      if prev.htype.Required? {
        requiredFieldIndex := requiredFieldIndex + 1;
      }
      pData := pData + prevSize + fields[pos].dataOffset;
      pSize := pData + fields[pos].sizeOffset;
      return true;
    }

    /** The iterator is at a field that pb_field_iter_find accepts for `tag`. */
    ghost predicate At(tag: nat)
      requires Valid()
      reads this
    {
      if fields == [] then tag == 0 else Matches(fields[pos], tag)
    }

    static predicate Matches(f: Field, tag: nat) {
      f.tag == tag && !f.ltype.Extension?
    }

    /**
     pb_field_iter_find: searches one cycle from any position. The terminator of an empty
     descriptor answers to tag 0.
     */
    method Find(tag: nat) returns (found: bool)
      requires Valid()
      modifies this
      ensures Valid()
      ensures found ==> At(tag)
      ensures found <==> (fields == [] && tag == 0) || exists i :: 0 <= i < |fields| && Matches(fields[i], tag)
      ensures found && fields != [] ==> fields[pos].tag == tag && !fields[pos].ltype.Extension?
      ensures !found ==> forall i :: 0 <= i < |fields| ==> fields[i].tag != tag || fields[i].ltype.Extension?
      ensures !found ==> pos == old(pos)
    {
      var start := pos;
      ghost var wrapped := false;
      while true
        invariant Valid()
        invariant start == old(pos)
        invariant if wrapped then pos < start else start <= pos
        invariant !wrapped ==> forall i :: start <= i < pos ==> !Matches(fields[i], tag)
        invariant wrapped ==> forall i :: 0 <= i < pos || start <= i < |fields| ==> !Matches(fields[i], tag)
        decreases if wrapped then start - pos else |fields| + 1 + start - pos
      {
        if (if fields == [] then tag == 0 else fields[pos].tag == tag && !fields[pos].ltype.Extension?) {
          return true;
        }
        var more := Next();
        if !more {
          wrapped := true;
        }
        if pos == start {
          return false;
        }
      }
    }

    /** find_extension_field in pb_decode.c. */
    method FindExtension() returns (found: bool)
      requires Valid()
      modifies this
      ensures Valid()
      ensures found <==> exists i :: 0 <= i < |fields| && fields[i].ltype.Extension?
      ensures found ==> fields[pos].ltype.Extension?
      ensures !found ==> pos == old(pos)
    {
      var start := pos;
      ghost var wrapped := false;
      while true
        invariant Valid()
        invariant start == old(pos)
        invariant if wrapped then pos < start else start <= pos
        invariant !wrapped ==> forall i :: start <= i < pos ==> !fields[i].ltype.Extension?
        invariant wrapped ==> forall i :: 0 <= i < pos || start <= i < |fields| ==> !fields[i].ltype.Extension?
        decreases if wrapped then start - pos else |fields| + 1 + start - pos
      {
        if fields != [] && fields[pos].ltype.Extension? {
          return true;
        }
        var more := Next();
        if !more {
          wrapped := true;
        }
        if pos == start {
          return false;
        }
      }
    }

    /**
     The end of pb_decode_noinit: the number of required fields, recovered by running the
     iterator from wherever it is to the wrap-around.
     */
    method CountRequired() returns (count: nat)
      requires Valid()
      modifies this
      ensures Valid()
      ensures count == RequiredCount(fields)
    {
      var lastRequired := false;
      var more := true;
      count := 0;
      while more
        invariant Valid()
        invariant !more ==> pos == 0
        invariant !more && fields == [] ==> count == 0
        invariant !more && fields != [] ==>
                    && count == RequiredBefore(fields, |fields| - 1)
                    && lastRequired == fields[|fields| - 1].htype.Required?
        decreases more, |fields| - pos
      {
        count := requiredFieldIndex;
        // the type byte of the terminator reads as a required field
        lastRequired := fields == [] || fields[pos].htype.Required?;
        more := Next();
      }
      if lastRequired && fields != [] {
        count := count + 1;
      }
    }
  }
}
