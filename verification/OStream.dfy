/** The output stream of pb_encode.c: a bounded window of a byte buffer, or only a byte count. */
module OutputStream {
  import opened Wire

  /** A snapshot of a stream and of the buffer behind it. */
  datatype OState = OState(sizing: bool, maxSize: nat, pos: nat, written: nat, bytes: Bytes) {

    predicate Ok() {
      !sizing ==> written <= maxSize && pos + (maxSize - written) <= |bytes|
    }

    /** Where the stream's window of the buffer ends. */
    function Limit(): nat
      requires Ok() && !sizing
    {
      pos + (maxSize - written)
    }

    predicate Room(n: nat) {
      sizing || written + n <= maxSize
    }

    /** The stream after `out` has been written. */
    function After(out: Bytes): OState
      requires Ok() && Room(|out|)
    {
      if sizing then this.(written := written + |out|)
      else OState(sizing, maxSize, pos + |out|, written + |out|, bytes[..pos] + out + bytes[pos + |out|..])
    }
  }

  /** Only the free part of the window can have changed, and the window is the same. */
  predicate Confined(s0: OState, s1: OState)
    requires s0.Ok()
  {
    && s1.Ok()
    && s1.sizing == s0.sizing && s1.maxSize == s0.maxSize
    && |s1.bytes| == |s0.bytes|
    && s0.written <= s1.written
    && (!s0.sizing ==>
          && s1.Limit() == s0.Limit()
          && s1.bytes[..s0.pos] == s0.bytes[..s0.pos]
          && s1.bytes[s0.Limit()..] == s0.bytes[s0.Limit()..])
  }

  /**
   What a writing operation does that has the output `out`, or refuses if not `possible`: it
   succeeds exactly when it is possible and there is room, and then writes `out` and nothing
   else; otherwise it has at most changed the free part of the window.
   */
  predicate Emits(s0: OState, s1: OState, ok: bool, possible: bool, out: Bytes) {
    && s0.Ok()
    && ok == (possible && s0.Room(|out|))
    && Confined(s0, s1)
    && (ok ==> s1 == s0.After(out))
  }

  lemma EmitsThen(s0: OState, s1: OState, s2: OState, a: Bytes, ok: bool, possible: bool, b: Bytes)
    requires Emits(s0, s1, true, true, a) && Emits(s1, s2, ok, possible, b)
    ensures Emits(s0, s2, ok, possible, a + b)
  {
    if !s0.sizing {
      assert s1.bytes[..s0.pos] == s1.bytes[..s1.pos][..s0.pos];
      assert s2.bytes[..s0.pos] == s2.bytes[..s1.pos][..s0.pos];
      if ok {
        var x := s0.bytes;
        assert s1.bytes[..s1.pos] == x[..s0.pos] + a;
        assert s1.bytes[s1.pos + |b|..] == x[s0.pos + |a + b|..];
        assert s2.bytes == x[..s0.pos] + (a + b) + x[s0.pos + |a + b|..];
      }
    }
  }

  /** An operation that stops at its first part has failed as a whole. */
  lemma EmitsStop(s0: OState, s1: OState, possible: bool, a: Bytes, more: bool, b: Bytes)
    requires Emits(s0, s1, false, possible, a)
    ensures Emits(s0, s1, false, possible && more, a + b)
  {}

  /**
   One part of a longer output `done + (part + rest)`, all of which is possible or not: the
   output grows by the part, or the whole has failed.
   */
  lemma EmitsPart(s0: OState, s1: OState, s2: OState, done: Bytes, ok: bool, possible: bool, part: Bytes,
                  all: bool, rest: Bytes)
    requires Emits(s0, s1, true, true, done) && Emits(s1, s2, ok, possible, part) && (all ==> possible)
    ensures done + (part + rest) == (done + part) + rest
    ensures ok ==> Emits(s0, s2, true, true, done + part)
    ensures !ok ==> Emits(s0, s2, false, all, done + (part + rest))
  {
    EmitsThen(s0, s1, s2, done, ok, possible, part);
    assert done + (part + rest) == (done + part) + rest;
  }

  lemma EmitsNothing(s: OState)
    requires s.Ok()
    ensures Emits(s, s, true, true, [])
  {}

  /**
   The passes agree: with the same output, writing to a buffer succeeds exactly when sizing
   does and the size fits the room, and then both count the same bytes.
   */
  lemma SizingDecides(s0: OState, s1: OState, ok: bool, t0: OState, t1: OState, sized: bool, possible: bool, out: Bytes)
    requires Emits(s0, s1, ok, possible, out) && !s0.sizing
    requires Emits(t0, t1, sized, possible, out) && t0.sizing
    ensures ok <==> sized && t1.written - t0.written <= s0.maxSize - s0.written
    ensures ok ==> s1.written - s0.written == t1.written - t0.written
    ensures s1.written <= s1.maxSize
    ensures forall k :: 0 <= k < |s0.bytes| && (k < s0.pos || k >= s0.Limit()) ==> s1.bytes[k] == s0.bytes[k]
  {
    if !sized {
      assert !possible;
    }
    assert forall k :: 0 <= k < s0.pos ==> s1.bytes[..s0.pos][k] == s0.bytes[..s0.pos][k];
    var n := s0.Limit();
    forall k | n <= k < |s0.bytes|
      ensures s1.bytes[k] == s0.bytes[k]
    {
      assert s1.bytes[n..][k - n] == s0.bytes[n..][k - n];
    }
  }

  class OStream {
    // null in a sizing stream (callback == NULL)
    const buf: array?<Byte>
    const maxSize: nat
    var pos: nat
    var bytesWritten: nat

    ghost function State(): OState
      reads this, buf
    {
      OState(buf == null, maxSize, pos, bytesWritten, if buf == null then [] else buf[..])
    }

    ghost predicate Valid()
      reads this
    {
      buf != null ==> bytesWritten <= maxSize && pos + (maxSize - bytesWritten) <= buf.Length
    }

    /** pb_ostream_from_buffer, and the substream of pb_encode_submessage. */
    constructor FromBuffer(buf: array<Byte>, pos: nat, size: nat)
      requires pos + size <= buf.Length
      ensures Valid() && this.buf == buf && State() == OState(false, size, pos, 0, buf[..])
    {
      this.buf, this.maxSize, this.pos, this.bytesWritten := buf, size, pos, 0;
    }

    /** PB_OSTREAM_SIZING. */
    constructor Sizing()
      ensures Valid() && buf == null && State() == OState(true, 0, 0, 0, [])
    {
      buf, maxSize, pos, bytesWritten := null, 0, 0, 0;
    }

    /** buf_write. */
    method BufWrite(data: Bytes)
      requires buf != null && pos + |data| <= buf.Length
      modifies this`pos, buf
      ensures pos == old(pos) + |data|
      ensures buf[..] == old(buf[..])[..old(pos)] + data + old(buf[..])[old(pos) + |data|..]
    {
      var dest := pos;
      pos := dest + |data|;
      var i := 0;
      while i < |data|
        invariant 0 <= i <= |data| && pos == dest + |data|
        invariant forall k :: 0 <= k < i ==> buf[dest + k] == data[k]
        invariant forall k :: 0 <= k < buf.Length && !(dest <= k < dest + i) ==> buf[k] == old(buf[k])
      {
        buf[dest + i] := data[i];
        i := i + 1;
      }
    }

    /** pb_write. */
    method Write(data: Bytes) returns (ok: bool)
      requires Valid()
      modifies this, buf
      ensures Valid()
      ensures Emits(old(State()), State(), ok, true, data)
    {
      if buf != null {
        if bytesWritten + |data| > maxSize {
          return false;
        }
        BufWrite(data);
      }
      bytesWritten := bytesWritten + |data|;
      return true;
    }

    /** pb_write with a NULL buffer, which only sizing streams are given. */
    method Skip(count: nat) returns (ok: bool)
      requires Valid() && buf == null
      modifies this
      ensures Valid() && ok
      ensures forall data: Bytes :: |data| == count ==> Emits(old(State()), State(), ok, true, data)
    {
      bytesWritten := bytesWritten + count;
      return true;
    }
  }
}
