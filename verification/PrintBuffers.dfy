/** `printbuffer`: a block that grows by powers of two, the offset of the text written so far, and the
    two functions that keep the "offset plus strlen" protocol going. */
module PrintBuffers {
  import opened CText
  import opened Nodes
  import Pow2gt
  import StringPrinter

  class PrintBuffer {
    var buffer: array?<byte>
    var length: nat
    var offset: nat
    /** Where the block that was last asked for ends. */
    ghost var granted: nat
    /** Bytes copied by regrowing so far. */
    ghost var copied: nat
    ghost const initial: nat
    /** What else is allocated. */
    ghost const others: set<object>
    /** What the buffer is not to be mixed up with: the tree that is printed. */
    ghost const kept: set<object>

    constructor (lib: Library, buffer: array?<byte>, prebuffer: nat, ghost kept: set<object>)
      requires buffer != null ==> buffer.Length == prebuffer && buffer in lib.live && buffer !in kept
      requires buffer == null ==> lib.denied
      ensures this.buffer == buffer && offset == 0 && initial == prebuffer && this.kept == kept
      ensures others == lib.live - Opt(buffer) && Ready(lib)
    {
      this.buffer, length, offset := buffer, prebuffer, 0;
      granted, copied, initial, others := 0, 0, prebuffer, lib.live - Opt(buffer);
      this.kept := kept;
    }

    /** The whole run of regrowths so far copied less than the first and the present block together. */
    ghost predicate Cheap()
      reads this
    {
      (length == initial && copied == 0) || exists m :: length == Pow2gt.Pow2(m) && copied < initial + length
    }

    ghost predicate Valid()
      reads this
    {
      buffer != null ==> buffer.Length == length && offset <= length && buffer !in others + kept && Cheap()
    }

    /** The buffer is lost exactly when a request has been refused, and then nothing is left of it. */
    ghost predicate Ready(lib: Library): (r: bool)
      reads this, lib
      ensures r ==> Valid() && (buffer != null ==> buffer !in others && buffer !in kept)
    {
      Valid() && lib.live == others + Opt(buffer) && (buffer == null ==> lib.denied)
    }

    /** What is known at the end. */
    lemma Outcome(lib: Library)
      requires Ready(lib)
      ensures lib.live == others + Opt(buffer) && (buffer == null ==> lib.denied)
      ensures buffer != null && buffer.Length > 0 ==> copied < initial + buffer.Length
    {
    }

    /** The text so far. */
    ghost function Text(): (t: seq<byte>)
      requires Valid() && buffer != null
      reads this, buffer
      ensures |t| == offset
    {
      buffer[..offset]
    }

    /** A C string stands at the offset. */
    ghost predicate Wrote(w: seq<byte>)
      reads this, buffer
    {
      && buffer != null && offset + |w| < buffer.Length
      && buffer[offset..offset + |w|] == w && buffer[offset + |w|] == NUL
    }

    /** `ensure`: room for `needed` more bytes, keeping all that was in the buffer. */
    method Ensure(lib: Library, needed: nat) returns (ok: bool)
      requires Ready(lib) && (buffer != null ==> offset + needed <= Pow2gt.TWO_30)
      modifies this, lib`live, lib`denied
      ensures Ready(lib) && ok == (buffer != null) && (ok ==> old(buffer) != null)
      ensures ok ==> (buffer == old(buffer) || fresh(buffer)) && old(length) <= length
      ensures ok ==> buffer[..old(length)] == old(buffer[..])
      ensures ok ==> offset == old(offset) && granted == offset + needed <= length
    {
      if buffer == null {
        return false;
      }
      var end := needed + offset;
      granted := end;
      if end <= length {
        return true;
      }
      var newsize, m := Pow2gt.Compute(end);
      var newbuffer := lib.NewBytes(newsize);
      if newbuffer == null {
        lib.Free(buffer);
        length, buffer := 0, null;
        return false;
      }
      StringPrinter.Put(newbuffer, 0, buffer[..length], length);
      assert newbuffer[..length] == newbuffer[0..0 + length] == buffer[..];
      StillCheap(m);
      copied := copied + length;
      lib.Free(buffer);
      length := newsize;
      buffer := newbuffer;
      ok := true;
    }

    /** Growing to a larger power of two keeps the total small. */
    lemma StillCheap(m: nat)
      requires Cheap() && length < Pow2gt.Pow2(m)
      ensures copied + length < initial + Pow2gt.Pow2(m)
    {
      if !(length == initial && copied == 0) {
        var k :| length == Pow2gt.Pow2(k) && copied < initial + length;
        Pow2gt.Apart(k, m);
      }
    }

    /** `update`: the offset behind the string that stands at the offset. */
    method Update(ghost w: seq<byte>) returns (r: nat)
      requires Valid() && (buffer != null ==> Wrote(w)) && NUL !in w
      ensures r == if buffer == null then 0 else offset + |w|
    {
      if buffer == null {
        return 0;
      }
      r := offset;
      while buffer[r] != NUL
        invariant offset <= r <= offset + |w|
        decreases offset + |w| - r
      {
        r := r + 1;
      }
    }

    /** Asks for `needed` bytes and writes there, with a NUL behind what is written or not. */
    method Fill(lib: Library, w: seq<byte>, needed: nat, terminated: bool) returns (ok: bool)
      requires Ready(lib) && (buffer != null ==> offset + needed <= Pow2gt.TWO_30)
      requires |w| + (if terminated then 1 else 0) <= needed
      modifies this, buffer, lib`live, lib`denied
      ensures Ready(lib) && ok == (buffer != null) && (ok ==> old(buffer) != null)
      ensures ok ==>
                && (buffer == old(buffer) || fresh(buffer)) && offset == old(offset) && Text() == old(Text())
                && offset + |w| <= length && buffer[offset..offset + |w|] == w && (terminated ==> Wrote(w))
    {
      ok := Ensure(lib, needed);
      if ok {
        StringPrinter.Put(buffer, offset, w, granted);
        if terminated {
          buffer[offset + |w|] := NUL;
        }
      }
    }

    /** Writes some bytes and moves past them. */
    method Emit(lib: Library, w: seq<byte>, terminated: bool) returns (ok: bool)
      requires Ready(lib) && (buffer != null ==> offset + |w| + 1 <= Pow2gt.TWO_30)
      modifies this, buffer, lib`live, lib`denied
      ensures Ready(lib) && ok == (buffer != null) && (ok ==> old(buffer) != null)
      ensures ok ==> (buffer == old(buffer) || fresh(buffer)) && Text() == old(Text()) + w
    {
      ok := Fill(lib, w, if terminated then |w| + 1 else |w|, terminated);
      if ok {
        assert buffer[..offset + |w|] == buffer[..offset] + buffer[offset..offset + |w|];
        offset := offset + |w|;
      }
    }
  }
}
