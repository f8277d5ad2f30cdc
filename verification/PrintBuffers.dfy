/** The output buffer of the printer: growing it, writing into it, and finding its end again. */
module PrintBuffers {
  import opened Bytes
  import opened Nodes

  class PrintBuffer {
    var buffer: array?<byte>
    var length: nat
    var offset: nat
    var depth: nat
    const noalloc: bool
    const format: bool
    /** Whether the hooks offer realloc; otherwise growing copies by hand. */
    const reallocates: bool
    const hooks: Allocator

    constructor (buffer: array<byte>, length: nat, noalloc: bool, format: bool, reallocates: bool, hooks: Allocator)
      requires length <= buffer.Length && length <= INT_MAX
      requires noalloc || (0 < length && buffer in hooks.live)
      ensures Valid() && Written([]) && depth == 0
      ensures this.buffer == buffer && this.length == length && this.offset == 0
      ensures this.noalloc == noalloc && this.format == format && this.hooks == hooks
    {
      this.buffer, this.length, this.offset, this.depth := buffer, length, 0, 0;
      this.noalloc, this.format, this.reallocates, this.hooks := noalloc, format, reallocates, hooks;
    }

    ghost predicate Valid()
      reads this, hooks`live
    {
      buffer != null && length <= buffer.Length && length <= INT_MAX && Owns()
      && (offset < length || (noalloc && length == offset == 0))
    }

    /** A growable buffer is the printer's own, to be freed. */
    ghost predicate Owns()
      reads this`buffer, hooks`live
    {
      buffer != null && !noalloc ==> buffer in hooks.live
    }

    /** What else is allocated. */
    ghost function Others(): set<object>
      reads this`buffer, hooks`live
    {
      hooks.live - (if buffer == null then {} else {buffer})
    }

    /** The buffer starts with `done`. */
    ghost predicate Holds(done: Bytes)
      reads this`buffer, buffer
    {
      buffer != null && |done| <= buffer.Length && buffer[..|done|] == done
    }

    /** `done` has been written and `offset` is right after it. */
    ghost predicate Written(done: Bytes)
      reads this`buffer, this`offset, buffer
    {
      Holds(done) && offset == |done|
    }

    /** `done` and a NUL are in the buffer; `offset` may still be before the end of `done`. */
    ghost predicate Shows(done: Bytes)
      reads this`buffer, this`offset, buffer
    {
      Holds(done) && offset <= |done| < buffer.Length && buffer[|done|] == NUL
    }

    /** Whether a text that reaches `size` bytes, slack included, can be held at all. */
    ghost predicate Fits(size: nat)
      reads this`length
    {
      if noalloc then size <= length else size <= INT_MAX
    }

    /** ensure: room for `needed` bytes from `offset` on, and one more. */
    method Ensure(needed: nat, ghost done: Bytes) returns (ok: bool)
      requires Valid() && Written(done)
      modifies this`buffer, this`length, hooks
      ensures ok ==> Valid() && Written(done) && offset + needed + 1 <= length && Fits(offset + needed + 1)
      ensures !ok ==> !Fits(offset + needed + 1) || (!noalloc && hooks.failed)
      ensures noalloc ==> buffer == old(buffer) && length == old(length) && hooks.live == old(hooks.live)
      ensures buffer == null || buffer == old(buffer) || fresh(buffer)
      ensures Owns() && Others() == old(Others()) && (old(hooks.failed) ==> hooks.failed)
    {
      if length > 0 && offset >= length {
        return false;
      }
      if needed > INT_MAX {
        return false;
      }
      var total := needed + offset + 1;
      if total <= length {
        return true;
      }
      if noalloc {
        return false;
      }
      var newsize: nat;
      if total > INT_MAX / 2 {
        if total <= INT_MAX {
          newsize := INT_MAX;
        } else {
          return false;
        }
      } else {
        newsize := total * 2;
      }
      ok := Grow(newsize, done);
    }

    /** The end of ensure: a larger buffer, by realloc or by allocating, copying and freeing. */
    method Grow(newsize: nat, ghost done: Bytes) returns (ok: bool)
      requires Valid() && Written(done) && !noalloc && length < newsize <= INT_MAX
      modifies this`buffer, this`length, hooks
      ensures ok ==> Valid() && Written(done) && length == newsize && fresh(buffer)
      ensures !ok ==> hooks.failed && buffer == null
      ensures Owns() && Others() == old(Others()) && (old(hooks.failed) ==> hooks.failed)
    {
      var newbuffer := hooks.NewBytes(newsize);
      if newbuffer == null {
        hooks.Free(buffer);
        length, buffer := 0, null;
        return false;
      }
      var copied := if reallocates then length else offset + 1;
      forall i | 0 <= i < copied {
        newbuffer[i] := buffer[i];
      }
      hooks.Free(buffer);
      assert newbuffer[..offset] == buffer[..offset];
      length, buffer := newsize, newbuffer;
      return true;
    }

    /** One `*output_pointer++ = c`. */
    method Put(at: nat, c: byte, ghost done: Bytes) returns (next: nat)
      requires Holds(done) && at == |done| < buffer.Length
      modifies buffer
      ensures next == at + 1 && Holds(done + [c]) && Holds(done) && buffer[at] == c
    {
      buffer[at] := c;
      next := at + 1;
      assert buffer[..at] == done;
      assert buffer[..next] == buffer[..at] + [c];
    }

    /** Copies `text` to position `at`, as memcpy and the loops over single bytes do. */
    method PutAll(at: nat, text: Bytes, ghost done: Bytes) returns (next: nat)
      requires Holds(done) && at == |done| && at + |text| <= buffer.Length
      modifies buffer
      ensures next == at + |text| && Holds(done + text)
    {
      next := at;
      assert done + text[..0] == done;
      for i := 0 to |text|
        invariant next == at + i && Holds(done + text[..i])
      {
        hide Holds;
        assert done + text[..i] + [text[i]] == done + text[..i + 1];
        next := Put(next, text[i], done + text[..i]);
      }
      assert text[..|text|] == text;
    }

    /** strcpy at `offset`: the text and its terminator, without moving `offset`. */
    method CopyString(text: Bytes, ghost done: Bytes)
      requires Written(done) && offset + |text| < buffer.Length
      modifies buffer
      ensures Shows(done + text)
    {
      var o := PutAll(offset, text, done);
      o := Put(o, NUL, done + text);
    }

    /** update_offset: `offset` moves to the first NUL at or after it. */
    method UpdateOffset(ghost done: Bytes)
      requires Valid() && Shows(done) && |done| < length && NulFree(done[offset..])
      modifies this`offset
      ensures Valid() && Written(done)
    {
      ghost var start := offset;
      while buffer[offset] != NUL
        invariant start <= offset <= |done|
        invariant Shows(done)
        decreases |done| - offset
      {
        assert offset < |done|;
        offset := offset + 1;
      }
    }
  }
}
