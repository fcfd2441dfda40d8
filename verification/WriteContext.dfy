/** stbi__write_context: a 64-byte buffer in front of the output callback. */
module WriteContext {
  import opened Bytes

  const CAPACITY: nat := 64

  class Context {
    const buffer: array<byte>
    var bufUsed: nat
    /** What the callback has received. */
    var sink: seq<byte>

    ghost predicate Valid()
      reads this
    {
      buffer.Length == CAPACITY && bufUsed <= CAPACITY
    }

    /** The byte stream as the caller sees it, buffered or not. */
    ghost function Written(): seq<byte>
      reads this, buffer
      requires Valid()
    {
      sink + buffer[..bufUsed]
    }

    constructor ()
      ensures Valid() && fresh(buffer) && Written() == [] && bufUsed == 0 && sink == []
    {
      buffer := new byte[CAPACITY];
      bufUsed, sink := 0, [];
    }

    /** s->func(s->context, bytes, n): past the buffer, so only right while the buffer is empty. */
    method Direct(bytes: seq<byte>)
      requires Valid() && bufUsed == 0
      modifies `sink
      ensures Valid() && bufUsed == 0 && Written() == old(Written()) + bytes
    {
      sink := sink + bytes;
    }

    /** stbiw__write_flush. */
    method Flush()
      requires Valid()
      modifies `sink, `bufUsed
      ensures Valid() && bufUsed == 0 && Written() == old(Written()) && sink == Written()
    {
      if bufUsed != 0 {
        sink := sink + buffer[..bufUsed];
        bufUsed := 0;
      }
    }

    /** stbiw__write1: only a full buffer goes to the callback first. */
    method Write1(a: byte)
      requires Valid()
      modifies `sink, `bufUsed, buffer
      ensures Valid() && Written() == old(Written()) + [a]
      ensures old(bufUsed) < 64 ==> sink == old(sink) && bufUsed == old(bufUsed) + 1
      ensures old(bufUsed) == 64 ==> sink == old(Written()) && bufUsed == 1
    {
      if bufUsed + 1 > CAPACITY {
        Flush();
      }
      buffer[bufUsed] := a;
      bufUsed := bufUsed + 1;
    }

    /** stbiw__write3: only a buffer with less than three bytes of room goes to the callback first. */
    method Write3(a: byte, b: byte, c: byte)
      requires Valid()
      modifies `sink, `bufUsed, buffer
      ensures Valid() && Written() == old(Written()) + [a, b, c]
      ensures old(bufUsed) <= 61 ==> sink == old(sink) && bufUsed == old(bufUsed) + 3
      ensures old(bufUsed) > 61 ==> sink == old(Written()) && bufUsed == 3
    {
      if bufUsed + 3 > CAPACITY {
        Flush();
      }
      var n := bufUsed;
      bufUsed := n + 3;
      buffer[n + 0] := a;
      buffer[n + 1] := b;
      buffer[n + 2] := c;
    }
  }
}
