/**
  The destination manager of jpeg_utils.c. libjpeg writes a byte at `next_output_byte`,
  counts `free_in_buffer` down and calls `empty_output_buffer` when it reaches 0; nothing
  else of libjpeg is part of this model.
 */
module Destination {
  import opened Bits

  const OUTPUT_BUF_SIZE: nat := 4096

  class Manager {
    const buffer: array<byte>
    const outbuffer: array<byte>
    var freeInBuffer: nat
    var cursor: nat
    var written: nat
    /** Everything the compressor has written since `init_destination`. */
    ghost var all: seq<byte>

    /** Nothing is lost, doubled or out of order. */
    ghost predicate Valid()
      reads this, buffer, outbuffer
    {
      && buffer.Length == OUTPUT_BUF_SIZE && buffer != outbuffer
      && 1 <= freeInBuffer <= OUTPUT_BUF_SIZE
      && cursor == written <= outbuffer.Length
      && |all| == written + (OUTPUT_BUF_SIZE - freeInBuffer)
      && outbuffer[..written] == all[..written]
      && buffer[..OUTPUT_BUF_SIZE - freeInBuffer] == all[written..]
    }

    /** `dest_buffer` and `init_destination`. */
    constructor (outbuffer: array<byte>)
      ensures Valid() && all == [] && this.outbuffer == outbuffer && fresh(buffer)
    {
      this.outbuffer := outbuffer;
      buffer := new byte[OUTPUT_BUF_SIZE](_ => 0);
      freeInBuffer := OUTPUT_BUF_SIZE;
      cursor, written, all := 0, 0, [];
    }

    /** A byte from the compressor; the output buffer must be large enough. */
    method PutByte(b: byte)
      requires Valid() && |all| < outbuffer.Length
      modifies this, buffer, outbuffer
      ensures Valid() && all == old(all) + [b]
    {
      buffer[OUTPUT_BUF_SIZE - freeInBuffer] := b;
      freeInBuffer := freeInBuffer - 1;
      all := all + [b];
      assert buffer[..OUTPUT_BUF_SIZE - freeInBuffer] == all[written..];
      if freeInBuffer == 0 {
        EmptyOutputBuffer();
      }
    }

    /** Called with a full buffer. */
    method EmptyOutputBuffer()
      requires buffer.Length == OUTPUT_BUF_SIZE && buffer != outbuffer && freeInBuffer == 0
      requires cursor == written && written + OUTPUT_BUF_SIZE == |all| <= outbuffer.Length
      requires outbuffer[..written] == all[..written] && buffer[..] == all[written..]
      modifies this`freeInBuffer, this`cursor, this`written, outbuffer
      ensures Valid()
    {
      forall i | 0 <= i < OUTPUT_BUF_SIZE {
        outbuffer[cursor + i] := buffer[i];
      }
      cursor := cursor + OUTPUT_BUF_SIZE;
      written := written + OUTPUT_BUF_SIZE;
      freeInBuffer := OUTPUT_BUF_SIZE;
    }

    /** Afterwards the output is exactly what has been written. */
    method TermDestination()
      requires Valid() && |all| <= outbuffer.Length
      modifies this`cursor, this`written, outbuffer
      ensures written == cursor == |all| && outbuffer[..written] == all
    {
      var datacount := OUTPUT_BUF_SIZE - freeInBuffer;
      forall i | 0 <= i < datacount {
        outbuffer[cursor + i] := buffer[i];
      }
      cursor := cursor + datacount;
      written := written + datacount;
    }
  }

  /** A whole picture. */
  method Compress(bytes: seq<byte>, outbuffer: array<byte>) returns (written: nat)
    requires |bytes| <= outbuffer.Length
    modifies outbuffer
    ensures written == |bytes| && outbuffer[..written] == bytes
  {
    var m := new Manager(outbuffer);
    for i := 0 to |bytes|
      invariant fresh(m) && fresh(m.buffer) && m.outbuffer == outbuffer && m.Valid() && m.all == bytes[..i]
    {
      m.PutByte(bytes[i]);
    }
    m.TermDestination();
    written := m.written;
  }
}
