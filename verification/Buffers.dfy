/** Fixed-size buffers that are filled piece by piece. */
module Buffers {
  import opened ByteStrings

  /** Copies `src` into the buffer at `offset` and leaves the rest as it was. */
  method CopyFromSlice(buffer: array<byte>, offset: nat, src: seq<byte>)
    requires offset + |src| <= buffer.Length
    modifies buffer
    ensures buffer[..offset + |src|] == old(buffer[..offset]) + src
    ensures buffer[offset + |src|..] == old(buffer[offset + |src|..])
  {
    forall i | 0 <= i < |src| {
      buffer[offset + i] := src[i];
    }
  }

  /** Stores one octet at `offset` and leaves the rest as it was. */
  method StoreByte(buffer: array<byte>, offset: nat, b: byte)
    requires offset < buffer.Length
    modifies buffer
    ensures buffer[..offset + 1] == old(buffer[..offset]) + [b]
    ensures buffer[offset + 1..] == old(buffer[offset + 1..])
  {
    buffer[offset] := b;
  }
}
