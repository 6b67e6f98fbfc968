// Bytes and byte sequences, the common currency of the stream modules.
module Bytes {
  type byte = b: int | 0 <= b < 256

  // Two bytes as a big-endian number.
  function Word(h: seq<byte>, i: nat): nat
    requires i + 1 < |h|
  {
    h[i] as int * 256 + h[i + 1] as int
  }

  // The pieces of a stream, put back together.
  function Flatten(chunks: seq<seq<byte>>): seq<byte> {
    if chunks == [] then [] else chunks[0] + Flatten(chunks[1..])
  }
}
