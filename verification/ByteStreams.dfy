/** Bytes, and streams of them that arrive in chunks. */
module ByteStreams {
  type Byte = b: int | 0 <= b < 256

  type Bytes = seq<Byte>

  function Concat(chunks: seq<Bytes>): Bytes {
    if chunks == [] then [] else Concat(chunks[..|chunks| - 1]) + chunks[|chunks| - 1]
  }
}
