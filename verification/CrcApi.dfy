/** Checksums of whole messages (src/crc.c). */
module CrcApi {
  import opened Crc32c

  type Bytes = seq<bv8>

  const INIT: bv32 := 0xFFFFFFFF

  function Append(crc: bv32, block: Bytes): bv32 { Crc(crc, block) }

  function Close(crc: bv32): bv32 { !crc }

  function Compute(block: Bytes): bv32 { Close(Append(INIT, block)) }

  /** Appending block by block is appending the concatenation. */
  lemma AppendChunk(crc: bv32, a: Bytes, b: Bytes)
    ensures Append(Append(crc, a), b) == Append(crc, a + b)
  {
    CrcConcat(crc, a, b);
  }
}
