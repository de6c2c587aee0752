/** Block commitments at the byte level, as the stores key them and the tools print them. */
module Identifiers {
  const U32_MAX := 0xFFFF_FFFF

  type Byte = b: int | 0 <= b < 256
  type U32 = n: int | 0 <= n <= U32_MAX

  type BlockId = b: seq<Byte> | |b| == 32 witness seq(32, _ => 0)

  datatype L1BlockCommitment = L1BlockCommitment(height: U32, blkid: BlockId)
}
