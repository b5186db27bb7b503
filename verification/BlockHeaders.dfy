/** The block header, as the chain stores it and peers send it. */
module BlockHeaders {
  import opened Bytes

  const HEADER_SIZE := 236

  type ExtraNonce = b: Bytes | |b| == 24 witness Zeros(24)

  datatype BlockHeader = BlockHeader(nonce: u32, time: u64, prevBlock: Hash, treeRoot: Hash, extraNonce: ExtraNonce,
                                     reservedRoot: Hash, witnessRoot: Hash, merkleRoot: Hash, version: u32,
                                     bits: u32, mask: Hash)
}
