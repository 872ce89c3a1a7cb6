/** Sizes of the allocator, for 64 bit builds. */
module AllocSizes {
  const MIN_CHUNK_SIZE := 32
  const MIN_LARGE_SIZE := 256
  const CHUNK_OVERHEAD := 8
  const SIZE_LIMIT := 0x100_0000_0000  // 2^40, for chunks and segments
  const ADDRESS_LIMIT := 0x8000_0000_0000  // 2^47
  const WORD64 := 0x1_0000_0000_0000_0000
}
