/** A packed payload: header, block table and what it means for staged blocks to unpack into a buffer. */
module BlobFormat {
  import opened Words
  import opened Crc32
  import opened Lz4Decoder

  const BLOB_MAGIC: u32 := 0x345a4c42
  const BLOB_VERSION: u32 := 4
  const BLOB_FLAG_LZ4_STREAM := 2
  const BLOB_FLAG_HAS_LOAD_ADDR := 4
  const BLOB_BLOCK_SIZE := 4096
  const BLOB_HEADER_SIZE := 52
  const BLOB_BLOCK_DESC_SIZE := 20
  const BLOB_OUTPUT_CRC_LIMIT := 512 * 1024

  const BLOB_ERR_MAGIC := -1
  const BLOB_ERR_VERSION := -2
  const BLOB_ERR_FLAGS := -3
  const BLOB_ERR_SIZE := -4
  const BLOB_ERR_CRC := -5
  const BLOB_ERR_OUTPUT_CRC := -7

  datatype Header = Header(
    magic: u32, headerSize: u32, version: u32, flags: u32, uncompressedSize: u32, compressedSize: u32,
    blockSize: u32, blockCount: u32, blockTableOff: u32, dataOff: u32, uncompressedCrc: bv32)

  datatype BlockDesc = BlockDesc(
    uncompressedOff: u32, uncompressedSize: u32, compressedOff: u32, compressedSize: u32, compressedCrc: bv32)

  /** 32-bit addition, which drops the carry. */
  function Add32(a: nat, b: nat): u32 {
    (a + b) % TWO32
  }

  /** LZ4 stream flag present, no flag other than the two known ones. */
  predicate FlagsOk(flags: u32) {
    flags == BLOB_FLAG_LZ4_STREAM || flags == BLOB_FLAG_LZ4_STREAM + BLOB_FLAG_HAS_LOAD_ADDR
  }

  predicate SizesOk(h: Header, capacity: u32) {
    && h.headerSize >= BLOB_HEADER_SIZE
    && h.blockSize == BLOB_BLOCK_SIZE
    && h.uncompressedSize <= capacity
    && h.blockCount == Add32(h.uncompressedSize, BLOB_BLOCK_SIZE - 1) / BLOB_BLOCK_SIZE
    && h.blockTableOff >= h.headerSize
    && h.dataOff >= Add32(h.blockTableOff, h.blockCount * BLOB_BLOCK_DESC_SIZE)
  }

  predicate HeaderOk(h: Header, capacity: u32) {
    h.magic == BLOB_MAGIC && h.version == BLOB_VERSION && FlagsOk(h.flags) && SizesOk(h, capacity)
  }

  predicate BlockOk(h: Header, i: nat, b: BlockDesc) {
    && b.uncompressedOff == i * BLOB_BLOCK_SIZE % TWO32
    && b.uncompressedSize <= BLOB_BLOCK_SIZE
    && Add32(b.uncompressedOff, b.uncompressedSize) <= h.uncompressedSize
    && b.compressedSize <= STAGE_CAPACITY
    && Add32(b.compressedOff, b.compressedSize) <= h.compressedSize
  }

  /** Where the compressed bytes of the blocks before `i` end. */
  function CompressedEnd(blocks: seq<BlockDesc>, i: nat): u32
    requires i <= |blocks|
  {
    if i == 0 then 0 else Add32(CompressedEnd(blocks, i - 1), blocks[i - 1].compressedSize)
  }

  ghost predicate Contiguous(h: Header, blocks: seq<BlockDesc>) {
    && (forall i :: 0 <= i < |blocks| ==> blocks[i].compressedOff == CompressedEnd(blocks, i))
    && CompressedEnd(blocks, |blocks|) == h.compressedSize
  }

  // ---------- Unpacking ----------

  /** One staged block with the checksum its descriptor asks for. */
  ghost predicate Accepted(b: BlockDesc, chunk: seq<u8>) {
    |chunk| == b.compressedSize && Checksum(chunk) == b.compressedCrc
  }

  /** The buffer after a block was decoded into its place, with all that precedes it as history. */
  function Place(buffer: seq<u8>, b: BlockDesc, chunk: seq<u8>): (r: Option<seq<u8>>)
  {
    if b.uncompressedOff + b.uncompressedSize > |buffer| then None
    else
      match Run(chunk, buffer[..b.uncompressedOff], b.uncompressedSize)
      case None => None
      case Some(out) => Some(out + buffer[b.uncompressedOff + b.uncompressedSize..])
  }

  function Unpack(buffer: seq<u8>, blocks: seq<BlockDesc>, chunks: seq<seq<u8>>): Option<seq<u8>>
    requires |blocks| == |chunks|
    decreases |blocks|
  {
    if blocks == [] then Some(buffer)
    else
      var last := |blocks| - 1;
      match Unpack(buffer, blocks[..last], chunks[..last])
      case None => None
      case Some(before) => Place(before, blocks[last], chunks[last])
  }

  ghost predicate AllAccepted(blocks: seq<BlockDesc>, chunks: seq<seq<u8>>) {
    |blocks| == |chunks| && forall i :: 0 <= i < |blocks| ==> Accepted(blocks[i], chunks[i])
  }

  ghost predicate AllBlocksOk(h: Header, blocks: seq<BlockDesc>) {
    forall i :: 0 <= i < |blocks| ==> BlockOk(h, i, blocks[i])
  }

  ghost predicate OutputOk(h: Header, buffer: seq<u8>) {
    h.uncompressedSize <= |buffer| &&
    (h.uncompressedSize <= 0x8_0000 ==> Checksum(buffer[..h.uncompressedSize]) == h.uncompressedCrc)
  }

  /** `chunks` pass every check of the loader and turn the buffer `before` into `after`. */
  ghost predicate Expands(h: Header, blocks: seq<BlockDesc>, chunks: seq<seq<u8>>, before: seq<u8>, after: seq<u8>) {
    && |before| < TWO32 && HeaderOk(h, |before|) && |blocks| == h.blockCount
    && AllBlocksOk(h, blocks) && AllAccepted(blocks, chunks)
    && Unpack(before, blocks, chunks) == Some(after)
    && Contiguous(h, blocks) && OutputOk(h, after)
  }

  // ---------- The tests in numbers ----------

  /**
   * A header is accepted if it begins with the letters BLZ4 and says version 4, an LZ4 stream, blocks of 4096 bytes, no
   * more output than there is room for, as many blocks as that takes, and a table of 20 bytes for each between header
   * and data (whose end may wrap).
   */
  lemma HeaderMeans(h: Header, capacity: u32)
    requires capacity + 4096 <= 0x1_0000_0000
    ensures HeaderOk(h, capacity) <==>
            && h.magic == 0x345a_4c42 && h.version == 4 && h.flags in {2, 6} && h.blockSize == 4096
            && h.uncompressedSize <= capacity
            && h.uncompressedSize <= 4096 * (h.blockCount as int) < h.uncompressedSize + 4096
            && 52 <= h.headerSize <= h.blockTableOff
            && (h.blockTableOff + 20 * (h.blockCount as int)) % 0x1_0000_0000 <= h.dataOff
  {
  }

  /** Block `i` begins at byte 4096 i, is no longer than that, and its staged bytes fit the stage and the data. */
  lemma BlockMeans(h: Header, i: nat, b: BlockDesc, capacity: u32)
    requires HeaderOk(h, capacity) && capacity + 4096 <= 0x1_0000_0000 && i < h.blockCount
    ensures BlockOk(h, i, b) <==>
            && b.uncompressedOff == 4096 * i && b.uncompressedSize <= 4096 && b.compressedSize <= 8192
            && 4096 * i + b.uncompressedSize <= h.uncompressedSize
            && (b.compressedOff + (b.compressedSize as int)) % 0x1_0000_0000 <= h.compressedSize
  {
    HeaderMeans(h, capacity);
    hide HeaderOk;
    assert 4096 * i + 4096 <= 4096 * (h.blockCount as int);
  }

  // ---------- First consequences ----------

  /** In a buffer that ends before the last page of the address space, no block's end wraps around. */
  lemma BlockFits(h: Header, i: nat, b: BlockDesc, capacity: u32)
    requires SizesOk(h, capacity) && capacity + BLOB_BLOCK_SIZE <= TWO32 && i < h.blockCount && BlockOk(h, i, b)
    ensures b.uncompressedOff == i * BLOB_BLOCK_SIZE
    ensures b.uncompressedOff + b.uncompressedSize <= h.uncompressedSize
  {
    assert h.uncompressedSize + BLOB_BLOCK_SIZE - 1 < TWO32;
    assert (i + 1) * BLOB_BLOCK_SIZE <= h.uncompressedSize + BLOB_BLOCK_SIZE - 1;
  }

  lemma UnpackStep(buffer: seq<u8>, blocks: seq<BlockDesc>, chunks: seq<seq<u8>>, i: nat)
    requires |blocks| == |chunks| && i < |blocks|
    ensures Unpack(buffer, blocks[..i + 1], chunks[..i + 1])
            == match Unpack(buffer, blocks[..i], chunks[..i])
               case None => None
               case Some(before) => Place(before, blocks[i], chunks[i])
  {
    assert blocks[..i + 1][..i] == blocks[..i] && chunks[..i + 1][..i] == chunks[..i];
  }

  lemma {:induction false} UnpackPrefix(buffer: seq<u8>, blocks: seq<BlockDesc>, chunks: seq<seq<u8>>, i: nat)
    requires |blocks| == |chunks| && i <= |blocks| && Unpack(buffer, blocks, chunks).Some?
    ensures Unpack(buffer, blocks[..i], chunks[..i]).Some?
    decreases |blocks|
  {
    if i == |blocks| {
      assert blocks[..i] == blocks && chunks[..i] == chunks;
    } else {
      var last := |blocks| - 1;
      UnpackPrefix(buffer, blocks[..last], chunks[..last], i);
      assert blocks[..last][..i] == blocks[..i] && chunks[..last][..i] == chunks[..i];
    }
  }
}
