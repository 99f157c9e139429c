/** The expander of packed payloads: stages each block from a noisy ROM until its checksum fits, then decodes it. */
module BlobExpand {
  import opened Words
  import opened Crc32
  import opened Lz4Decoder
  import opened BlobFormat

  const RETRIES := 64
  const SAMPLES := 11

  /** A ROM whose every read may return something else: `sense(t, a)` is what the `t`-th read gives at `a`. */
  class Rom {
    const sense: (nat, nat) -> u8
    var time: nat

    constructor (sense: (nat, nat) -> u8)
      ensures this.sense == sense
    {
      this.sense, time := sense, 0;
    }

    method Read(a: nat) returns (b: u8)
      modifies this
      ensures b == sense(old(time), a) && time == old(time) + 1
    {
      b := sense(time, a);
      time := time + 1;
    }
  }

  function Occurrences(samples: seq<u8>, v: u8): (n: nat)
    ensures n <= |samples|
  {
    if samples == [] then 0
    else Occurrences(samples[..|samples| - 1], v) + if samples[|samples| - 1] == v then 1 else 0
  }

  /** The most frequent of the samples. */
  method MostFrequent(samples: array<u8>) returns (v: u8)
    requires samples.Length > 0
    ensures v in samples[..]
    ensures forall w :: w in samples[..] ==> Occurrences(samples[..], w) <= Occurrences(samples[..], v)
  {
    var best, bestCount := 0, 0;
    var i := 0;
    while i < samples.Length
      invariant 0 <= i <= samples.Length && best < samples.Length
      invariant i > 0 ==> bestCount == Occurrences(samples[..], samples[best])
      invariant i == 0 ==> bestCount == 0
      invariant forall k :: 0 <= k < i ==> Occurrences(samples[..], samples[k]) <= bestCount
    {
      var count := 0;
      var j := 0;
      while j < samples.Length
        invariant 0 <= j <= samples.Length
        invariant count == Occurrences(samples[..j], samples[i])
      {
        assert samples[..j + 1][..j] == samples[..j];
        if samples[j] == samples[i] {
          count := count + 1;
        }
        j := j + 1;
      }
      assert samples[..samples.Length] == samples[..];
      OccursAtLeastOnce(samples[..], i);
      if count > bestCount {
        best, bestCount := i, count;
      }
      i := i + 1;
    }
    v := samples[best];
  }

  lemma {:induction false} OccursAtLeastOnce(samples: seq<u8>, i: nat)
    requires i < |samples|
    ensures Occurrences(samples, samples[i]) >= 1
    decreases |samples|
  {
    if i < |samples| - 1 {
      OccursAtLeastOnce(samples[..|samples| - 1], i);
    }
  }

  lemma {:induction false} TwoValues(samples: seq<u8>, v: u8, w: u8)
    requires v != w
    ensures Occurrences(samples, v) + Occurrences(samples, w) <= |samples|
    decreases |samples|
  {
    if samples != [] {
      TwoValues(samples[..|samples| - 1], v, w);
    }
  }

  lemma {:induction false} OccursMeansIn(samples: seq<u8>, v: u8)
    requires Occurrences(samples, v) > 0
    ensures v in samples
    decreases |samples|
  {
    if samples[|samples| - 1] != v {
      OccursMeansIn(samples[..|samples| - 1], v);
    }
  }

  /** A value that the majority of samples agree on is the one that wins. */
  lemma MajorityWins(samples: seq<u8>, v: u8, w: u8)
    requires 2 * Occurrences(samples, v) > |samples|
    requires forall u :: u in samples ==> Occurrences(samples, u) <= Occurrences(samples, w)
    ensures v == w
  {
    OccursMeansIn(samples, v);
    if v != w {
      TwoValues(samples, v, w);
    }
  }

  /** Every read of address `a` gives `v`. */
  ghost predicate Steady(sense: (nat, nat) -> u8, a: nat, v: u8) {
    forall t: nat :: sense(t, a) == v
  }

  /** Every read returns the byte of `image`. */
  ghost predicate Clean(sense: (nat, nat) -> u8, image: seq<u8>) {
    |image| <= TWO32 && forall a :: 0 <= a < |image| ==> Steady(sense, a, image[a])
  }

  /** The ROM is clean and what it holds at `src` has the checksum `crc`. */
  ghost predicate Genuine(sense: (nat, nat) -> u8, image: seq<u8>, src: nat, size: nat, crc: bv32) {
    Clean(sense, image) && src + size <= |image| && Checksum(image[src..src + size]) == crc
  }

  /** Reads a byte eleven times and believes the majority. */
  method ReadStable(rom: Rom, a: nat) returns (b: u8)
    modifies rom
    ensures exists samples: seq<u8> :: SampledAt(rom.sense, old(rom.time), a, samples)
              && (forall v :: Occurrences(samples, v) >= 6 ==> b == v)
    ensures rom.time == old(rom.time) + 11
    ensures forall v :: Steady(rom.sense, a, v) ==> b == v
  {
    var samples := new u8[SAMPLES];
    var i := 0;
    while i < SAMPLES
      invariant 0 <= i <= SAMPLES && rom.time == old(rom.time) + i
      invariant forall k :: 0 <= k < i ==> samples[k] == rom.sense(old(rom.time) + k, a)
    {
      samples[i] := rom.Read(a);
      i := i + 1;
    }
    b := MostFrequent(samples);
    assert SampledAt(rom.sense, old(rom.time), a, samples[..]);
    forall v | 2 * Occurrences(samples[..], v) > SAMPLES ensures b == v {
      MajorityWins(samples[..], v, b);
    }
  }

  ghost predicate SampledAt(sense: (nat, nat) -> u8, start: nat, a: nat, samples: seq<u8>) {
    |samples| == 11 && forall k: nat :: k < 11 ==> samples[k] == sense(start + k, a)
  }

  /** How often the ROM has been read after `n` attempts: once for each byte at first, then eleven times. */
  function ReadsAfter(n: nat, size: nat): nat {
    if n == 0 then 0 else size + 11 * (n - 1) * size
  }

  lemma MoreReads(n: nat, size: nat, last: nat)
    requires n < last
    ensures ReadsAfter(n + 1, size) == ReadsAfter(n, size) + (if n == 0 then size else 11 * size)
    ensures ReadsAfter(n + 1, size) <= ReadsAfter(last, size)
  {
    if n > 0 {
      assert 11 * n * size == 11 * (n - 1) * size + 11 * size;
    }
    assert 11 * (last - 1) * size == 11 * n * size + 11 * (last - 1 - n) * size;
  }

  /** Fills the stage from ROM address `src`, until the checksum fits or the retries are used up. */
  method StageBlock(rom: Rom, ghost image: seq<u8>, src: u32, size: u32, crc: bv32, stage: array<u8>)
    returns (accepted: bool)
    requires size <= stage.Length
    modifies rom, stage
    ensures accepted ==> Checksum(stage[..size]) == crc
    ensures Genuine(rom.sense, image, src, size, crc) ==> accepted && stage[..size] == image[src..src + size]
    ensures !accepted ==> rom.time == old(rom.time) + ReadsAfter(64, size)
    ensures rom.time <= old(rom.time) + ReadsAfter(64, size)
  {
    hide Checksum;
    var retry := 0;
    while retry < RETRIES
      invariant 0 <= retry <= RETRIES && rom.time == old(rom.time) + ReadsAfter(retry, size)
      invariant Genuine(rom.sense, image, src, size, crc) ==> retry == 0
    {
      var j: u32 := 0;
      ghost var began := rom.time;
      while j < size
        invariant j <= size && rom.time == began + (if retry == 0 then j else 11 * (j as int))
        invariant Genuine(rom.sense, image, src, size, crc) ==> stage[..j] == image[src..src + j]
      {
        var b;
        if retry == 0 {
          b := rom.Read(Add32(src, j));
        } else {
          b := ReadStable(rom, Add32(src, j));
        }
        if Genuine(rom.sense, image, src, size, crc) {
          assert Steady(rom.sense, src + j, image[src + j]) && Add32(src, j) == src + j;
          assert image[src..src + j + 1] == image[src..src + j] + [image[src + j]];
        }
        stage[j] := b;
        assert stage[..j + 1] == stage[..j] + [b];
        j := j + 1;
      }
      MoreReads(retry, size, 64);
      var got := ComputeChecksum(stage, size);
      if got == crc {
        return true;
      }
      retry := retry + 1;
    }
    return false;
  }

  /** The ROM is clean and `chunks` are what it holds where the block table points. */
  ghost predicate GenuineChunks(sense: (nat, nat) -> u8, image: seq<u8>, h: Header, blocks: seq<BlockDesc>,
                                chunks: seq<seq<u8>>)
  {
    && Clean(sense, image) && |chunks| == |blocks|
    && forall i :: 0 <= i < |blocks| ==>
         var src := Add32(h.dataOff, blocks[i].compressedOff);
         src + blocks[i].compressedSize <= |image| && chunks[i] == image[src..src + blocks[i].compressedSize]
  }

  /** The chunks are genuine and would expand. */
  ghost predicate Intact(sense: (nat, nat) -> u8, image: seq<u8>, h: Header, blocks: seq<BlockDesc>,
                         chunks: seq<seq<u8>>, before: seq<u8>)
  {
    GenuineChunks(sense, image, h, blocks, chunks) && exists after :: Expands(h, blocks, chunks, before, after)
  }

  /** The code of the first test of the header that fails. */
  function HeaderCode(h: Header, capacity: u32): int {
    if h.magic != 0x345a_4c42 then -1
    else if h.version != 4 then -2
    else if h.flags != 2 && h.flags != 6 then -3
    else if !SizesOk(h, capacity) then -4
    else 0
  }

  method CheckHeader(h: Header, capacity: u32) returns (rc: int)
    ensures rc == 0 <==> HeaderOk(h, capacity)
    ensures rc == HeaderCode(h, capacity)
  {
    if h.magic != BLOB_MAGIC {
      return BLOB_ERR_MAGIC;
    }
    if h.version != BLOB_VERSION {
      return BLOB_ERR_VERSION;
    }
    if !FlagsOk(h.flags) {
      return BLOB_ERR_FLAGS;
    }
    if !SizesOk(h, capacity) {
      return BLOB_ERR_SIZE;
    }
    return 0;
  }

  /** Stages and decodes block `i`. */
  method ExpandBlock(rom: Rom, ghost image: seq<u8>, h: Header, b: BlockDesc, i: nat,
                     stage: array<u8>, dst: array<u8>)
    returns (rc: int, ghost chunk: seq<u8>)
    requires stage.Length >= STAGE_CAPACITY && stage != dst && dst.Length + BLOB_BLOCK_SIZE <= TWO32
    requires HeaderOk(h, dst.Length) && i < h.blockCount
    modifies rom, stage, dst
    ensures rc == 0 ==> BlockOk(h, i, b) && Accepted(b, chunk) && Place(old(dst[..]), b, chunk) == Some(dst[..])
    ensures (rc == -4 <==> !BlockOk(h, i, b)) && rc in {0, -4, -5, -6}
    ensures rc == -6 ==> Accepted(b, chunk) && Place(old(dst[..]), b, chunk) == None
    ensures forall k :: h.uncompressedSize <= k < dst.Length ==> dst[k] == old(dst[k])
    ensures var src := Add32(h.dataOff, b.compressedOff);
            BlockOk(h, i, b) && Genuine(rom.sense, image, src, b.compressedSize, b.compressedCrc)
            && Place(old(dst[..]), b, image[src..src + b.compressedSize]).Some?
            ==> rc == 0 && chunk == image[src..src + b.compressedSize]
  {
    hide Checksum, Run, HeaderOk, SizesOk;
    chunk := [];
    if !BlockOk(h, i, b) {
      return BLOB_ERR_SIZE, chunk;
    }
    BlockFitsHeader(h, i, b, dst.Length);
    var accepted := StageBlock(rom, image, Add32(h.dataOff, b.compressedOff), b.compressedSize, b.compressedCrc, stage);
    if !accepted {
      return BLOB_ERR_CRC, chunk;
    }
    chunk := stage[..b.compressedSize];
    var end: nat := b.uncompressedOff + b.uncompressedSize;
    ghost var before := dst[..];
    rc := DecodeChunk(stage, b.compressedSize, dst, b.uncompressedOff, b.uncompressedSize);
    assert before[..b.uncompressedOff] == old(dst[..b.uncompressedOff]);
    if rc == 0 {
      assert dst[..] == dst[..end] + before[end..];
    } else {
      rc := BLOB_ERR_LZ4;
    }
  }

  lemma BlockFitsHeader(h: Header, i: nat, b: BlockDesc, capacity: u32)
    requires HeaderOk(h, capacity) && capacity + BLOB_BLOCK_SIZE <= TWO32 && i < h.blockCount && BlockOk(h, i, b)
    ensures b.uncompressedOff + b.uncompressedSize <= h.uncompressedSize <= capacity
  {
    BlockFits(h, i, b, capacity);
  }

  /** The loop over all blocks. */
  method ExpandBlocks(rom: Rom, ghost image: seq<u8>, h: Header, blocks: seq<BlockDesc>, ghost chunks: seq<seq<u8>>,
                      stage: array<u8>, dst: array<u8>)
    returns (rc: int, ghost staged: seq<seq<u8>>)
    requires stage.Length >= STAGE_CAPACITY && stage != dst && dst.Length + BLOB_BLOCK_SIZE <= TWO32
    requires HeaderOk(h, dst.Length) && |blocks| == h.blockCount
    modifies rom, stage, dst
    ensures rc in {0, -4, -5, -6} && (rc == -4 ==> !AllBlocksOk(h, blocks))
    ensures rc == 0 ==> AllBlocksOk(h, blocks) && AllAccepted(blocks, staged)
                        && Unpack(old(dst[..]), blocks, staged) == Some(dst[..])
    ensures Intact(rom.sense, image, h, blocks, chunks, old(dst[..])) ==> rc == 0 && staged == chunks
    ensures forall k :: h.uncompressedSize <= k < dst.Length ==> dst[k] == old(dst[k])
  {
    hide Checksum, Run, HeaderOk, Unpack, Place, BlockOk, Clean, Contiguous, OutputOk;
    ghost var before := dst[..];
    staged := [];
    var i := 0;
    UnpackNothing(before);
    while i < |blocks|
      invariant 0 <= i <= |blocks| && |staged| == i
      invariant forall k :: 0 <= k < i ==> BlockOk(h, k, blocks[k]) && Accepted(blocks[k], staged[k])
      invariant Unpack(before, blocks[..i], staged) == Some(dst[..])
      invariant Intact(rom.sense, image, h, blocks, chunks, before) ==> staged == chunks[..i]
      invariant forall k :: h.uncompressedSize <= k < dst.Length ==> dst[k] == old(dst[k])
    {
      ghost var now := dst[..];
      ghost var chunk;
      if Intact(rom.sense, image, h, blocks, chunks, before) {
        IntactBlock(rom.sense, image, h, blocks, chunks, before, i);
      }
      rc, chunk := ExpandBlock(rom, image, h, blocks[i], i, stage, dst);
      if rc != 0 {
        return;
      }
      AppendUnpack(before, blocks, staged, chunk, i);
      staged := staged + [chunk];
      i := i + 1;
    }
    assert blocks[..|blocks|] == blocks;
    rc := 0;
  }

  lemma UnpackNothing(buffer: seq<u8>)
    ensures Unpack(buffer, [], []) == Some(buffer)
  {
  }

  lemma AppendUnpack(before: seq<u8>, blocks: seq<BlockDesc>, staged: seq<seq<u8>>, chunk: seq<u8>, i: nat)
    requires i < |blocks| && |staged| == i
    ensures Unpack(before, blocks[..i + 1], staged + [chunk])
            == match Unpack(before, blocks[..i], staged)
               case None => None
               case Some(now) => Place(now, blocks[i], chunk)
  {
    assert blocks[..i + 1][..i] == blocks[..i] && (staged + [chunk])[..i] == staged;
  }

  /** In an intact payload, the next block passes its checks and decodes. */
  lemma IntactBlock(sense: (nat, nat) -> u8, image: seq<u8>, h: Header, blocks: seq<BlockDesc>,
                    chunks: seq<seq<u8>>, before: seq<u8>, i: nat)
    requires Intact(sense, image, h, blocks, chunks, before) && i < |blocks|
    ensures |chunks| == |blocks| && BlockOk(h, i, blocks[i])
    ensures var src := Add32(h.dataOff, blocks[i].compressedOff);
            && Genuine(sense, image, src, blocks[i].compressedSize, blocks[i].compressedCrc)
            && chunks[i] == image[src..src + blocks[i].compressedSize]
    ensures match Unpack(before, blocks[..i], chunks[..i])
            case None => false
            case Some(now) => Place(now, blocks[i], chunks[i]).Some?
  {
    hide Checksum, HeaderOk, Unpack, Place, BlockOk, Contiguous, OutputOk, Clean;
    var after :| Expands(h, blocks, chunks, before, after);
    assert Accepted(blocks[i], chunks[i]);
    UnpackPrefix(before, blocks, chunks, i + 1);
    UnpackStep(before, blocks, chunks, i);
  }

  /** The compressed blocks must follow each other and add up to the size in the header. */
  method CheckContiguous(h: Header, blocks: seq<BlockDesc>) returns (rc: int)
    ensures rc == if Contiguous(h, blocks) then 0 else -4
  {
    hide Add32;
    var compressedOff: u32 := 0;
    var i := 0;
    while i < |blocks|
      invariant 0 <= i <= |blocks| && compressedOff == CompressedEnd(blocks, i)
      invariant forall k :: 0 <= k < i ==> blocks[k].compressedOff == CompressedEnd(blocks, k)
    {
      if blocks[i].compressedOff != compressedOff {
        return BLOB_ERR_SIZE;
      }
      compressedOff := Add32(compressedOff, blocks[i].compressedSize);
      i := i + 1;
    }
    if compressedOff != h.compressedSize {
      return BLOB_ERR_SIZE;
    }
    return 0;
  }

  /**
   * Expands a payload. Whatever the ROM returned, success means that every block was staged with its checksum
   * and the buffer is their unpacking; and an intact payload in a clean ROM is always expanded.
   */
  method Expand(rom: Rom, ghost image: seq<u8>, h: Header, blocks: seq<BlockDesc>, ghost chunks: seq<seq<u8>>,
                stage: array<u8>, dst: array<u8>)
    returns (rc: int)
    requires stage.Length >= STAGE_CAPACITY && stage != dst && dst.Length + BLOB_BLOCK_SIZE <= TWO32
    requires HeaderOk(h, dst.Length) ==> |blocks| == h.blockCount
    modifies rom, stage, dst
    ensures rc == 0 ==> exists staged :: Expands(h, blocks, staged, old(dst[..]), dst[..])
    ensures Intact(rom.sense, image, h, blocks, chunks, old(dst[..]))
            ==> rc == 0 && Expands(h, blocks, chunks, old(dst[..]), dst[..])
    ensures forall k :: h.uncompressedSize <= k < dst.Length ==> dst[k] == old(dst[k])
    ensures HeaderCode(h, dst.Length) != 0 ==> rc == HeaderCode(h, dst.Length) && dst[..] == old(dst[..])
    ensures HeaderCode(h, dst.Length) == 0 ==> rc in {0, -4, -5, -6, -7}
    ensures HeaderCode(h, dst.Length) == 0 && rc == -4 ==> !AllBlocksOk(h, blocks) || !Contiguous(h, blocks)
    ensures rc == -7 ==> h.uncompressedSize <= 0x8_0000 && h.uncompressedSize <= dst.Length
                         && Checksum(dst[..h.uncompressedSize]) != h.uncompressedCrc
  {
    hide Checksum, Run, HeaderOk, Unpack, AllBlocksOk, AllAccepted, Contiguous, GenuineChunks;
    ghost var before := dst[..];
    rc := CheckHeader(h, dst.Length);
    if rc != 0 {
      return;
    }
    ghost var staged;
    rc, staged := ExpandBlocks(rom, image, h, blocks, chunks, stage, dst);
    if rc != 0 {
      return;
    }
    rc := CheckContiguous(h, blocks);
    if rc != 0 {
      return;
    }
    SizeWithin(h, dst.Length);
    if h.uncompressedSize <= BLOB_OUTPUT_CRC_LIMIT {
      assert dst[..][..h.uncompressedSize] == dst[..h.uncompressedSize];
      var crc := ComputeChecksum(dst, h.uncompressedSize);
      if crc != h.uncompressedCrc {
        return BLOB_ERR_OUTPUT_CRC;
      }
    }
    assert Expands(h, blocks, staged, before, dst[..]);
  }

  lemma SizeWithin(h: Header, capacity: u32)
    requires HeaderOk(h, capacity)
    ensures h.uncompressedSize <= capacity
  {
  }
}
