/** Packing a payload into blocks that share their output history, and getting it back. */
module BlobRoundTrip {
  import opened Words
  import opened Crc32
  import opened Lz4Format
  import opened Lz4Decoder
  import opened Lz4RoundTrip
  import opened BlobFormat

  function Min(a: nat, b: nat): nat {
    if a < b then a else b
  }

  /** Where block `i` of a payload of `n` bytes starts. */
  function BlockStart(n: nat, i: nat): (r: nat)
    ensures r <= n
  {
    Min(i * BLOB_BLOCK_SIZE, n)
  }

  function BlockCount(n: nat): nat {
    (n + BLOB_BLOCK_SIZE - 1) / BLOB_BLOCK_SIZE
  }

  /** Stream `s` stands for block `i` of the payload, given all earlier blocks as history. */
  ghost predicate PacksBlock(payload: seq<u8>, i: nat, s: Stream) {
    var start, end := BlockStart(|payload|, i), BlockStart(|payload|, i + 1);
    && WellFormed(s) && |Serialize(s)| <= STAGE_CAPACITY
    && Fits(payload[..start], s, end - start)
    && Meaning(payload[..start], s) == payload[..end]
  }

  ghost predicate Packs(payload: seq<u8>, streams: seq<Stream>) {
    |streams| == BlockCount(|payload|) && forall i :: 0 <= i < |streams| ==> PacksBlock(payload, i, streams[i])
  }

  /** The descriptor covers block `i` of a payload of `n` bytes: 4096 bytes, or what is left. */
  ghost predicate Fills(n: nat, i: nat, b: BlockDesc) {
    b.uncompressedOff == BlockStart(n, i) && b.uncompressedOff + b.uncompressedSize == BlockStart(n, i + 1)
  }

  // ---------- The printer ----------

  function Chunks(streams: seq<Stream>): (r: seq<seq<u8>>)
    requires forall s :: s in streams ==> WellFormed(s)
    ensures |r| == |streams|
  {
    seq(|streams|, i requires 0 <= i < |streams| => Serialize(streams[i]))
  }

  function TotalSize(chunks: seq<seq<u8>>): nat {
    if chunks == [] then 0 else TotalSize(chunks[..|chunks| - 1]) + |chunks[|chunks| - 1]|
  }

  lemma {:induction false} TotalGrows(chunks: seq<seq<u8>>, i: nat)
    requires i <= |chunks|
    ensures TotalSize(chunks[..i]) <= TotalSize(chunks)
    decreases |chunks|
  {
    if i == |chunks| {
      assert chunks[..i] == chunks;
    } else {
      var last := |chunks| - 1;
      TotalGrows(chunks[..last], i);
      assert chunks[..last][..i] == chunks[..i];
    }
  }

  function Describe(n: nat, chunks: seq<seq<u8>>, i: nat): BlockDesc
    requires n + BLOB_BLOCK_SIZE <= TWO32 && TotalSize(chunks) < TWO32 && i < |chunks|
  {
    TotalGrows(chunks, i);
    TotalGrows(chunks, i + 1);
    assert chunks[..i + 1][..i] == chunks[..i];
    BlockDesc(BlockStart(n, i), BlockStart(n, i + 1) - BlockStart(n, i), TotalSize(chunks[..i]), |chunks[i]|,
              Checksum(chunks[i]))
  }

  function BlockTable(n: nat, chunks: seq<seq<u8>>): (r: seq<BlockDesc>)
    requires n + BLOB_BLOCK_SIZE <= TWO32 && TotalSize(chunks) < TWO32
    ensures |r| == |chunks|
  {
    seq(|chunks|, i requires 0 <= i < |chunks| => Describe(n, chunks, i))
  }

  function HeaderFor(payload: seq<u8>, chunks: seq<seq<u8>>, flags: u32): Header
    requires |payload| + BLOB_BLOCK_SIZE <= TWO32 && TotalSize(chunks) < TWO32
  {
    var n := BlockCount(|payload|);
    Header(BLOB_MAGIC, BLOB_HEADER_SIZE, BLOB_VERSION, flags, |payload|, TotalSize(chunks), BLOB_BLOCK_SIZE, n,
           BLOB_HEADER_SIZE, BLOB_HEADER_SIZE + n * BLOB_BLOCK_DESC_SIZE, Checksum(payload))
  }

  // ---------- Unpacking what was packed ----------

  lemma PrintedHeaderOk(payload: seq<u8>, chunks: seq<seq<u8>>, flags: u32, capacity: u32)
    requires |payload| + BLOB_BLOCK_SIZE <= TWO32 && TotalSize(chunks) < TWO32
    requires FlagsOk(flags) && |payload| <= capacity
    ensures HeaderOk(HeaderFor(payload, chunks, flags), capacity)
  {
  }

  lemma {:induction false} PrintedCompressedEnd(n: nat, chunks: seq<seq<u8>>, i: nat)
    requires n + BLOB_BLOCK_SIZE <= TWO32 && TotalSize(chunks) < TWO32 && i <= |chunks|
    ensures CompressedEnd(BlockTable(n, chunks), i) == TotalSize(chunks[..i])
  {
    hide Checksum;
    if i > 0 {
      PrintedCompressedEnd(n, chunks, i - 1);
      assert chunks[..i][..i - 1] == chunks[..i - 1];
      TotalGrows(chunks, i);
    }
  }

  lemma PrintedContiguous(payload: seq<u8>, chunks: seq<seq<u8>>, flags: u32)
    requires |payload| + BLOB_BLOCK_SIZE <= TWO32 && TotalSize(chunks) < TWO32
    ensures Contiguous(HeaderFor(payload, chunks, flags), BlockTable(|payload|, chunks))
  {
    hide Checksum;
    var blocks := BlockTable(|payload|, chunks);
    forall i | 0 <= i < |blocks| ensures blocks[i].compressedOff == CompressedEnd(blocks, i) {
      PrintedCompressedEnd(|payload|, chunks, i);
    }
    PrintedCompressedEnd(|payload|, chunks, |chunks|);
    assert chunks[..|chunks|] == chunks;
  }

  lemma PrintedBlockOk(payload: seq<u8>, chunks: seq<seq<u8>>, flags: u32, i: nat)
    requires |payload| + BLOB_BLOCK_SIZE <= TWO32 && TotalSize(chunks) < TWO32
    requires |chunks| == BlockCount(|payload|) && i < |chunks| && |chunks[i]| <= STAGE_CAPACITY
    ensures BlockOk(HeaderFor(payload, chunks, flags), i, BlockTable(|payload|, chunks)[i])
  {
    hide Checksum, TotalSize;
    BlocksReach(|payload|, i);
    TotalNext(chunks, i);
    assert BlockTable(|payload|, chunks)[i] == Describe(|payload|, chunks, i);
  }

  lemma TotalNext(chunks: seq<seq<u8>>, i: nat)
    requires i < |chunks|
    ensures TotalSize(chunks[..i]) + |chunks[i]| == TotalSize(chunks[..i + 1]) <= TotalSize(chunks)
  {
    TotalGrows(chunks, i + 1);
    assert chunks[..i + 1][..i] == chunks[..i];
  }

  /** Where the blocks of `n` bytes begin and end. */
  lemma BlocksReach(n: nat, i: nat)
    requires i < BlockCount(n)
    ensures i * BLOB_BLOCK_SIZE < n && BlockStart(n, i) == i * BLOB_BLOCK_SIZE
    ensures BlockStart(n, i) <= BlockStart(n, i + 1) <= n && BlockStart(n, i + 1) - BlockStart(n, i) <= BLOB_BLOCK_SIZE
  {
  }

  /** Each block's place in the buffer is filled with its part of the payload. */
  lemma {:induction false} UnpackPrinted(payload: seq<u8>, streams: seq<Stream>, before: seq<u8>, i: nat)
    requires Packs(payload, streams) && |payload| <= |before| && |payload| + BLOB_BLOCK_SIZE <= TWO32
    requires TotalSize(Chunks(streams)) < TWO32 && i <= |streams|
    ensures var end := BlockStart(|payload|, i);
            Unpack(before, BlockTable(|payload|, Chunks(streams))[..i], Chunks(streams)[..i])
            == Some(payload[..end] + before[end..])
  {
    hide Serialize, Run, Checksum, WellFormed, Fits, Meaning;
    var chunks := Chunks(streams);
    var blocks := BlockTable(|payload|, chunks);
    if i == 0 {
      assert payload[..0] + before[0..] == before;
    } else {
      UnpackPrinted(payload, streams, before, i - 1);
      UnpackStep(before, blocks, chunks, i - 1);
      PlacePrinted(payload, streams[i - 1], before, blocks[i - 1], i - 1);
    }
  }

  lemma PlacePrinted(payload: seq<u8>, s: Stream, before: seq<u8>, b: BlockDesc, i: nat)
    requires PacksBlock(payload, i, s) && |payload| <= |before|
    requires Fills(|payload|, i, b)
    ensures var start, end := BlockStart(|payload|, i), BlockStart(|payload|, i + 1);
            Place(payload[..start] + before[start..], b, Serialize(s)) == Some(payload[..end] + before[end..])
  {
    hide Serialize, Run, WellFormed, Fits, Meaning;
    var start, end := BlockStart(|payload|, i), BlockStart(|payload|, i + 1);
    var now := payload[..start] + before[start..];
    assert now[..start] == payload[..start] && now[end..] == before[end..];
    DecodesEveryStream(s, payload[..start], end - start);
  }

  /**
   * Round trip: a payload packed block by block, each block free to refer to all output before it, passes every
   * check of the expander and comes back, whatever the buffer held.
   */
  lemma PackedPayloadExpands(payload: seq<u8>, streams: seq<Stream>, flags: u32, before: seq<u8>)
    requires Packs(payload, streams) && FlagsOk(flags)
    requires |payload| <= |before| && |before| + BLOB_BLOCK_SIZE <= TWO32
    requires TotalSize(Chunks(streams)) < TWO32
    ensures var chunks := Chunks(streams);
            Expands(HeaderFor(payload, chunks, flags), BlockTable(|payload|, chunks), chunks, before,
                    payload + before[|payload|..])
  {
    hide Serialize, Checksum, WellFormed, Fits, Meaning, Unpack, HeaderOk, BlockOk, Contiguous;
    var chunks := Chunks(streams);
    var h, blocks := HeaderFor(payload, chunks, flags), BlockTable(|payload|, chunks);
    PrintedHeaderOk(payload, chunks, flags, |before|);
    PrintedContiguous(payload, chunks, flags);
    forall i | 0 <= i < |blocks| ensures BlockOk(h, i, blocks[i]) && Accepted(blocks[i], chunks[i]) {
      assert PacksBlock(payload, i, streams[i]);
      PrintedBlockOk(payload, chunks, flags, i);
    }
    UnpackPrinted(payload, streams, before, |streams|);
    LastBlockEnds(|payload|);
    assert blocks[..|blocks|] == blocks && chunks[..|chunks|] == chunks;
    assert payload[..|payload|] == payload;
    assert (payload + before[|payload|..])[..|payload|] == payload;
  }

  lemma LastBlockEnds(n: nat)
    ensures BlockStart(n, BlockCount(n)) == n
  {
  }

  // ---------- Earlier output ----------

  /** Decoding a block writes its own range and nothing else: no earlier output is ever rewritten. */
  lemma PlaceWritesOwnRange(buffer: seq<u8>, b: BlockDesc, chunk: seq<u8>)
    requires Place(buffer, b, chunk).Some?
    ensures var r := Place(buffer, b, chunk).value;
            && |r| == |buffer| && r[..b.uncompressedOff] == buffer[..b.uncompressedOff]
            && r[b.uncompressedOff + b.uncompressedSize..] == buffer[b.uncompressedOff + b.uncompressedSize..]
  {
    hide Run;
    var off: nat, size: nat := b.uncompressedOff, b.uncompressedSize;
    var history := buffer[..off];
    var out := Run(chunk, history, size).value;
    DecodeIsExact(chunk, history, size, out);
    var s :| WellFormed(s) && Serialize(s) == chunk && Fits(history, s, size) && Meaning(history, s) == out;
    assert history <= out && |out| == off + size;
    var r := out + buffer[off + size..];
    assert r[..off] == history && r[off + size..] == buffer[off + size..];
  }

  /** What the blocks produce depends on the staged bytes alone when every block but the last is full. */
  lemma {:induction false} UnpackIgnoresBuffer(n: nat, blocks: seq<BlockDesc>, chunks: seq<seq<u8>>,
                                               x: seq<u8>, y: seq<u8>)
    requires |blocks| == |chunks| && n <= |x| && n <= |y|
    requires forall i :: 0 <= i < |blocks| ==> Fills(n, i, blocks[i])
    ensures var a, b, end := Unpack(x, blocks, chunks), Unpack(y, blocks, chunks), BlockStart(n, |blocks|);
            && (a.Some? <==> b.Some?)
            && (a.Some? ==> |a.value| == |x| && |b.value| == |y| && a.value[..end] == b.value[..end])
    decreases |blocks|
  {
    hide Run;
    if blocks != [] {
      var last := |blocks| - 1;
      UnpackIgnoresBuffer(n, blocks[..last], chunks[..last], x, y);
      var a, b := Unpack(x, blocks[..last], chunks[..last]), Unpack(y, blocks[..last], chunks[..last]);
      if a.Some? {
        assert Fills(n, last, blocks[last]);
        PlaceIgnoresRest(a.value, b.value, blocks[last], chunks[last]);
      }
    }
  }

  lemma PlaceIgnoresRest(x: seq<u8>, y: seq<u8>, b: BlockDesc, chunk: seq<u8>)
    requires b.uncompressedOff + b.uncompressedSize <= |x| && b.uncompressedOff + b.uncompressedSize <= |y|
    requires x[..b.uncompressedOff] == y[..b.uncompressedOff]
    ensures var p, q, end := Place(x, b, chunk), Place(y, b, chunk), b.uncompressedOff + b.uncompressedSize;
            && (p.Some? <==> q.Some?)
            && (p.Some? ==> |p.value| == |x| && |q.value| == |y| && p.value[..end] == q.value[..end])
  {
    hide Run;
    if Place(x, b, chunk).Some? {
      PlaceWritesOwnRange(x, b, chunk);
      PlaceWritesOwnRange(y, b, chunk);
      var out := Run(chunk, x[..b.uncompressedOff], b.uncompressedSize).value;
      var end := b.uncompressedOff + b.uncompressedSize;
      assert Place(x, b, chunk).value[..end] == out && Place(y, b, chunk).value[..end] == out;
    }
  }
}
