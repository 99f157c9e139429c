/**
 * The LZ4 block format as the loader reads it: what a stream is, what bytes it is written as,
 * and what output it stands for. Nothing here mentions cursors or buffers; `Lz4Decoder` does.
 */
module Lz4Format {
  import opened Words

  const MIN_MATCH := 4

  /** Literals followed by a copy of `matchLen` bytes from `offset` bytes back. */
  datatype Sequence = Sequence(literals: seq<u8>, offset: u16, matchLen: nat)

  /**
   * A block may end with literals only, or directly after a match. In the token of a closing run of
   * literals the match nibble is ignored.
   */
  datatype Ending = AfterMatch | Literals(bytes: seq<u8>, nibble: u8)

  datatype Stream = Stream(sequences: seq<Sequence>, ending: Ending)

  predicate WellFormedSequence(s: Sequence) {
    s.offset >= 1 && s.matchLen >= MIN_MATCH
  }

  predicate WellFormed(s: Stream) {
    && (forall i :: 0 <= i < |s.sequences| ==> WellFormedSequence(s.sequences[i]))
    && (s.ending.Literals? ==> s.ending.nibble < 16)
  }

  // ---------- The bytes of a stream ----------

  /** Bytes that continue a saturated length nibble: 255 as long as possible, then the rest. */
  function LengthBytes(n: nat): (r: seq<u8>)
    ensures |r| >= 1
  {
    if n < 255 then [n] else [255] + LengthBytes(n - 255)
  }

  function Nibble(n: nat): (r: u8)
    ensures r < 16
  {
    if n < 15 then n else 15
  }

  function Extension(n: nat): seq<u8> {
    if n < 15 then [] else LengthBytes(n - 15)
  }

  function SerializeMatch(offset: u16, matchLen: nat): (r: seq<u8>)
    requires matchLen >= MIN_MATCH
    ensures r != []
  {
    [offset % 256, offset / 256] + Extension(matchLen - MIN_MATCH)
  }

  function SerializeSequence(s: Sequence): (r: seq<u8>)
    requires WellFormedSequence(s)
    ensures r != []
  {
    [Nibble(|s.literals|) * 16 + Nibble(s.matchLen - MIN_MATCH)]
    + Extension(|s.literals|) + s.literals
    + SerializeMatch(s.offset, s.matchLen)
  }

  function SerializeEnding(e: Ending): seq<u8>
    requires e.Literals? ==> e.nibble < 16
  {
    match e
    case AfterMatch => []
    case Literals(bytes, nibble) => [Nibble(|bytes|) * 16 + nibble] + Extension(|bytes|) + bytes
  }

  function Serialize(s: Stream): seq<u8>
    requires WellFormed(s)
    decreases |s.sequences|
  {
    if s.sequences == [] then SerializeEnding(s.ending)
    else SerializeSequence(s.sequences[0]) + Serialize(Stream(s.sequences[1..], s.ending))
  }

  // ---------- The output of a stream ----------

  /** `n` more bytes of `out`, continuing its last `offset` bytes periodically. */
  function Periodic(out: seq<u8>, offset: nat, n: nat): (r: seq<u8>)
    requires 1 <= offset <= |out|
    ensures |r| == n
  {
    seq(n, k requires 0 <= k < n => out[|out| - offset + k % offset])
  }

  /** The offsets never reach behind the first byte of the history. */
  ghost predicate InReach(history: seq<u8>, s: Stream)
    requires WellFormed(s)
    decreases |s.sequences|
  {
    s.sequences == [] ||
    (var q := s.sequences[0];
     q.offset <= |history + q.literals| &&
     InReach(history + q.literals + Periodic(history + q.literals, q.offset, q.matchLen),
             Stream(s.sequences[1..], s.ending)))
  }

  /** History followed by the decompressed block. */
  ghost function Meaning(history: seq<u8>, s: Stream): (out: seq<u8>)
    requires WellFormed(s) && InReach(history, s)
    ensures history <= out
    decreases |s.sequences|
  {
    if s.sequences == [] then
      history + if s.ending.Literals? then s.ending.bytes else []
    else
      var q := s.sequences[0];
      Meaning(history + q.literals + Periodic(history + q.literals, q.offset, q.matchLen),
              Stream(s.sequences[1..], s.ending))
  }
}
