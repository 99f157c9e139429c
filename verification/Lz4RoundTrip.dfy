/** The decoder accepts exactly the serialized streams that fit, and what it makes of one is its meaning. */
module Lz4RoundTrip {
  import opened Words
  import opened Lz4Format
  import opened Lz4Decoder

  // ---------- Lengths ----------

  lemma {:induction false} LengthBytesReadBack(n: nat, rest: seq<u8>)
    ensures ReadLengthBytes(LengthBytes(n) + rest) == Some((n, |LengthBytes(n)|))
  {
    if n >= 255 {
      LengthBytesReadBack(n - 255, rest);
      assert (LengthBytes(n) + rest)[1..] == LengthBytes(n - 255) + rest;
    }
  }

  lemma {:induction false} LengthBytesOnly(src: seq<u8>)
    requires ReadLengthBytes(src).Some?
    ensures var (n, used) := ReadLengthBytes(src).value; src[..used] == LengthBytes(n)
  {
    if src[0] == 255 {
      LengthBytesOnly(src[1..]);
      var (n, used) := ReadLengthBytes(src[1..]).value;
      assert src[..used + 1] == [255] + src[1..][..used];
    }
  }

  /** A length is read back from its nibble and extension, whatever follows ... */
  lemma LengthReadBack(n: nat, rest: seq<u8>)
    ensures ReadLength(Extension(n) + rest, Nibble(n)) == Some((n, |Extension(n)|))
  {
    if n >= 15 {
      LengthBytesReadBack(n - 15, rest);
    }
  }

  /** ... and no other bytes are read as that length. */
  lemma LengthOnly(src: seq<u8>, base: u8)
    requires base < 16 && ReadLength(src, base).Some?
    ensures var (n, used) := ReadLength(src, base).value; base == Nibble(n) && src[..used] == Extension(n)
  {
    if base == 15 {
      LengthBytesOnly(src);
    }
  }

  // ---------- One round ----------

  function Token(literals: nat, low: u8): (r: u8)
    requires low < 16
    ensures r / 16 == Nibble(literals) && r % 16 == low
  {
    Nibble(literals) * 16 + low
  }

  lemma MatchReadBack(token: u8, offset: u16, matchLen: nat, rest: seq<u8>, out: seq<u8>, room: nat)
    requires offset >= 1 && matchLen >= MIN_MATCH && token % 16 == Nibble(matchLen - MIN_MATCH)
    ensures MatchStep(token, SerializeMatch(offset, matchLen) + rest, out, room)
            == if offset > |out| || matchLen > room then Fail
               else More(rest, out + Periodic(out, offset, matchLen), room - matchLen)
  {
    var ext := Extension(matchLen - MIN_MATCH);
    var src := SerializeMatch(offset, matchLen) + rest;
    assert src[2..] == ext + rest;
    assert src[2 + |ext|..] == rest;
    assert Le16(src[0], src[1]) == offset;
    LengthReadBack(matchLen - MIN_MATCH, rest);
  }

  lemma SequenceReadBack(q: Sequence, rest: seq<u8>, out: seq<u8>, room: nat)
    requires WellFormedSequence(q)
    ensures Step(SerializeSequence(q) + rest, out, room)
            == if |q.literals| + q.matchLen > room || q.offset > |out + q.literals| then Fail
               else More(rest, out + q.literals + Periodic(out + q.literals, q.offset, q.matchLen),
                         room - |q.literals| - q.matchLen)
  {
    hide ReadLength, MatchStep, Extension, Nibble, Periodic, SerializeMatch;
    var n := |q.literals|;
    var token := Token(n, Nibble(q.matchLen - MIN_MATCH));
    var tail := SerializeMatch(q.offset, q.matchLen) + rest;
    var src := SerializeSequence(q) + rest;
    var head := [token] + Extension(n) + q.literals;
    assert SerializeSequence(q) == head + SerializeMatch(q.offset, q.matchLen);
    assert src == head + tail;
    assert head + tail == [token] + (Extension(n) + (q.literals + tail));
    LengthReadBack(n, q.literals + tail);
    assert src[1 + |Extension(n)|..] == q.literals + tail;
    assert (q.literals + tail)[..n] == q.literals && (q.literals + tail)[n..] == tail;
    if n <= room {
      MatchReadBack(token, q.offset, q.matchLen, rest, out + q.literals, room - n);
    }
  }

  lemma EndingReadBack(e: Ending, out: seq<u8>, room: nat)
    requires e.Literals? && e.nibble < 16
    ensures Step(SerializeEnding(e), out, room) == if |e.bytes| == room then Done(out + e.bytes) else Fail
  {
    var n := |e.bytes|;
    var token := Token(n, e.nibble);
    var src := SerializeEnding(e);
    assert src == [token] + (Extension(n) + e.bytes);
    LengthReadBack(n, e.bytes);
    assert src[1 + |Extension(n)|..] == e.bytes;
  }

  // ---------- Whole blocks ----------

  ghost predicate Fits(history: seq<u8>, s: Stream, room: nat)
    requires WellFormed(s)
  {
    InReach(history, s) && |Meaning(history, s)| == |history| + room
  }

  /** For every stream: the decoder succeeds exactly when the stream fits, with the stream's meaning. */
  lemma {:induction false} DecodesEveryStream(s: Stream, history: seq<u8>, room: nat)
    requires WellFormed(s)
    ensures Run(Serialize(s), history, room)
            == if Fits(history, s, room) then Some(Meaning(history, s)) else None
    decreases |s.sequences|
  {
    hide Step, SerializeSequence, Periodic;
    if s.sequences == [] {
      if s.ending.Literals? {
        EndingReadBack(s.ending, history, room);
      } else {
        assert history + [] == history;
      }
    } else {
      var q, s' := s.sequences[0], Stream(s.sequences[1..], s.ending);
      SequenceReadBack(q, Serialize(s'), history, room);
      if q.offset <= |history + q.literals| {
        var out := history + q.literals + Periodic(history + q.literals, q.offset, q.matchLen);
        if |out| <= |history| + room {
          DecodesEveryStream(s', out, |history| + room - |out|);
        } else if InReach(out, s') {
          assert Meaning(history, s) == Meaning(out, s');
          assert out <= Meaning(out, s');
        }
      }
    }
  }

  lemma MatchOnly(token: u8, src: seq<u8>, out: seq<u8>, room: nat) returns (offset: u16, matchLen: nat)
    requires MatchStep(token, src, out, room).More?
    ensures offset >= 1 && matchLen >= MIN_MATCH && token % 16 == Nibble(matchLen - MIN_MATCH)
    ensures src == SerializeMatch(offset, matchLen) + MatchStep(token, src, out, room).src
  {
    LengthOnly(src[2..], token % 16);
    var (m, used) := ReadLength(src[2..], token % 16).value;
    offset, matchLen := Le16(src[0], src[1]), m + MIN_MATCH;
    assert src == [src[0], src[1]] + src[2..][..used] + src[2 + used..];
  }

  /** A round that goes on is a length, literals and a match. */
  lemma RoundParts(src: seq<u8>, out: seq<u8>, room: nat) returns (n: nat, used: nat)
    requires src != [] && Step(src, out, room).More?
    ensures ReadLength(src[1..], src[0] / 16) == Some((n, used)) && 1 + used + n <= |src| && n <= room
    ensures var rest := src[1 + used..];
            Step(src, out, room) == MatchStep(src[0], rest[n..], out + rest[..n], room - n)
  {
    hide ReadLength, MatchStep;
    var parts := ReadLength(src[1..], src[0] / 16).value;
    n, used := parts.0, parts.1;
  }

  lemma Pieces(src: seq<u8>, used: nat, n: nat)
    requires 1 + used + n <= |src|
    ensures var rest := src[1 + used..];
            src == [src[0]] + src[1..][..used] + rest[..n] + rest[n..]
  {
  }

  lemma SerializedIs(q: Sequence, token: u8, extension: seq<u8>)
    requires WellFormedSequence(q) && Extension(|q.literals|) == extension
    requires token / 16 == Nibble(|q.literals|) && token % 16 == Nibble(q.matchLen - MIN_MATCH)
    ensures SerializeSequence(q) == [token] + extension + q.literals + SerializeMatch(q.offset, q.matchLen)
  {
    hide Extension, Nibble, SerializeMatch;
  }

  lemma SequenceOnly(src: seq<u8>, out: seq<u8>, room: nat) returns (q: Sequence)
    requires src != [] && Step(src, out, room).More?
    ensures WellFormedSequence(q)
    ensures src == SerializeSequence(q) + Step(src, out, room).src
  {
    var n, used := RoundParts(src, out, room);
    LengthOnly(src[1..], src[0] / 16);
    Pieces(src, used, n);
    hide Step, ReadLength, Extension, Periodic, MatchStep, Nibble, SerializeMatch, SerializeSequence;
    var rest := src[1 + used..];
    var offset, matchLen := MatchOnly(src[0], rest[n..], out + rest[..n], room - n);
    q := Sequence(rest[..n], offset, matchLen);
    SerializedIs(q, src[0], src[1..][..used]);
    var head := [src[0]] + src[1..][..used] + rest[..n];
    Associate(head, SerializeMatch(offset, matchLen), Step(src, out, room).src);
  }

  lemma Associate(x: seq<u8>, y: seq<u8>, z: seq<u8>)
    ensures x + (y + z) == x + y + z
  {
  }

  lemma EndingOnly(src: seq<u8>, out: seq<u8>, room: nat) returns (e: Ending)
    requires src != [] && Step(src, out, room).Done?
    ensures e.Literals? && e.nibble < 16 && src == SerializeEnding(e)
  {
    LengthOnly(src[1..], src[0] / 16);
    var (n, used) := ReadLength(src[1..], src[0] / 16).value;
    e := Literals(src[1 + used..], src[0] % 16);
    assert src == [src[0]] + src[1..][..used] + src[1 + used..];
  }

  /** Whatever the decoder accepts parses as a stream. */
  lemma {:induction false} AcceptsOnlyStreams(src: seq<u8>, out: seq<u8>, room: nat) returns (s: Stream)
    requires Run(src, out, room).Some?
    ensures WellFormed(s) && Serialize(s) == src
    decreases |src|
  {
    if src == [] {
      return Stream([], AfterMatch);
    }
    var step := Step(src, out, room);
    if step.Done? {
      var e := EndingOnly(src, out, room);
      s := Stream([], e);
    } else {
      var q := SequenceOnly(src, out, room);
      var s' := AcceptsOnlyStreams(step.src, step.out, step.room);
      s := Stream([q] + s'.sequences, s'.ending);
      assert s.sequences[1..] == s'.sequences;
    }
  }

  /**
   * The decoder is exact: `out` is its result if and only if the source is a well-formed stream that
   * stays in reach, produces exactly `room` bytes and means `out`.
   */
  lemma DecodeIsExact(src: seq<u8>, history: seq<u8>, room: nat, out: seq<u8>)
    ensures Run(src, history, room) == Some(out) <==>
            exists s :: WellFormed(s) && Serialize(s) == src && Fits(history, s, room) && Meaning(history, s) == out
  {
    if Run(src, history, room).Some? {
      var s := AcceptsOnlyStreams(src, history, room);
      DecodesEveryStream(s, history, room);
    }
    forall s | WellFormed(s) && Serialize(s) == src && Fits(history, s, room) && Meaning(history, s) == out
      ensures Run(src, history, room) == Some(out)
    {
      DecodesEveryStream(s, history, room);
    }
  }

  // ---------- An example, byte by byte ----------

  /** Three bytes, five more copied from three back, and two at the end. */
  lemma ExampleBlock()
    ensures var s := Stream([Sequence([97, 98, 99], 3, 5)], Literals([100, 101], 0));
            && WellFormed(s) && Serialize(s) == [0x31, 97, 98, 99, 3, 0, 0x20, 100, 101]
            && Run(Serialize(s), [], 10) == Some([97, 98, 99, 97, 98, 99, 97, 98, 100, 101])
  {
    var q := Sequence([97, 98, 99], 3, 5);
    var s := Stream([q], Literals([100, 101], 0));
    assert SerializeSequence(q) == [0x31, 97, 98, 99, 3, 0];
    assert SerializeEnding(s.ending) == [0x20, 100, 101];
    ExampleMeaning();
    DecodesEveryStream(s, [], 10);
    hide Run, SerializeSequence, SerializeEnding, Meaning;
    assert s.sequences[1..] == [];
  }

  lemma ExampleMeaning()
    ensures var s := Stream([Sequence([97, 98, 99], 3, 5)], Literals([100, 101], 0));
            && WellFormed(s) && Fits([], s, 10)
            && Meaning([], s) == [97, 98, 99, 97, 98, 99, 97, 98, 100, 101]
  {
    var end := Stream([], Literals([100, 101], 0));
    assert [Sequence([97, 98, 99], 3, 5)][1..] == [];
    assert [] + [97, 98, 99] == [97, 98, 99];
    var out: seq<u8> := [97, 98, 99, 97, 98, 99, 97, 98];
    assert [97, 98, 99] + Periodic([97, 98, 99], 3, 5) == out;
    assert Meaning(out, end) == out + [100, 101];
  }

  /** A length that does not fit its nibble: 15, then 255 for each full byte, then the rest. */
  lemma ExampleLength(rest: seq<u8>)
    ensures ReadLength([255, 255, 7] + rest, 15) == Some((15 + 255 + 255 + 7, 3))
    ensures ReadLength([7] + rest, 15) == Some((15 + 7, 1)) && ReadLength([7] + rest, 14) == Some((14, 0))
  {
    var src := [255, 255, 7] + rest;
    assert src[1..] == [255, 7] + rest && src[1..][1..] == [7] + rest;
    assert ReadLengthBytes([7] + rest) == Some((7, 1));
    assert ReadLengthBytes(src[1..]) == Some((7 + 255, 2));
  }
}
