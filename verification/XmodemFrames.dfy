/** What the receiver's main loop makes of frames, whole, damaged or cut off, and of bytes that are no frame at all. */
module XmodemFrames {
  import opened Words
  import opened Xmodem

  // ---------- Frames on the line ----------

  predicate IsBlock(data: seq<u8>) {
    |data| == SHORT_BLOCK || |data| == LONG_BLOCK
  }

  function Header(data: seq<u8>): u8 {
    if |data| == SHORT_BLOCK then SOH else STX
  }

  /** A data frame after its header byte. */
  function FrameTail(number: u8, data: seq<u8>): seq<u8> {
    [number, 0xff - number] + data + [Crc16(data) / 0x100, Crc16(data) % 0x100]
  }

  function AsBytes(bytes: seq<u8>): (r: seq<Rx>)
    ensures |r| == |bytes| && forall i :: 0 <= i < |bytes| ==> r[i] == Byte(bytes[i])
  {
    seq(|bytes|, i requires 0 <= i < |bytes| => Byte(bytes[i]))
  }

  lemma {:induction false} GetManyBytes(data: seq<u8>, rest: seq<Rx>)
    ensures GetMany(AsBytes(data) + rest, |data|) == (Some(data), rest)
    decreases |data|
  {
    if data == [] {
      assert AsBytes(data) + rest == rest;
    } else {
      assert (AsBytes(data) + rest)[1..] == AsBytes(data[1..]) + rest;
      GetManyBytes(data[1..], rest);
      assert [data[0]] + data[1..] == data;
    }
  }

  lemma GetByte(b: u8, rest: seq<Rx>)
    ensures Get([Byte(b)] + rest) == (Some(b), rest)
  {
  }

  lemma TailParts(number: u8, data: seq<u8>, rest: seq<Rx>)
    ensures AsBytes(FrameTail(number, data)) + rest ==
            [Byte(number)] + ([Byte(0xff - number)] +
                              (AsBytes(data) + ([Byte(Crc16(data) / 0x100)] + ([Byte(Crc16(data) % 0x100)] + rest))))
  {
    hide Crc16;
  }

  /** A whole frame is understood for what it is. */
  lemma FrameUnderstood(number: u8, data: seq<u8>, rest: seq<Rx>, k: Sink)
    ensures Block(AsBytes(FrameTail(number, data)) + rest, k, |data|) ==
            (rest, Accept(k, number, data).0, Accept(k, number, data).1)
  {
    hide Get, GetMany, Crc16, Crc16From, Accept, FrameTail, Payload;
    TailParts(number, data, rest);
    var end := [Byte(Crc16(data) / 0x100)] + ([Byte(Crc16(data) % 0x100)] + rest);
    GetByte(number, [Byte(0xff - number)] + (AsBytes(data) + end));
    GetByte(0xff - number, AsBytes(data) + end);
    PayloadUnderstood(number, data, rest, k);
  }

  lemma PayloadUnderstood(number: u8, data: seq<u8>, rest: seq<Rx>, k: Sink)
    ensures var end := [Byte(Crc16(data) / 0x100)] + ([Byte(Crc16(data) % 0x100)] + rest);
            Payload(AsBytes(data) + end, k, |data|, number) ==
              (rest, Accept(k, number, data).0, Accept(k, number, data).1)
  {
    hide Get, GetMany, Crc16, Crc16From, Accept;
    var hi, lo := Crc16(data) / 0x100, Crc16(data) % 0x100;
    var end := [Byte(hi)] + ([Byte(lo)] + rest);
    GetManyBytes(data, end);
    GetByte(hi, [Byte(lo)] + rest);
    GetByte(lo, rest);
  }

  /** The main loop on a whole frame: written or recognised as a repeat, and acknowledged. */
  lemma FrameTurn(l: Line, number: u8, data: seq<u8>, rest: seq<Rx>)
    requires IsBlock(data)
    ensures var (k, status) := Accept(l.sink, number, data);
            Turn(l.(input := AsBytes(FrameTail(number, data)) + rest), Header(data)) ==
            match status
            case Ok => (Line(rest, k, l.sent + [ACK]), Running)
            case WriteError => (Line(rest, k, l.sent), Finished(3))
            case _ => (Line(rest, k, l.sent + [NAK]), Running)
  {
    hide Block, Accept, FrameTail;
    FrameUnderstood(number, data, rest, l.sink);
  }

  /** Whatever else arrives, the file and the expected number stay as they are unless a block was accepted. */
  lemma FailedBlockChangesNothing(input: seq<Rx>, k: Sink, len: nat)
    requires Block(input, k, len).2 == LineError || Block(input, k, len).2 == BlockError
    ensures Block(input, k, len).1 == k
  {
    hide Get, GetMany, Crc16;
  }

  // ---------- The receiver between two frames ----------

  /** Waiting for a character and serving everything from it on. */
  function Hear(l: Line): (Line, Verdict) {
    var (next, rest) := Wait(l.input);
    if next.None? then (l.(input := rest), Running) else Turns(l.(input := rest), next.value)
  }

  lemma TurnThenHear(l: Line, ch: u8)
    ensures var (l', v) := Turn(l, ch); Turns(l, ch) == if v.Finished? then (l', v) else Hear(l')
  {
    hide Turn, Wait;
  }

  lemma HearByte(l: Line, b: u8, rest: seq<Rx>)
    ensures Hear(l.(input := [Byte(b)] + rest)) == Turns(l.(input := rest), b)
  {
    hide Turns;
    assert ([Byte(b)] + rest)[1..] == rest;
  }

  lemma HearSilence(l: Line)
    ensures Hear(l.(input := [])) == (l.(input := []), Running)
  {
  }

  lemma BytesSplit(b: u8, bytes: seq<u8>, rest: seq<Rx>)
    ensures AsBytes([b] + bytes) + rest == [Byte(b)] + (AsBytes(bytes) + rest)
  {
  }

  // ---------- Stray bytes ----------

  /** Bytes the main loop only answers with NAK. */
  predicate Plain(b: u8) {
    b != SOH && b != STX && b != EOT && b != CAN
  }

  predicate AllPlain(bytes: seq<u8>) {
    forall i :: 0 <= i < |bytes| ==> Plain(bytes[i])
  }

  function Naks(n: nat): (r: seq<u8>)
    ensures |r| == n && ACK !in r
  {
    seq(n, _ => NAK)
  }

  lemma NaksNext(sent: seq<u8>, n: nat)
    requires n > 0
    ensures (sent + [NAK]) + Naks(n - 1) == sent + Naks(n)
  {
  }

  lemma PlainTurn(l: Line, ch: u8)
    requires Plain(ch)
    ensures Turn(l, ch) == (l.(sent := l.sent + [NAK]), Running)
  {
  }

  /** Bytes that mean nothing are refused one by one. */
  lemma {:induction false} StrayBytes(l: Line, bytes: seq<u8>, rest: seq<Rx>)
    requires AllPlain(bytes)
    ensures Hear(l.(input := AsBytes(bytes) + rest)) == Hear(l.(input := rest, sent := l.sent + Naks(|bytes|)))
    decreases |bytes|
  {
    hide Turns, Turn, Hear, Plain;
    if bytes == [] {
      assert AsBytes(bytes) + rest == rest && l.sent + Naks(0) == l.sent;
    } else {
      var input := AsBytes(bytes[1..]) + rest;
      assert bytes == [bytes[0]] + bytes[1..];
      BytesSplit(bytes[0], bytes[1..], rest);
      HearByte(l, bytes[0], input);
      PlainTurn(l.(input := input), bytes[0]);
      TurnThenHear(l.(input := input), bytes[0]);
      StrayBytes(l.(sent := l.sent + [NAK]), bytes[1..], rest);
      NaksNext(l.sent, |bytes|);
    }
  }

  /** The first byte that is a control character. */
  function FirstControl(bytes: seq<u8>): (r: nat)
    ensures r <= |bytes| && AllPlain(bytes[..r]) && (r < |bytes| ==> !Plain(bytes[r]))
    decreases |bytes|
  {
    if bytes == [] || !Plain(bytes[0]) then 0
    else
      FirstControlNext(bytes, FirstControl(bytes[1..]));
      1 + FirstControl(bytes[1..])
  }

  lemma FirstControlNext(bytes: seq<u8>, n: nat)
    requires bytes != [] && Plain(bytes[0]) && n <= |bytes| - 1 && AllPlain(bytes[1..][..n])
    ensures AllPlain(bytes[..1 + n])
  {
    var start, tail := bytes[..1 + n], bytes[1..][..n];
    forall i | 0 <= i < |start| ensures Plain(start[i]) {
      if i > 0 {
        assert start[i] == tail[i - 1];
      }
    }
  }

  lemma BytesCut(bytes: seq<u8>, j: nat, rest: seq<Rx>)
    requires j < |bytes|
    ensures AsBytes(bytes) + rest == AsBytes(bytes[..j]) + ([Byte(bytes[j])] + (AsBytes(bytes[j + 1..]) + rest))
  {
  }

  /** Whatever arrives, the loop comes to its first control character, having refused all bytes before it. */
  lemma StrayUntilControl(l: Line, bytes: seq<u8>, rest: seq<Rx>)
    ensures var j := FirstControl(bytes);
            j < |bytes| ==>
              Hear(l.(input := AsBytes(bytes) + rest)) ==
              Turns(l.(input := AsBytes(bytes[j + 1..]) + rest, sent := l.sent + Naks(j)), bytes[j])
  {
    var j := FirstControl(bytes);
    hide Turns, Hear, Plain, FirstControl;
    if j < |bytes| {
      var input := AsBytes(bytes[j + 1..]) + rest;
      BytesCut(bytes, j, rest);
      StrayBytes(l, bytes[..j], [Byte(bytes[j])] + input);
      HearByte(l.(sent := l.sent + Naks(j)), bytes[j], input);
    }
  }

  /** `x` occurs before any `y`. */
  ghost predicate Before(bytes: seq<u8>, x: u8, y: u8) {
    exists j :: 0 <= j < |bytes| && bytes[j] == x && y !in bytes[..j]
  }

  predicate NoStart(bytes: seq<u8>) {
    SOH !in bytes && STX !in bytes
  }

  lemma BeforeIsFirst(bytes: seq<u8>)
    requires NoStart(bytes)
    ensures var j := FirstControl(bytes);
            && (Before(bytes, EOT, CAN) <==> j < |bytes| && bytes[j] == EOT)
            && (Before(bytes, CAN, EOT) <==> j < |bytes| && bytes[j] == CAN)
  {
    var j := FirstControl(bytes);
    hide FirstControl;
    forall i | 0 <= i < j ensures Plain(bytes[i]) {
      assert bytes[..j][i] == bytes[i];
    }
    if j < |bytes| {
      assert bytes[j] in bytes;
    }
    FirstOfTwo(bytes, j, EOT, CAN);
    FirstOfTwo(bytes, j, CAN, EOT);
    hide Before, Plain;
  }

  lemma FirstOfTwo(bytes: seq<u8>, j: nat, x: u8, y: u8)
    requires j <= |bytes| && x != y && (j < |bytes| ==> bytes[j] == x || bytes[j] == y)
    requires forall i :: 0 <= i < j ==> bytes[i] != x && bytes[i] != y
    ensures Before(bytes, x, y) <==> j < |bytes| && bytes[j] == x
  {
    if Before(bytes, x, y) {
      var i :| 0 <= i < |bytes| && bytes[i] == x && y !in bytes[..i];
      if j < i {
        assert bytes[..i][j] == bytes[j];
      }
    }
  }

  /**
   * Bytes with no start character among them: the transfer ends as if complete if and only if an EOT comes before
   * any CAN, and as cancelled if and only if a CAN comes first. Otherwise each byte is refused. Nothing is written.
   */
  lemma StrayOutcome(l: Line, bytes: seq<u8>, rest: seq<Rx>)
    requires NoStart(bytes)
    ensures var (l', v) := Hear(l.(input := AsBytes(bytes) + rest));
            && (Before(bytes, EOT, CAN) ==> v == Finished(0) && l'.sink == l.sink)
            && (Before(bytes, CAN, EOT) ==> v == Finished(5) && l'.sink == l.sink)
            && (!Before(bytes, EOT, CAN) && !Before(bytes, CAN, EOT) ==>
                  (l', v) == Hear(l.(input := rest, sent := l.sent + Naks(|bytes|))))
  {
    var j := FirstControl(bytes);
    BeforeIsFirst(bytes);
    StrayUntilControl(l, bytes, rest);
    hide Hear, Before, FirstControl, Block;
    if j == |bytes| {
      assert bytes[..j] == bytes;
      StrayBytes(l, bytes, rest);
    } else {
      assert bytes[j] in bytes;
      var l1 := l.(input := AsBytes(bytes[j + 1..]) + rest, sent := l.sent + Naks(j));
      TurnThenHear(l1, bytes[j]);
    }
  }

  // ---------- A start character out of place ----------

  function Bytes(s: seq<Rx>): (r: seq<u8>)
    requires forall i :: 0 <= i < |s| ==> s[i].Byte?
    ensures |r| == |s|
  {
    seq(|s|, i requires 0 <= i < |s| => s[i].b)
  }

  predicate Ready(input: seq<Rx>, n: nat) {
    n <= |input| && forall i :: 0 <= i < n ==> input[i].Byte?
  }

  lemma {:induction false} GetManyIff(input: seq<Rx>, n: nat)
    ensures GetMany(input, n).0.Some? <==> Ready(input, n)
    ensures Ready(input, n) ==> GetMany(input, n) == (Some(Bytes(input[..n])), input[n..])
    decreases n
  {
    if n > 0 && input != [] && input[0].Byte? {
      GetManyIff(input[1..], n - 1);
      if Ready(input[1..], n - 1) {
        assert forall i :: 0 < i < n ==> input[i] == input[1..][i - 1];
        assert Bytes(input[..n]) == [input[0].b] + Bytes(input[1..][..n - 1]);
        assert input[1..][n - 1..] == input[n..];
      }
      if Ready(input, n) {
        assert forall i :: 0 <= i < n - 1 ==> input[1..][i] == input[i + 1];
      }
    }
  }

  /** What lies ahead is the rest of a frame with `len` data bytes. */
  predicate FrameAhead(input: seq<Rx>, len: nat) {
    Ready(input, len + 4) && Bytes(input[..len + 4]) == FrameTail(input[0].b, Bytes(input[2..len + 2]))
  }

  /** It carries the block wanted next or the one before. */
  predicate Wanted(k: Sink, number: u8) {
    number == k.expected || number == (k.expected - 1) % 0x100
  }

  lemma FrameAheadSplit(input: seq<Rx>, len: nat)
    requires FrameAhead(input, len)
    ensures input == AsBytes(FrameTail(input[0].b, Bytes(input[2..len + 2]))) + input[len + 4..]
  {
    hide FrameTail;
    var tail := FrameTail(input[0].b, Bytes(input[2..len + 2]));
    forall i | 0 <= i < len + 4 ensures input[i] == AsBytes(tail)[i] {
      assert Bytes(input[..len + 4])[i] == input[i].b;
    }
  }

  lemma PayloadTaken(input: seq<Rx>, k: Sink, len: nat, number: u8)
    requires Payload(input, k, len, number).2 == Ok || Payload(input, k, len, number).2 == WriteError
    ensures Ready(input, len + 2) && Wanted(k, number)
    ensures Le16(input[len + 1].b, input[len].b) == Crc16(Bytes(input[..len]))
  {
    GetManyIff(input, len);
    hide GetMany, Crc16;
    assert Ready(input, len);
    var r3 := input[len..];
    assert |r3| >= 1 && r3[0].Byte? && r3[1..] == input[len + 1..];
  }

  lemma BlockTaken(input: seq<Rx>, k: Sink, len: nat)
    requires Block(input, k, len).2 == Ok || Block(input, k, len).2 == WriteError
    ensures FrameAhead(input, len) && Wanted(k, input[0].b)
  {
    hide Payload, Crc16;
    assert input[1..][1..] == input[2..];
    var r2 := input[2..];
    PayloadTaken(r2, k, len, input[0].b);
    forall i | 0 <= i < len + 4 ensures input[i].Byte? {
      if i >= 2 {
        assert input[i] == r2[i - 2];
      }
    }
    var data := Bytes(input[2..len + 2]);
    assert r2[..len] == input[2..len + 2];
    assert r2[len] == input[len + 2] && r2[len + 1] == input[len + 3];
    WordParts(input[len + 2].b, input[len + 3].b);
    TailIs(Bytes(input[..len + 4]), data);
  }

  lemma WordParts(hi: u8, lo: u8)
    ensures Le16(lo, hi) / 0x100 == hi && Le16(lo, hi) % 0x100 == lo
  {
  }

  lemma TailIs(bytes: seq<u8>, data: seq<u8>)
    requires |bytes| == |data| + 4 && bytes[2..|data| + 2] == data && bytes[1] == 0xff - bytes[0]
    requires bytes[|data| + 2] == Crc16(data) / 0x100 && bytes[|data| + 3] == Crc16(data) % 0x100
    ensures bytes == FrameTail(bytes[0], data)
  {
    hide Crc16;
  }

  /**
   * A start character, wherever it comes from: the bytes after it are stored or recognised if and only if they are
   * the rest of a frame with the block wanted next or the one before; else one NAK is sent and nothing is written.
   */
  lemma StartOutcome(l: Line, ch: u8)
    requires ch == SOH || ch == STX
    ensures var (l', v) := Turn(l, ch);
            var len := if ch == SOH then SHORT_BLOCK else LONG_BLOCK;
            if FrameAhead(l.input, len) && Wanted(l.sink, l.input[0].b) then
              var (k, status) := Accept(l.sink, l.input[0].b, Bytes(l.input[2..len + 2]));
              && l'.sink == k && (status == Ok || status == WriteError)
              && (if status == Ok then l'.sent == l.sent + [ACK] && v == Running else v == Finished(3))
            else l'.sink == l.sink && l'.sent == l.sent + [NAK] && v == Running
  {
    var len := if ch == SOH then SHORT_BLOCK else LONG_BLOCK;
    hide Block, FrameTail, Accept;
    if FrameAhead(l.input, len) && Wanted(l.sink, l.input[0].b) {
      FrameAheadSplit(l.input, len);
      FrameUnderstood(l.input[0].b, Bytes(l.input[2..len + 2]), l.input[len + 4..], l.sink);
      WantedAccepted(l.sink, l.input[0].b, Bytes(l.input[2..len + 2]));
    } else {
      var status := Block(l.input, l.sink, len).2;
      if status == Ok || status == WriteError {
        BlockTaken(l.input, l.sink, len);
      } else {
        FailedBlockChangesNothing(l.input, l.sink, len);
      }
    }
  }

  lemma WantedAccepted(k: Sink, number: u8, data: seq<u8>)
    requires Wanted(k, number)
    ensures Accept(k, number, data).1 == Ok || Accept(k, number, data).1 == WriteError
  {
  }

  // ---------- Damaged frames ----------

  /** A whole data frame. */
  function Frame(number: u8, data: seq<u8>): seq<u8> {
    [Header(data)] + FrameTail(number, data)
  }

  /** One byte of the data or of the checksum damaged: the frame is read to its end and refused. */
  lemma DamagedDataRefused(number: u8, data: seq<u8>, i: nat, v: u8, rest: seq<Rx>, k: Sink)
    requires var tail := FrameTail(number, data); 2 <= i < |tail| && v != tail[i]
    ensures Block(AsBytes(FrameTail(number, data)[i := v]) + rest, k, |data|) == (rest, k, BlockError)
  {
    hide Crc16;
    var bad := FrameTail(number, data)[i := v];
    var data' := if i < |data| + 2 then data[i - 2 := v] else data;
    var hi, lo := bad[|data| + 2], bad[|data| + 3];
    assert bad == [number, 0xff - number] + data' + [hi, lo];
    WrongCrc(data, i, v, hi, lo);
    WrongCrcRefused(number, data', hi, lo, rest, k);
  }

  lemma WrongCrc(data: seq<u8>, i: nat, v: u8, hi: u8, lo: u8)
    requires 2 <= i < |data| + 4
    requires i < |data| + 2 ==> v != data[i - 2] && hi == Crc16(data) / 0x100 && lo == Crc16(data) % 0x100
    requires i >= |data| + 2 ==> hi != Crc16(data) / 0x100 || lo != Crc16(data) % 0x100
    ensures Le16(lo, hi) != Crc16(if i < |data| + 2 then data[i - 2 := v] else data)
  {
    hide Crc16;
    WordParts(hi, lo);
    if i < |data| + 2 {
      DamagedByteNoticed(data, i - 2, v);
    }
  }

  lemma WrongCrcRefused(number: u8, data: seq<u8>, hi: u8, lo: u8, rest: seq<Rx>, k: Sink)
    requires Le16(lo, hi) != Crc16(data)
    ensures Block(AsBytes([number, 0xff - number] + data + [hi, lo]) + rest, k, |data|) == (rest, k, BlockError)
  {
    hide Get, GetMany, Crc16, Accept;
    var end := [Byte(hi)] + ([Byte(lo)] + rest);
    var body := AsBytes(data) + end;
    assert AsBytes([number, 0xff - number] + data + [hi, lo]) + rest == [Byte(number)] + ([Byte(0xff - number)] + body);
    GetByte(number, [Byte(0xff - number)] + body);
    GetByte(0xff - number, body);
    GetManyBytes(data, end);
    GetByte(hi, [Byte(lo)] + rest);
    GetByte(lo, rest);
  }

  /** A damaged number or complement: the frame is refused at once, and its data is left on the line. */
  lemma DamagedNumberRefused(number: u8, inverse: u8, input: seq<Rx>, k: Sink, len: nat)
    requires inverse != 0xff - number
    ensures Block([Byte(number)] + ([Byte(inverse)] + input), k, len) == (input, k, BlockError)
  {
    hide Get, Payload;
    GetByte(number, [Byte(inverse)] + input);
    GetByte(inverse, input);
  }

  /** A frame that stops half-way is given up at the pause, whatever came of it. */
  lemma CutFrameRefused(body: seq<u8>, len: nat, rest: seq<Rx>, k: Sink)
    requires |body| < len + 4 && (|body| >= 2 ==> body[1] == 0xff - body[0])
    ensures Block(AsBytes(body) + ([Timeout] + rest), k, len) == (rest, k, LineError)
  {
    hide GetMany, Get, Payload;
    var n, pause := |body|, [Timeout] + rest;
    GetPause(rest);
    assert body[0..n] == body;
    if n == 0 {
      assert AsBytes(body) + pause == pause;
    } else {
      CutOne(body, 0, n, pause);
      GetByte(body[0], AsBytes(body[1..n]) + pause);
      if n == 1 {
        assert AsBytes(body[1..1]) + pause == pause;
      } else {
        CutOne(body, 1, n, pause);
        GetByte(body[1], AsBytes(body[2..n]) + pause);
        assert Block(AsBytes(body) + pause, k, len) == Payload(AsBytes(body[2..n]) + pause, k, len, body[0]);
        CutPayload(body[2..n], len, rest, k, body[0]);
      }
    }
  }

  lemma GetPause(rest: seq<Rx>)
    ensures Get([Timeout] + rest) == (None, rest)
  {
  }

  lemma CutOne(bytes: seq<u8>, i: nat, n: nat, rest: seq<Rx>)
    requires i < n <= |bytes|
    ensures AsBytes(bytes[i..n]) + rest == [Byte(bytes[i])] + (AsBytes(bytes[i + 1..n]) + rest)
  {
  }

  lemma CutPayload(got: seq<u8>, len: nat, rest: seq<Rx>, k: Sink, number: u8)
    requires |got| < len + 2
    ensures Payload(AsBytes(got) + ([Timeout] + rest), k, len, number) == (rest, k, LineError)
  {
    hide Crc16, GetMany, Get;
    var pause := [Timeout] + rest;
    GetPause(rest);
    if |got| < len {
      GetManyCut(got, len, rest);
    } else if |got| == len {
      GetManyBytes(got, pause);
    } else {
      var data, hi := got[..len], got[len];
      assert AsBytes(got) + pause == AsBytes(data) + ([Byte(hi)] + pause);
      GetManyBytes(data, [Byte(hi)] + pause);
      GetByte(hi, pause);
    }
  }

  lemma {:induction false} GetManyCut(data: seq<u8>, n: nat, rest: seq<Rx>)
    requires |data| < n
    ensures GetMany(AsBytes(data) + ([Timeout] + rest), n) == (None, rest)
    decreases |data|
  {
    if data == [] {
      assert AsBytes(data) + ([Timeout] + rest) == [Timeout] + rest;
    } else {
      assert (AsBytes(data) + ([Timeout] + rest))[1..] == AsBytes(data[1..]) + ([Timeout] + rest);
      GetManyCut(data[1..], n - 1, rest);
    }
  }

  // ---------- What arrives ----------

  /**
   * What the line makes of a frame: the frame as it was sent; as many bytes as a frame has, but not those of one;
   * fewer bytes and then a pause; or bytes that begin no frame at all.
   */
  datatype Delivery = Intact | Garbled(bytes: seq<u8>) | Broken(bytes: seq<u8>) | Noise(bytes: seq<u8>)

  function Wire(frame: seq<u8>, d: Delivery): seq<Rx> {
    match d
    case Intact => AsBytes(frame)
    case Garbled(bytes) => AsBytes(bytes)
    case Broken(bytes) => AsBytes(bytes) + [Timeout]
    case Noise(bytes) => AsBytes(bytes)
  }

  /** The first byte announces a frame. */
  predicate Starts(bytes: seq<u8>) {
    bytes != [] && (bytes[0] == SOH || bytes[0] == STX)
  }

  /** How many data bytes a start character announces. */
  function Span(h: u8): nat {
    if h == SOH then SHORT_BLOCK else LONG_BLOCK
  }

  /** Number and complement have arrived and do not go together. */
  predicate Mismatched(bytes: seq<u8>) {
    |bytes| >= 3 && bytes[2] != 0xff - bytes[1]
  }

  /** The checksum at the end is not that of the data. */
  predicate WrongSum(bytes: seq<u8>)
    requires |bytes| >= 5
  {
    Le16(bytes[|bytes| - 1], bytes[|bytes| - 2]) != Crc16(bytes[3..|bytes| - 2])
  }

  /**
   * Corruption the receiver is sure to notice: number and complement do not match, or the checksum is wrong, or bytes
   * are missing. Where it loses the boundaries of the frame, because the header is gone or number and complement do
   * not match, none of the bytes that it then reads one by one may be a control character.
   */
  predicate Noticed(d: Delivery) {
    match d
    case Intact => true
    case Garbled(bytes) =>
      && Starts(bytes) && |bytes| == Span(bytes[0]) + 5
      && (if Mismatched(bytes) then AllPlain(bytes[3..]) else WrongSum(bytes))
    case Broken(bytes) =>
      Starts(bytes) && |bytes| < Span(bytes[0]) + 5 && (Mismatched(bytes) ==> AllPlain(bytes[3..]))
    case Noise(bytes) => AllPlain(bytes)
  }

  /** How many times it then asks again. */
  function Complaints(d: Delivery): nat {
    match d
    case Intact => 0
    case Garbled(bytes) => if Mismatched(bytes) then |bytes| - 2 else 1
    case Broken(bytes) => if Mismatched(bytes) then |bytes| - 2 else 1
    case Noise(bytes) => |bytes|
  }

  /** The refusal of a block by the main loop. */
  lemma RefusedHeard(l: Line, h: u8, input: seq<Rx>, rest: seq<Rx>, status: Status)
    requires h == SOH || h == STX
    requires Block(input, l.sink, Span(h)) == (rest, l.sink, status) && (status == LineError || status == BlockError)
    ensures Hear(l.(input := [Byte(h)] + input)) == Hear(l.(input := rest, sent := l.sent + [NAK]))
  {
    hide Block, Hear, Turns;
    HearByte(l, h, input);
    TurnThenHear(l.(input := input), h);
  }

  lemma ThreeBytes(bytes: seq<u8>, rest: seq<Rx>)
    requires |bytes| >= 3
    ensures AsBytes(bytes) + rest ==
            [Byte(bytes[0])] + ([Byte(bytes[1])] + ([Byte(bytes[2])] + (AsBytes(bytes[3..]) + rest)))
  {
  }

  lemma FirstByte(bytes: seq<u8>, rest: seq<Rx>)
    requires bytes != []
    ensures AsBytes(bytes) + rest == [Byte(bytes[0])] + (AsBytes(bytes[1..]) + rest)
  {
  }

  /** After a number and a complement that do not match the loop reads the rest as characters. */
  lemma MismatchHeard(l: Line, bytes: seq<u8>, rest: seq<Rx>)
    requires Starts(bytes) && Mismatched(bytes)
    ensures Hear(l.(input := AsBytes(bytes) + rest)) ==
            Hear(l.(input := AsBytes(bytes[3..]) + rest, sent := l.sent + [NAK]))
  {
    hide Hear, Block;
    var input := AsBytes(bytes[3..]) + rest;
    ThreeBytes(bytes, rest);
    DamagedNumberRefused(bytes[1], bytes[2], input, l.sink, Span(bytes[0]));
    RefusedHeard(l, bytes[0], [Byte(bytes[1])] + ([Byte(bytes[2])] + input), input, BlockError);
  }

  /** And if they are plain it complains about each of them. */
  lemma SpilledHeard(l: Line, bytes: seq<u8>, rest: seq<Rx>)
    requires Starts(bytes) && Mismatched(bytes) && AllPlain(bytes[3..])
    ensures Hear(l.(input := AsBytes(bytes) + rest)) == Hear(l.(input := rest, sent := l.sent + Naks(|bytes| - 2)))
  {
    hide Hear, AllPlain;
    MismatchHeard(l, bytes, rest);
    StrayBytes(l.(sent := l.sent + [NAK]), bytes[3..], rest);
    NaksNext(l.sent, |bytes| - 2);
  }

  lemma WrongSumHeard(l: Line, bytes: seq<u8>, rest: seq<Rx>)
    requires Starts(bytes) && |bytes| == Span(bytes[0]) + 5 && !Mismatched(bytes) && WrongSum(bytes)
    ensures Hear(l.(input := AsBytes(bytes) + rest)) == Hear(l.(input := rest, sent := l.sent + [NAK]))
  {
    hide Hear, Block, Crc16;
    var data, hi, lo := bytes[3..|bytes| - 2], bytes[|bytes| - 2], bytes[|bytes| - 1];
    FirstByte(bytes, rest);
    assert bytes[1..] == [bytes[1], 0xff - bytes[1]] + data + [hi, lo];
    WrongCrcRefused(bytes[1], data, hi, lo, rest, l.sink);
    RefusedHeard(l, bytes[0], AsBytes(bytes[1..]) + rest, rest, BlockError);
  }

  lemma PauseHeard(l: Line, rest: seq<Rx>)
    ensures Hear(l.(input := [Timeout] + rest)) == Hear(l.(input := rest))
  {
    hide Turns;
    assert ([Timeout] + rest)[1..] == rest;
  }

  lemma BrokenHeard(l: Line, bytes: seq<u8>, rest: seq<Rx>)
    requires Noticed(Broken(bytes))
    ensures Hear(l.(input := AsBytes(bytes) + ([Timeout] + rest))) ==
            Hear(l.(input := rest, sent := l.sent + Naks(Complaints(Broken(bytes)))))
  {
    hide Hear, Block, AllPlain;
    if Mismatched(bytes) {
      SpilledHeard(l, bytes, [Timeout] + rest);
      PauseHeard(l.(sent := l.sent + Naks(|bytes| - 2)), rest);
    } else {
      FirstByte(bytes, [Timeout] + rest);
      CutFrameRefused(bytes[1..], Span(bytes[0]), rest, l.sink);
      RefusedHeard(l, bytes[0], AsBytes(bytes[1..]) + ([Timeout] + rest), rest, LineError);
      OneNak(l.sent);
    }
  }

  lemma PauseLast(bytes: seq<Rx>, rest: seq<Rx>)
    ensures bytes + [Timeout] + rest == bytes + ([Timeout] + rest)
  {
  }

  lemma OneNak(sent: seq<u8>)
    ensures sent + Naks(1) == sent + [NAK]
  {
  }

  /** The main loop on noticed corruption of any frame: it asks again and is then where it was before. */
  lemma DamageHeard(l: Line, frame: seq<u8>, d: Delivery, rest: seq<Rx>)
    requires !d.Intact? && Noticed(d)
    ensures Hear(l.(input := Wire(frame, d) + rest)) == Hear(l.(input := rest, sent := l.sent + Naks(Complaints(d))))
  {
    hide Hear, AllPlain, WrongSum, Mismatched;
    match d
    case Garbled(bytes) =>
      OneNak(l.sent);
      if Mismatched(bytes) {
        SpilledHeard(l, bytes, rest);
      } else {
        WrongSumHeard(l, bytes, rest);
      }
    case Broken(bytes) =>
      PauseLast(AsBytes(bytes), rest);
      BrokenHeard(l, bytes, rest);
    case Noise(bytes) =>
      StrayBytes(l, bytes, rest);
  }

  // ---------- One byte changed, or bytes missing at the end ----------

  lemma TailLength(number: u8, data: seq<u8>)
    ensures |FrameTail(number, data)| == |data| + 4 && |Frame(number, data)| == |data| + 5
  {
    hide Crc16;
  }

  /** One changed byte in the data or the checksum is always noticed. */
  lemma ChangedByteNoticed(number: u8, data: seq<u8>, at: nat, v: u8)
    requires var frame := Frame(number, data); IsBlock(data) && 3 <= at < |frame| && v != frame[at]
    ensures Noticed(Garbled(Frame(number, data)[at := v])) && Complaints(Garbled(Frame(number, data)[at := v])) == 1
  {
    hide Crc16;
    var bad := Frame(number, data)[at := v];
    var data' := if at < |data| + 3 then data[at - 3 := v] else data;
    assert bad[3..|bad| - 2] == data';
    WrongCrc(data, at - 1, v, bad[|data| + 3], bad[|data| + 4]);
  }

  /** So is a frame of which bytes are missing at the end. */
  lemma CutFrameNoticed(number: u8, data: seq<u8>, n: nat)
    requires IsBlock(data) && 0 < n < |Frame(number, data)|
    ensures Noticed(Broken(Frame(number, data)[..n])) && Complaints(Broken(Frame(number, data)[..n])) == 1
  {
    hide Crc16;
  }

  /** The bytes the loop reads one by one when it has lost the boundaries of a frame. */
  function Spilled(frame: seq<u8>, at: nat, v: u8): seq<u8>
    requires at < 3 <= |frame|
  {
    if at == 0 then frame[0 := v] else frame[3..]
  }

  lemma ChangedNumberMismatched(number: u8, data: seq<u8>, at: nat, v: u8)
    requires 1 <= at < 3 && v != Frame(number, data)[at]
    ensures var bad := Frame(number, data)[at := v];
            Starts(bad) && Mismatched(bad) && bad[3..] == Frame(number, data)[3..]
  {
    hide Crc16;
  }

  /**
   * A damaged header, number or complement, and no start character among the bytes spilled: the receiver ends with
   * success if and only if an EOT byte comes before any CAN byte there, as cancelled if and only if a CAN comes
   * first, and otherwise asks again. It writes nothing. (What a start character does is said by `StartOutcome`.)
   */
  lemma DamagedHeaderEndsTransfer(l: Line, number: u8, data: seq<u8>, at: nat, v: u8)
    requires IsBlock(data) && at < 3 && v != Frame(number, data)[at] && NoStart(Spilled(Frame(number, data), at, v))
    ensures var (l', verdict) := Hear(l.(input := AsBytes(Frame(number, data)[at := v])));
            var bytes := Spilled(Frame(number, data), at, v);
            && l'.sink == l.sink
            && (verdict == Finished(0) <==> Before(bytes, EOT, CAN))
            && (verdict == Finished(5) <==> Before(bytes, CAN, EOT))
            && (!Before(bytes, EOT, CAN) && !Before(bytes, CAN, EOT) ==>
                  verdict == Running && l'.sent == l.sent + Naks(|bytes| + if at == 0 then 0 else 1))
  {
    hide Hear, Crc16, NoStart, Before, FrameTail, Frame;
    TailLength(number, data);
    var frame := Frame(number, data);
    var bytes := Spilled(frame, at, v);
    var l1 := if at == 0 then l else l.(sent := l.sent + [NAK]);
    if at > 0 {
      ChangedNumberMismatched(number, data, at, v);
      MismatchHeard(l, frame[at := v], []);
    }
    assert AsBytes(frame[at := v]) + [] == AsBytes(frame[at := v]);
    assert AsBytes(bytes) + [] == AsBytes(bytes);
    StrayOutcome(l1, bytes, []);
    NotBoth(bytes);
    NaksNext(l.sent, |bytes| + 1);
    HearSilence(l1.(sent := l1.sent + Naks(|bytes|)));
  }

  lemma NotBoth(bytes: seq<u8>)
    ensures !Before(bytes, EOT, CAN) || !Before(bytes, CAN, EOT)
  {
  }

  // ---------- EOT ----------

  lemma EndHeard(l: Line, rest: seq<Rx>)
    ensures Hear(l.(input := AsBytes([EOT]) + rest)) == (l.(input := rest, sent := l.sent + [ACK]), Finished(0))
  {
    hide Hear, Turns;
    assert AsBytes([EOT]) + rest == [Byte(EOT)] + rest;
    HearByte(l, EOT, rest);
    TurnThenHear(l.(input := rest), EOT);
  }

  /** A whole data frame: written or recognised as a repeat, and acknowledged. */
  lemma FrameHeard(l: Line, number: u8, data: seq<u8>, rest: seq<Rx>)
    requires IsBlock(data)
    ensures var (k, status) := Accept(l.sink, number, data);
            Hear(l.(input := AsBytes(Frame(number, data)) + rest)) ==
            match status
            case Ok => Hear(Line(rest, k, l.sent + [ACK]))
            case WriteError => (Line(rest, k, l.sent), Finished(3))
            case _ => Hear(Line(rest, k, l.sent + [NAK]))
  {
    hide Hear, Header, Accept, FrameTail, Turn;
    var input := AsBytes(FrameTail(number, data)) + rest;
    BytesSplit(Header(data), FrameTail(number, data), rest);
    HearByte(l, Header(data), input);
    TurnThenHear(l.(input := input), Header(data));
    FrameTurn(l, number, data, rest);
  }
}
