/** The XMODEM receiver: what it does with the bytes on the line. */
module Xmodem {
  import opened Words

  const SOH: u8 := 0x01
  const STX: u8 := 0x02
  const EOT: u8 := 0x04
  const ACK: u8 := 0x06
  const NAK: u8 := 0x15
  const CAN: u8 := 0x18
  const CRC_CHAR: u8 := 0x43
  const SHORT_BLOCK := 128
  const LONG_BLOCK := 1024

  /** What one wait for a character yields; a line with nothing more on it times out for ever. */
  datatype Rx = Byte(b: u8) | Timeout

  // ---------- CRC-16 ----------

  /** Exclusive or of the low `n` bits. */
  function XorBits(n: nat, x: nat, y: nat): nat
    decreases n
  {
    if n == 0 then 0 else 2 * XorBits(n - 1, x / 2, y / 2) + if x % 2 == y % 2 then 0 else 1
  }

  lemma {:induction false} XorBitsBelow(n: nat, x: nat, y: nat)
    ensures XorBits(n, x, y) < Pow2(n)
    decreases n
  {
    if n > 0 {
      XorBitsBelow(n - 1, x / 2, y / 2);
    }
  }

  lemma {:induction false} XorBitsCancel(n: nat, a: nat, b: nat, k: nat)
    requires a < Pow2(n) && b < Pow2(n)
             && (XorBits(n, a, k) == XorBits(n, b, k) || XorBits(n, k, a) == XorBits(n, k, b))
    ensures a == b
    decreases n
  {
    if n > 0 {
      XorBitsCancel(n - 1, a / 2, b / 2, k / 2);
    }
  }

  lemma Word16()
    ensures Pow2(16) == 0x1_0000
  {
    assert Pow2(8) == 0x100;
    assert Pow2(12) == 0x1000;
  }

  function Xor16(x: u16, y: u16): u16 {
    XorBitsBelow(16, x, y);
    Word16();
    XorBits(16, x, y)
  }

  /** One shift of the register: the bit shifted out decides whether the polynomial is added. */
  function CrcStep(crc: u16): u16 {
    if crc >= 0x8000 then Xor16((2 * crc) % 0x1_0000, 0x1021) else 2 * crc
  }

  function CrcShift(crc: u16, n: nat): u16
    decreases n
  {
    if n == 0 then crc else CrcShift(CrcStep(crc), n - 1)
  }

  /** A byte in the upper half of a word. */
  function Upper(b: u8): u16 {
    var n: int := b;
    0x100 * n
  }

  function CrcByte(crc: u16, b: u8): u16 {
    CrcShift(Xor16(crc, Upper(b)), 8)
  }

  /** The checksum of a block, most significant bit first, starting from 0. */
  function Crc16From(crc: u16, data: seq<u8>): u16
    decreases |data|
  {
    if data == [] then crc else Crc16From(CrcByte(crc, data[0]), data[1..])
  }

  function Crc16(data: seq<u8>): u16 {
    Crc16From(0, data)
  }

  // ---------- What the checksum notices ----------

  lemma Xor16Cancels(a: u16, b: u16, k: u16)
    requires Xor16(a, k) == Xor16(b, k) || Xor16(k, a) == Xor16(k, b)
    ensures a == b
  {
    Word16();
    XorBitsCancel(16, a, b, k);
  }

  lemma Xor16Low(a: u16)
    ensures Xor16(a, 0x1021) % 2 == 1 - a % 2
  {
    hide XorBits, Pow2;
    XorBitsLow(16, a, 0x1021);
  }

  lemma XorBitsLow(n: nat, x: nat, y: nat)
    requires n > 0
    ensures XorBits(n, x, y) % 2 == if x % 2 == y % 2 then 0 else 1
  {
    var rest := XorBits(n - 1, x / 2, y / 2);
    assert XorBits(n, x, y) == 2 * rest + if x % 2 == y % 2 then 0 else 1;
    hide XorBits;
    DivModUnique(2 * rest, 2, rest, 0);
    DivModUnique(2 * rest + 1, 2, rest, 1);
  }

  /** Different registers stay different. */
  lemma StepKeepsApart(a: u16, b: u16)
    requires CrcStep(a) == CrcStep(b)
    ensures a == b
  {
    hide Xor16;
    Xor16Low((2 * a) % 0x1_0000);
    Xor16Low((2 * b) % 0x1_0000);
    if a >= 0x8000 && b >= 0x8000 {
      Xor16Cancels((2 * a) % 0x1_0000, (2 * b) % 0x1_0000, 0x1021);
    }
  }

  lemma {:induction false} ShiftKeepsApart(a: u16, b: u16, n: nat)
    requires CrcShift(a, n) == CrcShift(b, n)
    ensures a == b
    decreases n
  {
    hide CrcStep;
    if n > 0 {
      ShiftKeepsApart(CrcStep(a), CrcStep(b), n - 1);
      StepKeepsApart(a, b);
    }
  }

  lemma {:induction false} SameRestKeepsApart(a: u16, b: u16, data: seq<u8>)
    requires Crc16From(a, data) == Crc16From(b, data)
    ensures a == b
    decreases |data|
  {
    hide Xor16, CrcShift;
    if data != [] {
      SameRestKeepsApart(CrcByte(a, data[0]), CrcByte(b, data[0]), data[1..]);
      ShiftKeepsApart(Xor16(a, Upper(data[0])), Xor16(b, Upper(data[0])), 8);
      Xor16Cancels(a, b, Upper(data[0]));
    }
  }

  lemma {:induction false} ByteChangeNoticed(crc: u16, data: seq<u8>, i: nat, v: u8)
    requires i < |data| && Crc16From(crc, data[i := v]) == Crc16From(crc, data)
    ensures v == data[i]
    decreases |data|
  {
    hide Xor16, CrcShift;
    if i == 0 {
      assert data[i := v][1..] == data[1..];
      SameRestKeepsApart(CrcByte(crc, v), CrcByte(crc, data[0]), data[1..]);
      ShiftKeepsApart(Xor16(crc, Upper(v)), Xor16(crc, Upper(data[0])), 8);
      Xor16Cancels(Upper(v), Upper(data[0]), crc);
    } else {
      assert data[i := v][1..] == data[1..][i - 1 := v];
      ByteChangeNoticed(CrcByte(crc, data[0]), data[1..], i - 1, v);
    }
  }

  /** A block in which one byte was damaged never has the checksum of the original. */
  lemma DamagedByteNoticed(data: seq<u8>, i: nat, v: u8)
    requires i < |data| && v != data[i]
    ensures Crc16(data[i := v]) != Crc16(data)
  {
    hide Crc16From;
    if Crc16(data[i := v]) == Crc16(data) {
      ByteChangeNoticed(0, data, i, v);
    }
  }

  // ---------- The receiver's state and one block ----------

  /** Expected block number, bytes written so far and the room the disk has in all. */
  datatype Sink = Sink(expected: u8, file: seq<u8>, capacity: nat)

  datatype Line = Line(input: seq<Rx>, sink: Sink, sent: seq<u8>)

  function Get(input: seq<Rx>): (r: (Option<u8>, seq<Rx>))
    ensures |r.1| <= |input| && (r.0.Some? ==> |r.1| < |input|)
  {
    if input == [] then (None, []) else if input[0].Byte? then (Some(input[0].b), input[1..]) else (None, input[1..])
  }

  function GetMany(input: seq<Rx>, n: nat): (r: (Option<seq<u8>>, seq<Rx>))
    ensures |r.1| <= |input| && (r.0.Some? ==> |r.0.value| == n)
    decreases n
  {
    if n == 0 then (Some([]), input)
    else
      var (b, rest) := Get(input);
      if b.None? then (None, rest)
      else
        var (bs, rest') := GetMany(rest, n - 1);
        (if bs.None? then None else Some([b.value] + bs.value), rest')
  }

  datatype Status = Ok | LineError | BlockError | WriteError

  /** What a complete block with a correct checksum leads to. */
  function Accept(k: Sink, number: u8, data: seq<u8>): (Sink, Status) {
    if number == k.expected then
      if |k.file| + |data| <= k.capacity then (Sink((k.expected + 1) % 0x100, k.file + data, k.capacity), Ok)
      else (k.(file := k.file + data[..if |k.file| < k.capacity then k.capacity - |k.file| else 0]), WriteError)
    else if number != (k.expected - 1) % 0x100 then (k, BlockError)
    else (k, Ok)
  }

  /** recv_block: the header byte has been read. */
  function Block(input: seq<Rx>, k: Sink, len: nat): (r: (seq<Rx>, Sink, Status))
    ensures |r.0| <= |input|
  {
    var (number, r1) := Get(input);
    if number.None? then (r1, k, LineError)
    else
      var (inverse, r2) := Get(r1);
      if inverse.None? then (r2, k, LineError)
      else if inverse.value != 0xff - number.value then (r2, k, BlockError)
      else Payload(r2, k, len, number.value)
  }

  function Payload(input: seq<Rx>, k: Sink, len: nat, number: u8): (r: (seq<Rx>, Sink, Status))
    ensures |r.0| <= |input|
  {
    var (data, r3) := GetMany(input, len);
    if data.None? then (r3, k, LineError)
    else
      var (hi, r4) := Get(r3);
      if hi.None? then (r4, k, LineError)
      else
        var (lo, r5) := Get(r4);
        if lo.None? then (r5, k, LineError)
        else if Le16(lo.value, hi.value) != Crc16(data.value) then (r5, k, BlockError)
        else
          var (k', status) := Accept(k, number, data.value);
          (r5, k', status)
  }

  // ---------- The session ----------

  datatype Verdict = Running | Finished(code: int)

  /** One turn of the main loop, for the character `ch`. */
  function Turn(l: Line, ch: u8): (r: (Line, Verdict))
    ensures |r.0.input| <= |l.input|
  {
    if ch == EOT then (l.(sent := l.sent + [ACK]), Finished(0))
    else if ch == CAN then (l, Finished(5))
    else
      var (input, sink, status) :=
        if ch == SOH then Block(l.input, l.sink, SHORT_BLOCK)
        else if ch == STX then Block(l.input, l.sink, LONG_BLOCK)
        else (l.input, l.sink, BlockError);
      match status
      case Ok => (Line(input, sink, l.sent + [ACK]), Running)
      case WriteError => (Line(input, sink, l.sent), Finished(3))
      case _ => (Line(input, sink, l.sent + [NAK]), Running)
  }

  /** The next character, however long it takes; None when the line stays silent. */
  function Wait(input: seq<Rx>): (r: (Option<u8>, seq<Rx>))
    ensures |r.1| <= |input| && (r.0.Some? ==> |r.1| < |input|)
    decreases |input|
  {
    if input == [] then (None, []) else if input[0].Byte? then (Some(input[0].b), input[1..]) else Wait(input[1..])
  }

  /** All turns from character `ch` on. */
  function Turns(l: Line, ch: u8): (Line, Verdict)
    decreases |l.input|
  {
    var (l', v) := Turn(l, ch);
    if v.Finished? then (l', v)
    else
      var (next, rest) := Wait(l'.input);
      if next.None? then (l'.(input := rest), Running) else Turns(l'.(input := rest), next.value)
  }

  /** Asking for a transfer until the first character arrives. */
  function Start(l: Line): (Line, Verdict)
    decreases |l.input|
  {
    var asked := l.(sent := l.sent + [CRC_CHAR]);
    if l.input == [] then (asked, Running)
    else if l.input[0].Byte? then Turns(asked.(input := l.input[1..]), l.input[0].b)
    else Start(asked.(input := l.input[1..]))
  }

  // ---------- The program ----------

  lemma CrcNext(crc: u16, data: seq<u8>)
    requires data != []
    ensures Crc16From(crc, data) == Crc16From(CrcByte(crc, data[0]), data[1..])
  {
  }

  lemma CrcDone(crc: u16)
    ensures Crc16From(crc, []) == crc
  {
  }

  /** One byte, bit by bit. */
  method FoldByte(crc0: u16, b: u8) returns (crc: u16)
    ensures crc == CrcByte(crc0, b)
  {
    hide Xor16, CrcShift;
    crc := Xor16(crc0, Upper(b));
    for bit := 0 to 8
      invariant CrcShift(crc, 8 - bit) == CrcByte(crc0, b)
    {
      CrcShiftStep(crc, 8 - bit);
      crc := if crc >= 0x8000 then Xor16((2 * crc) % 0x1_0000, 0x1021) else 2 * crc;
    }
    CrcShiftNone(crc);
  }

  class Receiver {
    var input: seq<Rx>
    var expected: u8
    var file: seq<u8>
    const capacity: nat
    var sent: seq<u8>
    const databuf: array<u8>

    constructor (line: seq<Rx>, room: nat)
      ensures input == line && expected == 1 && file == [] && capacity == room && sent == []
      ensures databuf.Length == LONG_BLOCK && fresh(databuf)
    {
      input, expected, file, capacity, sent := line, 1, [], room, [];
      databuf := new u8[LONG_BLOCK](_ => 0);
    }

    function Now(): Line
      reads this
    {
      Line(input, Sink(expected, file, capacity), sent)
    }

    method GetC() returns (r: Option<u8>)
      modifies this`input
      ensures (r, input) == Get(old(input))
    {
      if input == [] {
        return None;
      }
      r := if input[0].Byte? then Some(input[0].b) else None;
      input := input[1..];
    }

    method PutC(ch: u8)
      modifies this`sent
      ensures sent == old(sent) + [ch]
    {
      sent := sent + [ch];
    }

    /** The checksum over the start of the data buffer. */
    method ComputeCrc(len: nat) returns (crc: u16)
      requires len <= databuf.Length
      ensures crc == Crc16(databuf[..len])
    {
      hide CrcByte, Crc16From;
      ghost var data := databuf[..len];
      crc := 0;
      CrcDone(crc);
      for i := 0 to len
        invariant Crc16From(crc, data[i..]) == Crc16(data)
      {
        CrcNext(crc, data[i..]);
        assert data[i..][1..] == data[i + 1..] && data[i..][0] == databuf[i];
        crc := FoldByte(crc, databuf[i]);
      }
      assert data[len..] == [];
      CrcDone(crc);
    }

    method RecvBytes(len: nat) returns (ok: bool)
      requires len <= databuf.Length
      modifies this`input, databuf
      ensures input == GetMany(old(input), len).1 && ok == GetMany(old(input), len).0.Some?
      ensures ok ==> databuf[..len] == GetMany(old(input), len).0.value
    {
      ghost var goal := GetMany(input, len);
      for i := 0 to len
        invariant GetMany(input, len - i).1 == goal.1 && GetMany(input, len - i).0.Some? == goal.0.Some?
        invariant goal.0.Some? ==> databuf[..i] + GetMany(input, len - i).0.value == goal.0.value
      {
        hide Get;
        var b := GetC();
        if b.None? {
          return false;
        }
        ghost var before := databuf[..i];
        databuf[i] := b.value;
        assert databuf[..i + 1] == before + [b.value];
      }
      ok := true;
    }

    /** recv_block, filling the data buffer on the way. */
    method RecvBlock(len: nat) returns (status: Status)
      requires len <= databuf.Length
      modifies this, databuf
      ensures (input, Now().sink, status) == Block(old(input), old(Now()).sink, len) && sent == old(sent)
    {
      hide Get, GetMany, Crc16, Accept;
      var number := GetC();
      if number.None? {
        return LineError;
      }
      var inverse := GetC();
      if inverse.None? {
        return LineError;
      }
      if inverse.value != 0xff - number.value {
        return BlockError;
      }
      status := RecvPayload(len, number.value);
    }

    method RecvPayload(len: nat, number: u8) returns (status: Status)
      requires len <= databuf.Length
      modifies this, databuf
      ensures (input, Now().sink, status) == Payload(old(input), old(Now()).sink, len, number) && sent == old(sent)
    {
      hide Get, GetMany, Crc16, Crc16From, Accept;
      var ok := RecvBytes(len);
      if !ok {
        return LineError;
      }
      var hi := GetC();
      if hi.None? {
        return LineError;
      }
      var lo := GetC();
      if lo.None? {
        return LineError;
      }
      var crc := ComputeCrc(len);
      if Le16(lo.value, hi.value) != crc {
        return BlockError;
      }
      status := Store(len, number);
    }

    /** The end of recv_block: write the block, or recognise a repeat. */
    method Store(len: nat, number: u8) returns (status: Status)
      requires len <= databuf.Length
      modifies this
      ensures (Now().sink, status) == Accept(old(Now()).sink, number, databuf[..len]) && sent == old(sent)
              && input == old(input)
    {
      if number == expected {
        if |file| + len > capacity {
          var part := if |file| < capacity then capacity - |file| else 0;
          assert databuf[..len][..part] == databuf[..part];
          file := file + databuf[..part];
          return WriteError;
        }
        file := file + databuf[..len];
        expected := (expected + 1) % 0x100;
      } else if number != (expected - 1) % 0x100 {
        return BlockError;
      }
      return Ok;
    }

    /** The main loop, from its first character on, until it ends or the line has nothing more. */
    method Serve(first: u8) returns (v: Verdict)
      requires databuf.Length == LONG_BLOCK
      modifies this, databuf
      ensures (Now(), v) == Turns(old(Now()), first)
    {
      hide Block;
      var ch := first;
      while true
        invariant Turns(Now(), ch) == Turns(old(Now()), first)
        decreases |input|
      {
        if ch == EOT {
          PutC(ACK);
          return Finished(0);
        }
        if ch == CAN {
          return Finished(5);
        }
        var status := BlockError;
        if ch == SOH {
          status := RecvBlock(SHORT_BLOCK);
        } else if ch == STX {
          status := RecvBlock(LONG_BLOCK);
        }
        match status {
          case Ok => PutC(ACK);
          case WriteError => return Finished(3);
          case _ => PutC(NAK);
        }
        var next := Listen();
        if next.None? {
          return Running;
        }
        ch := next.value;
      }
    }

    method Listen() returns (r: Option<u8>)
      modifies this`input
      ensures (r, input) == Wait(old(input)) && (r.Some? ==> |input| < |old(input)|)
    {
      while input != []
        invariant Wait(input) == Wait(old(input)) && |input| <= |old(input)|
      {
        r := GetC();
        if r.Some? {
          return;
        }
      }
      r := None;
    }

    /** The whole program after the file is open. */
    method Session() returns (v: Verdict)
      requires databuf.Length == LONG_BLOCK
      modifies this, databuf
      ensures (Now(), v) == Start(old(Now()))
    {
      hide Turns;
      while true
        invariant Start(Now()) == Start(old(Now()))
        decreases |input|
      {
        PutC(CRC_CHAR);
        if input == [] {
          return Running;
        }
        var ch := GetC();
        if ch.Some? {
          v := Serve(ch.value);
          return;
        }
      }
    }
  }

  lemma CrcShiftStep(crc: u16, n: nat)
    requires n > 0
    ensures CrcShift(crc, n) == CrcShift(CrcStep(crc), n - 1)
  {
  }

  lemma CrcShiftNone(crc: u16)
    ensures CrcShift(crc, 0) == crc
  {
  }
}
