/** The protocol as it is seen on the wire, byte by byte (chapters 7 and 8 of Forsberg's protocol reference). */
module XmodemWire {
  import opened Words
  import opened Xmodem
  import opened XmodemFrames

  // ---------- The checksum is a remainder ----------

  lemma {:induction false} XorSelf(n: nat, x: nat)
    ensures XorBits(n, x, x) == 0
    decreases n
  {
    if n > 0 {
      XorSelf(n - 1, x / 2);
    }
  }

  lemma {:induction false} XorZero(n: nat, y: nat)
    requires y < Pow2(n)
    ensures XorBits(n, 0, y) == y
    decreases n
  {
    if n > 0 {
      XorZero(n - 1, y / 2);
    }
  }

  /** Adding the upper digits of a number to it leaves the lower ones. */
  lemma {:induction false} XorUpper(n: nat, m: nat, hi: nat, up: nat, lo: nat)
    requires lo < Pow2(m) && up == Pow2(m) * hi
    ensures XorBits(m + n, lo + up, up) == lo
    decreases m
  {
    if m == 0 {
      XorSelf(n, hi);
      assert up == hi;
    } else {
      var p := Pow2(m - 1) * hi;
      HalfOf(m, hi);
      hide Pow2, XorBits;
      DivModUnique(lo + up, 2, lo / 2 + p, lo % 2);
      DivModUnique(up, 2, p, 0);
      XorUpper(n, m - 1, hi, p, lo / 2);
      XorBitsStep(m + n, lo + up, up);
    }
  }

  lemma HalfOf(m: nat, hi: nat)
    requires m > 0
    ensures Pow2(m) == 2 * Pow2(m - 1) && Pow2(m) * hi == 2 * (Pow2(m - 1) * hi)
  {
    var q := Pow2(m - 1);
    assert 2 * q * hi == 2 * (q * hi);
  }

  lemma XorBitsStep(n: nat, x: nat, y: nat)
    requires n > 0
    ensures XorBits(n, x, y) == 2 * XorBits(n - 1, x / 2, y / 2) + if x % 2 == y % 2 then 0 else 1
  {
  }

  lemma XorUpper16(c: u16)
    ensures Xor16(c, Upper(c / 0x100)) == c % 0x100
  {
    PowerOfByte();
    hide XorBits, Pow2;
    var hi: int := c / 0x100;
    XorUpper(8, 8, hi, 0x100 * hi, c % 0x100);
  }

  lemma PowerOfByte()
    ensures Pow2(8) == 0x100
  {
  }

  /** Digits that do not reach the top are only moved up. */
  lemma {:induction false} ShiftLow(low: u16, n: nat)
    requires low * Pow2(n) < 0x1_0000
    ensures CrcShift(low, n) == low * Pow2(n)
    decreases n
  {
    if n > 0 {
      var twice: int := 2 * low;
      assert low * Pow2(n) == twice * Pow2(n - 1);
      PowerGrows(twice, n - 1);
      ShiftLow(twice, n - 1);
      CrcShiftStep(low, n);
      hide CrcShift, Xor16;
    } else {
      CrcShiftNone(low);
    }
  }

  lemma PowerGrows(x: nat, n: nat)
    ensures x <= x * Pow2(n)
  {
    assert x * Pow2(n) == x + x * (Pow2(n) - 1);
  }

  lemma {:induction false} FedTogether(crc: u16, x: seq<u8>, y: seq<u8>)
    ensures Crc16From(crc, x + y) == Crc16From(Crc16From(crc, x), y)
    decreases |x|
  {
    hide CrcByte;
    if x == [] {
      assert x + y == y;
    } else {
      assert (x + y)[1..] == x[1..] + y;
      FedTogether(CrcByte(crc, x[0]), x[1..], y);
    }
  }

  /** Feeding a register its own upper byte leaves the lower one, moved up. */
  lemma OwnByte(c: u16)
    ensures CrcByte(c, c / 0x100) == 0x100 * (c % 0x100 as int)
  {
    assert Pow2(8) == 0x100;
    XorUpper16(c);
    ShiftLow(c % 0x100, 8);
    hide Xor16, CrcShift;
  }

  /** The generator is x^16 + x^12 + x^5 + 1, and nothing is added before the first bit or after the last. */
  lemma GeneratorIs()
    ensures Crc16([]) == 0 && Crc16([1]) == 0x1021
  {
    assert Pow2(7) == 0x80 && Pow2(8) == 0x100 && Pow2(16) == 0x1_0000;
    XorZero(16, 0x100);
    XorZero(16, 0x1021);
    ShiftThenOne();
    CrcNext(0, [1]);
    assert [1 as u8][1..] == [];
    CrcDone(CrcByte(0, 1));
    CrcDone(0);
    hide XorBits, CrcShift, Crc16From;
  }

  lemma ShiftThenOne()
    ensures CrcShift(0x100, 8) == CrcStep(0x8000)
  {
    assert Pow2(7) == 0x80;
    ShiftLow(0x100, 7);
    ShiftsJoin(0x100, 7, 1);
    CrcShiftStep(0x8000, 1);
    CrcShiftNone(CrcStep(0x8000));
    hide CrcStep, CrcShift;
  }

  lemma {:induction false} ShiftsJoin(crc: u16, n: nat, k: nat)
    ensures CrcShift(crc, n + k) == CrcShift(CrcShift(crc, n), k)
    decreases n
  {
    hide CrcStep;
    if n > 0 {
      ShiftsJoin(CrcStep(crc), n - 1, k);
    }
  }

  /** A block followed by its checksum, upper byte first, has the remainder 0. */
  lemma ZeroRemainder(data: seq<u8>)
    ensures Crc16(data + [Crc16(data) / 0x100, Crc16(data) % 0x100]) == 0
  {
    hide Crc16From, CrcByte;
    var c := Crc16(data);
    var hi, lo: u8 := c / 0x100, c % 0x100;
    FedTogether(0, data, [hi, lo]);
    OwnByte(c);
    var d: int := 0x100 * lo;
    DivModUnique(d, 0x100, lo, 0);
    OwnByte(d);
    CrcNext(c, [hi, lo]);
    assert [hi, lo][1..] == [lo] && [lo][1..] == [];
    CrcNext(d, [lo]);
    CrcDone(0);
  }

  // ---------- Frames ----------

  /**
   * The bytes of a frame: 1 before 128 bytes and 2 before 1024, the number and its complement, the data, and two more
   * that make the remainder 0.
   */
  predicate IsFrame(f: seq<u8>, number: u8, data: seq<u8>) {
    && |f| == |data| + 5 && ((|data| == 128 && f[0] == 1) || (|data| == 1024 && f[0] == 2))
    && f[1] == number && f[2] + number == 255 && f[3..3 + |data|] == data && Crc16(f[3..]) == 0
  }

  lemma FrameIs(number: u8, data: seq<u8>)
    requires |data| == 128 || |data| == 1024
    ensures IsBlock(data) && IsFrame(Frame(number, data), number, data)
  {
    hide Crc16;
    ZeroRemainder(data);
    var f := Frame(number, data);
    assert f[3..] == data + [Crc16(data) / 0x100, Crc16(data) % 0x100];
  }

  lemma FrameHeard(l: Line, number: u8, data: seq<u8>, rest: seq<Rx>)
    requires IsBlock(data)
    ensures Hear(l.(input := AsBytes(Frame(number, data)) + rest)) ==
            Turns(l.(input := AsBytes(FrameTail(number, data)) + rest), Header(data))
  {
    hide Hear, Turns, FrameTail;
    BytesSplit(Header(data), FrameTail(number, data), rest);
    HearByte(l, Header(data), AsBytes(FrameTail(number, data)) + rest);
  }

  /**
   * A frame with the wanted number is written and answered by 6, one with the number before it is answered by 6 only,
   * any other by 0x15. When the disk is full the program ends with code 3.
   */
  lemma FrameAnswered(l: Line, number: u8, data: seq<u8>, rest: seq<Rx>)
    requires |data| == 128 || |data| == 1024
    ensures var heard := Hear(l.(input := AsBytes(Frame(number, data)) + rest));
            var k := l.sink;
            if number == k.expected then
              if |k.file| + |data| <= k.capacity then
                heard == Hear(Line(rest, Sink((number + 1) % 256, k.file + data, k.capacity), l.sent + [6]))
              else heard.1 == Finished(3) && heard.0.sent == l.sent && heard.0.sink.expected == number
            else if (number + 1) % 256 == k.expected then heard == Hear(l.(input := rest, sent := l.sent + [6]))
            else heard == Hear(l.(input := rest, sent := l.sent + [0x15]))
  {
    hide *;
    AcceptMeans(l.sink, number, data);
    BlockLengths(data);
    FrameHeard(l, number, data, rest);
    FrameTurn(l, number, data, rest);
    var tail := l.(input := AsBytes(FrameTail(number, data)) + rest);
    TurnThenHear(tail, Header(data));
    Codes();
  }

  lemma AcceptMeans(k: Sink, number: u8, data: seq<u8>)
    ensures var (k', status) := Accept(k, number, data);
            if number == k.expected then
              if |k.file| + |data| <= k.capacity then
                status == Ok && k' == Sink((number + 1) % 256, k.file + data, k.capacity)
              else status == WriteError && k'.expected == number
            else k' == k && status == if (number + 1) % 256 == k.expected then Ok else BlockError
  {
  }

  lemma BlockLengths(data: seq<u8>)
    ensures IsBlock(data) <==> |data| == 128 || |data| == 1024
  {
  }

  lemma Codes()
    ensures ACK == 6 && NAK == 0x15
  {
  }

  /** 4 ends the transfer and is answered by 6; 0x18 ends it with code 5; a byte that announces nothing gets 0x15. */
  lemma ControlAnswered(l: Line, b: u8, rest: seq<Rx>)
    requires b != 1 && b != 2
    ensures var heard := Hear(l.(input := [Byte(b)] + rest));
            if b == 4 then heard == (l.(input := rest, sent := l.sent + [6]), Finished(0))
            else if b == 0x18 then heard == (l.(input := rest), Finished(5))
            else heard == Hear(l.(input := rest, sent := l.sent + [0x15]))
  {
    HearByte(l, b, rest);
    TurnThenHear(l.(input := rest), b);
    hide Hear, Turns;
  }

  function Pauses(n: nat): seq<Rx> {
    seq(n, _ => Timeout)
  }

  /** The program asks with `C` (0x43), once and again after each pause, until a byte arrives. */
  lemma {:induction false} Asks(l: Line, n: nat, b: u8, rest: seq<Rx>)
    ensures Start(l.(input := Pauses(n) + ([Byte(b)] + rest))) ==
            Hear(l.(input := [Byte(b)] + rest, sent := l.sent + seq(n + 1, _ => 0x43)))
    decreases n
  {
    hide Turns, Hear;
    var input := Pauses(n) + ([Byte(b)] + rest);
    var asked := l.(sent := l.sent + [0x43]);
    if n == 0 {
      assert input == [Byte(b)] + rest && input[1..] == rest;
      assert seq(1, _ => 0x43) == [0x43];
      HearByte(asked, b, rest);
    } else {
      assert input[1..] == Pauses(n - 1) + ([Byte(b)] + rest);
      Asks(asked, n - 1, b, rest);
      assert l.sent + [0x43] + seq(n, _ => 0x43) == l.sent + seq(n + 1, _ => 0x43);
    }
  }
}
