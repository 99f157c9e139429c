/**
 * The bitwise CRC-32 that guards every staged block (section 8 of RFC 1952), and why a match means something:
 * no burst of up to 32 damaged bits goes unnoticed, wherever it starts.
 */
module Crc32 {
  import opened Words

  const POLY: bv32 := 0xedb88320

  // ---------- The checksum ----------

  function Xor(a: bv32, b: bv32): bv32 {
    a ^ b
  }

  function Half(a: bv32): bv32 {
    a >> 1
  }

  predicate Odd(a: bv32) {
    a & 1 != 0
  }

  function Bit(b: bool): bv32 {
    if b then 1 else 0
  }

  function Prepend(bit: bool, w: bv32): bv32 {
    (w << 1) ^ Bit(bit)
  }

  /** The low `n` binary digits of a number as a word: the conversion C does implicitly. */
  function ToWord(n: nat, value: nat): bv32 {
    if n == 0 then 0 else Prepend(value % 2 == 1, ToWord(n - 1, value / 2))
  }

  /** One shift of the register. */
  function Step(crc: bv32): bv32 {
    if Odd(crc) then Xor(Half(crc), POLY) else Half(crc)
  }

  function Steps(n: nat, crc: bv32): bv32 {
    if n == 0 then crc else Steps(n - 1, Step(crc))
  }

  function Update(crc: bv32, byte: u8): bv32 {
    Steps(8, Xor(crc, ToWord(8, byte)))
  }

  function Updates(crc: bv32, data: seq<u8>): bv32
    decreases |data|
  {
    if data == [] then crc else Updates(Update(crc, data[0]), data[1..])
  }

  function Checksum(data: seq<u8>): bv32 {
    Xor(Updates(0xffffffff, data), 0xffffffff)
  }

  method UpdateCrc(crc: bv32, byte: u8) returns (r: bv32)
    ensures r == Update(crc, byte)
  {
    hide Step;
    r := crc ^ ToWord(8, byte);
    var i: nat := 0;
    while i < 8
      invariant i <= 8
      invariant Steps(8 - i, r) == Update(crc, byte)
    {
      var mask: bv32 := 0 - (r & 1);
      MaskedStep(r);
      r := (r >> 1) ^ (POLY & mask);
      i := i + 1;
    }
  }

  lemma MaskedStep(crc: bv32)
    ensures (crc >> 1) ^ (POLY & (0 - (crc & 1))) == Step(crc)
  {
    assert crc & 1 == 0 || crc & 1 == 1;
  }

  method ComputeChecksum(data: array<u8>, len: nat) returns (crc: bv32)
    requires len <= data.Length
    ensures crc == Checksum(data[..len])
  {
    hide Update;
    crc := 0xffffffff;
    var i := 0;
    assert data[0..len] == data[..len];
    while i < len
      invariant i <= len
      invariant Updates(crc, data[i..len]) == Updates(0xffffffff, data[..len])
    {
      assert data[i..len][1..] == data[i + 1..len];
      crc := UpdateCrc(crc, data[i]);
      i := i + 1;
    }
    crc := crc ^ 0xffffffff;
  }

  // ---------- Words under XOR ----------

  lemma XorCommutes(a: bv32, b: bv32)
    ensures Xor(a, b) == Xor(b, a)
  {
  }

  lemma XorAssociates(a: bv32, b: bv32, c: bv32)
    ensures Xor(Xor(a, b), c) == Xor(a, Xor(b, c))
  {
  }

  lemma XorZero(a: bv32)
    ensures Xor(a, 0) == a
  {
  }

  lemma XorSelf(a: bv32)
    ensures Xor(a, a) == 0
  {
  }

  lemma XorCancels(a: bv32, b: bv32, c: bv32)
    requires Xor(a, c) == Xor(b, c)
    ensures a == b
  {
  }

  lemma XorMoves(a: bv32, b: bv32, c: bv32)
    requires Xor(a, b) == c
    ensures a == Xor(c, b)
  {
  }

  /** (a + c) - (b + d) is (a - b) + (c - d). */
  lemma XorInterchange(a: bv32, b: bv32, c: bv32, d: bv32)
    ensures Xor(Xor(a, c), Xor(b, d)) == Xor(Xor(a, b), Xor(c, d))
  {
    hide Xor;
    XorAssociates(a, c, Xor(b, d));
    XorAssociates(c, b, d);
    XorCommutes(c, b);
    XorAssociates(b, c, d);
    XorAssociates(a, b, Xor(c, d));
  }

  // ---------- The shift is a linear bijection ----------

  lemma StepIsLinear(a: bv32, b: bv32)
    ensures Step(Xor(a, b)) == Xor(Step(a), Step(b))
  {
    hide Step, Odd, Xor;
    if Odd(a) && Odd(b) {
      LinearOddOdd(a, b);
    } else if Odd(a) {
      LinearOddEven(a, b);
    } else if Odd(b) {
      LinearOddEven(b, a);
      XorCommutes(a, b);
      XorCommutes(Step(a), Step(b));
    } else {
      LinearEvenEven(a, b);
    }
  }

  lemma LinearOddOdd(a: bv32, b: bv32)
    requires Odd(a) && Odd(b)
    ensures Step(Xor(a, b)) == Xor(Step(a), Step(b))
  {
  }

  lemma LinearOddEven(a: bv32, b: bv32)
    requires Odd(a) && !Odd(b)
    ensures Step(Xor(a, b)) == Xor(Step(a), Step(b))
  {
    hide Odd, Xor, Half;
    OddXorEven(a, b);
    HalfXor(a, b);
    XorAssociates(Half(a), Half(b), POLY);
    XorCommutes(Half(b), POLY);
    XorAssociates(Half(a), POLY, Half(b));
  }

  lemma HalfXor(a: bv32, b: bv32)
    ensures Half(Xor(a, b)) == Xor(Half(a), Half(b))
  {
  }

  lemma OddXorEven(a: bv32, b: bv32)
    requires Odd(a) && !Odd(b)
    ensures Odd(Xor(a, b))
  {
  }

  lemma LinearEvenEven(a: bv32, b: bv32)
    requires !Odd(a) && !Odd(b)
    ensures Step(Xor(a, b)) == Xor(Step(a), Step(b))
  {
  }

  /** The shift run backwards. */
  function Unstep(crc: bv32): bv32 {
    if crc >= 0x80000000 then ((crc ^ POLY) << 1) | 1 else crc << 1
  }

  lemma StepIsBijective(a: bv32)
    ensures Unstep(Step(a)) == a
    ensures Step(Unstep(a)) == a
  {
    hide Step, Odd, Unstep;
    if Odd(a) {
      UnstepOdd(a);
    } else {
      UnstepEven(a);
    }
    if a >= 0x80000000 {
      StepHigh(a);
    } else {
      StepLow(a);
    }
  }

  lemma UnstepOdd(a: bv32)
    requires Odd(a)
    ensures Unstep(Step(a)) == a
  {
  }

  lemma UnstepEven(a: bv32)
    requires !Odd(a)
    ensures Unstep(Step(a)) == a
  {
  }

  lemma StepHigh(a: bv32)
    requires a >= 0x80000000
    ensures Step(Unstep(a)) == a
  {
  }

  lemma StepLow(a: bv32)
    requires a < 0x80000000
    ensures Step(Unstep(a)) == a
  {
  }

  // ---------- The register fed bit by bit ----------

  function Feed(crc: bv32, bit: bool): bv32 {
    Step(Xor(crc, Bit(bit)))
  }

  function Feeds(crc: bv32, bits: seq<bool>): bv32
    decreases |bits|
  {
    if bits == [] then crc else Feeds(Feed(crc, bits[0]), bits[1..])
  }

  /** The lowest `n` bits of `w`, least significant first: the order in which the register sees them. */
  function LowBits(n: nat, w: bv32): (r: seq<bool>)
    ensures |r| == n
    decreases n
  {
    if n == 0 then [] else [Odd(w)] + LowBits(n - 1, Half(w))
  }

  function DropBits(n: nat, w: bv32): bv32
    decreases n
  {
    if n == 0 then w else DropBits(n - 1, Half(w))
  }

  function BitsOf(data: seq<u8>): (r: seq<bool>)
    ensures |r| == 8 * |data|
  {
    if data == [] then [] else LowBits(8, ToWord(8, data[0])) + BitsOf(data[1..])
  }

  /** Shifting a word's first bit into the register leaves the rest of the word to come. */
  lemma StepTakesLowBit(crc: bv32, w: bv32)
    ensures Step(Xor(crc, w)) == Xor(Feed(crc, Odd(w)), Half(w))
  {
    hide Step, Odd, Xor, Half, Bit;
    var b := Bit(Odd(w));
    StepIsLinear(crc, w);
    StepIsLinear(crc, b);
    StepOfWord(w);
    XorAssociates(Step(crc), Step(b), Half(w));
  }

  lemma StepOfWord(w: bv32)
    ensures Step(w) == Xor(Step(Bit(Odd(w))), Half(w))
  {
    hide Step, Odd, Xor, Half;
    if Odd(w) {
      StepOfOdd(w);
    } else {
      StepOfEven(w);
    }
  }

  lemma StepOfOdd(w: bv32)
    requires Odd(w)
    ensures Step(w) == Xor(Step(1), Half(w))
  {
  }

  lemma StepOfEven(w: bv32)
    requires !Odd(w)
    ensures Step(w) == Xor(Step(0), Half(w))
  {
  }

  /** XORing a word into the register and shifting `n` times feeds it the word's low `n` bits. */
  lemma {:induction false} WordThenSteps(n: nat, crc: bv32, w: bv32)
    ensures Steps(n, Xor(crc, w)) == Xor(Feeds(crc, LowBits(n, w)), DropBits(n, w))
    decreases n
  {
    hide Step, Odd, Feed, Xor, Half;
    if n > 0 {
      StepTakesLowBit(crc, w);
      WordThenSteps(n - 1, Feed(crc, Odd(w)), Half(w));
      assert LowBits(n, w)[1..] == LowBits(n - 1, Half(w));
    }
  }

  /** The bits at position `n` and above. */
  function From(n: nat): bv32
    requires n <= 32
    decreases 32 - n
  {
    if n == 32 then 0 else (From(n + 1) >> 1) | 0x80000000
  }

  lemma {:induction false} FromShrinks(m: nat, n: nat)
    requires m <= n <= 32
    ensures From(n) & !From(m) == 0
    decreases n - m
  {
    if m < n {
      FromShrinks(m + 1, n);
      FromStepShrinks(m);
    }
  }

  lemma {:induction false} FromStepShrinks(m: nat)
    requires m < 32
    ensures From(m + 1) & !From(m) == 0
    decreases 32 - m
  {
    if m + 1 < 32 {
      FromStepShrinks(m + 1);
    }
  }

  lemma FromIsEven(n: nat)
    requires 1 <= n <= 32
    ensures From(n) & 1 == 0
  {
    assert From(28) == 0xf0000000;
    assert From(24) == 0xff000000;
    assert From(20) == 0xfff00000;
    assert From(16) == 0xffff0000;
    assert From(12) == 0xfffff000;
    assert From(8) == 0xffffff00;
    assert From(4) == 0xfffffff0;
    assert From(1) == 0xfffffffe;
    FromShrinks(1, n);
  }

  lemma PrependKeepsShort(n: nat, bit: bool, w: bv32)
    requires 1 <= n <= 32 && w & From(n - 1) == 0
    ensures Prepend(bit, w) & From(n) == 0
  {
    FromIsEven(n);
  }

  lemma ShortIsLow(n: nat, w: bv32)
    requires n < 32 && w & From(n) == 0
    ensures w < 0x80000000
  {
  }

  lemma PrependParts(bit: bool, w: bv32)
    requires w < 0x80000000
    ensures Odd(Prepend(bit, w)) == bit
    ensures Half(Prepend(bit, w)) == w
  {
    hide Odd, Half, Prepend;
    if bit {
      PrependOne(w);
    } else {
      PrependNone(w);
    }
  }

  lemma PrependOne(w: bv32)
    requires w < 0x80000000
    ensures Odd(Prepend(true, w))
    ensures Half(Prepend(true, w)) == w
  {
  }

  lemma PrependNone(w: bv32)
    requires w < 0x80000000
    ensures !Odd(Prepend(false, w))
    ensures Half(Prepend(false, w)) == w
  {
  }

  /** The bits of a number that fits are its binary digits, and nothing is left of it after them. */
  lemma {:induction false} WordBits(n: nat, value: nat)
    requires n <= 32
    ensures ToWord(n, value) & From(n) == 0
    ensures LowBits(n, ToWord(n, value)) == Digits(n, value)
    ensures DropBits(n, ToWord(n, value)) == 0
  {
    if n > 0 {
      hide Prepend, Odd, Half, From;
      var w := ToWord(n - 1, value / 2);
      WordBits(n - 1, value / 2);
      ShortIsLow(n - 1, w);
      PrependParts(value % 2 == 1, w);
      PrependKeepsShort(n, value % 2 == 1, w);
    }
  }

  function Digits(n: nat, value: nat): (r: seq<bool>)
    ensures |r| == n
  {
    if n == 0 then [] else [value % 2 == 1] + Digits(n - 1, value / 2)
  }

  lemma {:induction false} DigitsDetermine(n: nat, a: nat, b: nat)
    requires a < Pow2(n) && b < Pow2(n)
    requires Digits(n, a) == Digits(n, b)
    ensures a == b
  {
    if n > 0 {
      assert Digits(n, a)[0] == Digits(n, b)[0];
      assert Digits(n, a)[1..] == Digits(n - 1, a / 2) && Digits(n, b)[1..] == Digits(n - 1, b / 2);
      DigitsDetermine(n - 1, a / 2, b / 2);
    }
  }

  lemma {:induction false} FeedsAppend(crc: bv32, x: seq<bool>, y: seq<bool>)
    ensures Feeds(crc, x + y) == Feeds(Feeds(crc, x), y)
    decreases |x|
  {
    hide Feed;
    if x == [] {
      assert x + y == y;
    } else {
      assert (x + y)[1..] == x[1..] + y;
      FeedsAppend(Feed(crc, x[0]), x[1..], y);
    }
  }

  /** The bytewise checksum is the bitwise one. */
  lemma {:induction false} UpdatesFeedBits(crc: bv32, data: seq<u8>)
    ensures Updates(crc, data) == Feeds(crc, BitsOf(data))
    decreases |data|
  {
    hide Xor, Feed, Steps, LowBits, DropBits;
    if data != [] {
      var w := ToWord(8, data[0]);
      WordThenSteps(8, crc, w);
      WordBits(8, data[0]);
      XorZero(Feeds(crc, LowBits(8, w)));
      FeedsAppend(crc, LowBits(8, w), BitsOf(data[1..]));
      UpdatesFeedBits(Update(crc, data[0]), data[1..]);
    }
  }

  // ---------- Bursts ----------

  lemma FeedIsInjective(a: bv32, b: bv32, bit: bool)
    requires Feed(a, bit) == Feed(b, bit)
    ensures a == b
  {
    hide Step, Bit, Xor, Unstep;
    StepIsBijective(Xor(a, Bit(bit)));
    StepIsBijective(Xor(b, Bit(bit)));
    XorCancels(a, b, Bit(bit));
  }

  lemma {:induction false} SameSuffixKeepsRegistersApart(a: bv32, b: bv32, bits: seq<bool>)
    requires Feeds(a, bits) == Feeds(b, bits)
    ensures a == b
    decreases |bits|
  {
    hide Feed;
    if bits != [] {
      SameSuffixKeepsRegistersApart(Feed(a, bits[0]), Feed(b, bits[0]), bits[1..]);
      FeedIsInjective(a, b, bits[0]);
    }
  }

  /** Where two bit strings differ, packed into a word with the first bit lowest. */
  function Difference(x: seq<bool>, y: seq<bool>): bv32
    requires |x| == |y|
    decreases |x|
  {
    if x == [] then 0 else Prepend(x[0] != y[0], Difference(x[1..], y[1..]))
  }

  lemma {:induction false} DifferenceIsShort(x: seq<bool>, y: seq<bool>)
    requires |x| == |y| <= 32
    ensures Difference(x, y) & From(|x|) == 0
    decreases |x|
  {
    if x != [] {
      hide Prepend, From;
      DifferenceIsShort(x[1..], y[1..]);
      PrependKeepsShort(|x|, x[0] != y[0], Difference(x[1..], y[1..]));
    }
  }

  /** Two registers that end up equal started apart by exactly the difference of what they were fed. */
  lemma {:induction false} EqualAfterFeeds(a: bv32, b: bv32, x: seq<bool>, y: seq<bool>)
    requires |x| == |y| <= 32
    requires Feeds(a, x) == Feeds(b, y)
    ensures Xor(a, b) == Difference(x, y)
    decreases |x|
  {
    hide Xor, Feed, Prepend;
    if x == [] {
      XorSelf(a);
    } else {
      EqualAfterFeeds(Feed(a, x[0]), Feed(b, y[0]), x[1..], y[1..]);
      DifferenceIsShort(x[1..], y[1..]);
      ShortIsLow(|x| - 1, Difference(x[1..], y[1..]));
      EqualBeforeFeed(a, b, x[0], y[0], Difference(x[1..], y[1..]));
    }
  }

  lemma EqualBeforeFeed(a: bv32, b: bv32, p: bool, q: bool, d: bv32)
    requires Xor(Feed(a, p), Feed(b, q)) == d < 0x80000000
    ensures Xor(a, b) == Prepend(p != q, d)
  {
    hide Xor, Step, Prepend, Unstep, Bit;
    var e := Xor(Bit(p), Bit(q));
    StepIsLinear(Xor(a, Bit(p)), Xor(b, Bit(q)));
    XorInterchange(a, b, Bit(p), Bit(q));
    StepIsBijective(Xor(Xor(a, b), e));
    XorMoves(Xor(a, b), e, Unstep(d));
    PrependIsUnstep(p, q, d);
  }

  lemma PrependIsUnstep(p: bool, q: bool, d: bv32)
    requires d < 0x80000000
    ensures Xor(Unstep(d), Xor(Bit(p), Bit(q))) == Prepend(p != q, d)
  {
    hide Xor, Bit;
    BitsXor(p, q);
    XorIsXor(d << 1, Bit(p != q));
  }

  lemma BitsXor(p: bool, q: bool)
    ensures Xor(Bit(p), Bit(q)) == Bit(p != q)
  {
  }

  lemma XorIsXor(a: bv32, b: bv32)
    ensures Xor(a, b) == a ^ b
  {
  }

  lemma {:induction false} NoDifference(x: seq<bool>, y: seq<bool>)
    requires |x| == |y| <= 32
    requires Difference(x, y) == 0
    ensures x == y
    decreases |x|
  {
    hide Prepend;
    if x != [] {
      var d := Difference(x[1..], y[1..]);
      DifferenceIsShort(x[1..], y[1..]);
      ShortIsLow(|x| - 1, d);
      PrependZero(x[0] != y[0], d);
      NoDifference(x[1..], y[1..]);
      assert x == [x[0]] + x[1..] && y == [y[0]] + y[1..];
    }
  }

  lemma PrependZero(bit: bool, d: bv32)
    requires d < 0x80000000 && Prepend(bit, d) == 0
    ensures !bit && d == 0
  {
  }

  /** `x` and `y` agree outside `[start, start + length)`. */
  ghost predicate AgreeOutside<T>(x: seq<T>, y: seq<T>, start: nat, length: nat) {
    |x| == |y| && forall i :: 0 <= i < |x| && !(start <= i < start + length) ==> x[i] == y[i]
  }

  /** Feeding tells apart any two bit strings that differ only within 32 neighbouring bits. */
  lemma FeedsDetectBurst(crc: bv32, x: seq<bool>, y: seq<bool>, start: nat)
    requires AgreeOutside(x, y, start, 32)
    requires Feeds(crc, x) == Feeds(crc, y)
    ensures x == y
  {
    hide Feeds, Xor;
    if start < |x| {
      var end := if start + 32 <= |x| then start + 32 else |x|;
      assert x == x[..start] + (x[start..end] + x[end..]);
      assert y == y[..start] + (y[start..end] + y[end..]);
      assert x[..start] == y[..start] && x[end..] == y[end..];
      var c := Feeds(crc, x[..start]);
      FeedsAppend(crc, x[..start], x[start..end] + x[end..]);
      FeedsAppend(crc, y[..start], y[start..end] + y[end..]);
      FeedsAppend(c, x[start..end], x[end..]);
      FeedsAppend(c, y[start..end], y[end..]);
      SameSuffixKeepsRegistersApart(Feeds(c, x[start..end]), Feeds(c, y[start..end]), x[end..]);
      EqualAfterFeeds(c, c, x[start..end], y[start..end]);
      XorSelf(c);
      NoDifference(x[start..end], y[start..end]);
    }
  }

  lemma {:induction false} BitsDetermineBytes(x: seq<u8>, y: seq<u8>)
    requires BitsOf(x) == BitsOf(y)
    ensures x == y
  {
    hide LowBits, ToWord, DropBits, Digits;
    assert |BitsOf(x)| == 8 * |x| && |BitsOf(y)| == 8 * |y|;
    if x != [] {
      var v, w := ToWord(8, x[0]), ToWord(8, y[0]);
      assert BitsOf(x)[..8] == LowBits(8, v) && BitsOf(y)[..8] == LowBits(8, w);
      assert BitsOf(x)[8..] == BitsOf(x[1..]) && BitsOf(y)[8..] == BitsOf(y[1..]);
      WordBits(8, x[0]);
      WordBits(8, y[0]);
      assert Pow2(8) == 256;
      DigitsDetermine(8, x[0], y[0]);
      BitsDetermineBytes(x[1..], y[1..]);
      assert x == [x[0]] + x[1..] && y == [y[0]] + y[1..];
    }
  }

  /**
   * Error detection: two different messages of the same length whose bits agree outside some 32 neighbouring
   * ones (in particular outside some 4 neighbouring bytes) have different checksums.
   */
  lemma ChecksumDetectsBurst(x: seq<u8>, y: seq<u8>, start: nat)
    requires AgreeOutside(BitsOf(x), BitsOf(y), start, 32)
    requires x != y
    ensures Checksum(x) != Checksum(y)
  {
    hide Updates, Xor, BitsOf, Feeds;
    if Checksum(x) == Checksum(y) {
      XorCancels(Updates(0xffffffff, x), Updates(0xffffffff, y), 0xffffffff);
      UpdatesFeedBits(0xffffffff, x);
      UpdatesFeedBits(0xffffffff, y);
      FeedsDetectBurst(0xffffffff, BitsOf(x), BitsOf(y), start);
      BitsDetermineBytes(x, y);
    }
  }

  lemma {:induction false} SameByteSameBits(x: seq<u8>, y: seq<u8>, i: nat)
    requires |x| == |y| && i < 8 * |x| && x[i / 8] == y[i / 8]
    ensures |BitsOf(x)| == |BitsOf(y)| == 8 * |x| && BitsOf(x)[i] == BitsOf(y)[i]
    decreases |x|
  {
    hide LowBits, ToWord, DropBits;
    if i >= 8 {
      DivModUnique(i - 8, 8, i / 8 - 1, i % 8);
      SameByteSameBits(x[1..], y[1..], i - 8);
    }
  }

  /** On bytes: two different messages of the same length that agree outside some 4 neighbouring bytes. */
  lemma ChecksumDetectsFourBytes(x: seq<u8>, y: seq<u8>, start: nat)
    requires AgreeOutside(x, y, start, 4) && x != y
    ensures Checksum(x) != Checksum(y)
  {
    hide Checksum, BitsOf;
    assert |BitsOf(x)| == |BitsOf(y)| == 8 * |x|;
    forall i | 0 <= i < 8 * |x| && !(8 * start <= i < 8 * start + 32) ensures BitsOf(x)[i] == BitsOf(y)[i] {
      SameByteSameBits(x, y, i);
    }
    ChecksumDetectsBurst(x, y, 8 * start);
  }

  // ---------- The check value ----------

  function EightSteps(x: bv32): bv32 {
    Step(Step(Step(Step(Step(Step(Step(Step(x))))))))
  }

  lemma TwoSteps(n: nat, x: bv32)
    ensures Steps(n + 2, x) == Steps(n, Step(Step(x))) && Steps(0, x) == x
  {
    hide Step;
  }

  lemma StepsAreEight(x: bv32)
    ensures Steps(8, x) == EightSteps(x)
  {
    hide Step, Steps;
    TwoSteps(6, x);
    TwoSteps(4, Step(Step(x)));
    TwoSteps(2, Step(Step(Step(Step(x)))));
    TwoSteps(0, Step(Step(Step(Step(Step(Step(x)))))));
    TwoSteps(0, EightSteps(x));
  }

  const NINE_DIGITS: seq<u8> := [0x31, 0x32, 0x33, 0x34, 0x35, 0x36, 0x37, 0x38, 0x39]

  /** The register after one more digit, whose word is `w`. */
  lemma DigitFed(crc: bv32, i: nat, w: bv32)
    requires i < 9 && ToWord(8, NINE_DIGITS[i]) == w
    ensures Updates(crc, NINE_DIGITS[i..]) == Updates(EightSteps(Xor(crc, w)), NINE_DIGITS[i + 1..])
  {
    StepsAreEight(Xor(crc, w));
    hide Steps, EightSteps, ToWord;
    assert NINE_DIGITS[i..][1..] == NINE_DIGITS[i + 1..];
  }

  lemma Digit1()
    ensures EightSteps(Xor(0xffffffff, 0x31)) == 0x7c231048
  {
  }

  lemma Digit2()
    ensures EightSteps(Xor(0x7c231048, 0x32)) == 0xb0acbb32
  {
  }

  lemma Digit3()
    ensures EightSteps(Xor(0xb0acbb32, 0x33)) == 0x77b79c2d
  {
  }

  lemma Digit4()
    ensures EightSteps(Xor(0x77b79c2d, 0x34)) == 0x641c1f5c
  {
  }

  lemma Digit5()
    ensures EightSteps(Xor(0x641c1f5c, 0x35)) == 0x340ac5e3
  {
  }

  lemma Digit6()
    ensures EightSteps(Xor(0x340ac5e3, 0x36)) == 0xf68d2c9e
  {
  }

  lemma Digit7()
    ensures EightSteps(Xor(0xf68d2c9e, 0x37)) == 0xaffc9660
  {
  }

  lemma Digit8()
    ensures EightSteps(Xor(0xaffc9660, 0x38)) == 0x651f2550
  {
  }

  lemma Digit9()
    ensures EightSteps(Xor(0x651f2550, 0x39)) == 0x340bc6d9
  {
  }

  lemma NextBit(n: nat, v: nat, bit: nat)
    requires bit < 2
    ensures ToWord(n + 1, 2 * v + bit) == Prepend(bit == 1, ToWord(n, v)) && ToWord(0, v) == 0
  {
    DivModUnique(2 * v + bit, 2, v, bit);
    hide Prepend;
  }

  lemma UpperHalves()
    ensures ToWord(5, 6) == 6 && ToWord(5, 7) == 7
  {
    hide ToWord;
    NextBit(0, 0, 0);
    NextBit(1, 0, 0);
    NextBit(2, 0, 1);
    NextBit(3, 1, 1);
    NextBit(4, 3, 0);
    NextBit(4, 3, 1);
  }

  lemma UpperBits()
    ensures ToWord(7, 24) == 24 && ToWord(7, 25) == 25 && ToWord(7, 26) == 26 && ToWord(7, 27) == 27
    ensures ToWord(7, 28) == 28
  {
    UpperHalves();
    hide ToWord;
    NextBit(5, 6, 0);
    NextBit(5, 6, 1);
    NextBit(5, 7, 0);
    NextBit(6, 12, 0);
    NextBit(6, 12, 1);
    NextBit(6, 13, 0);
    NextBit(6, 13, 1);
    NextBit(6, 14, 0);
  }

  /** The digits are their own words. */
  lemma DigitWords()
    ensures ToWord(8, 0x31) == 0x31 && ToWord(8, 0x32) == 0x32 && ToWord(8, 0x33) == 0x33 && ToWord(8, 0x34) == 0x34
    ensures ToWord(8, 0x35) == 0x35 && ToWord(8, 0x36) == 0x36 && ToWord(8, 0x37) == 0x37 && ToWord(8, 0x38) == 0x38
    ensures ToWord(8, 0x39) == 0x39
  {
    UpperBits();
    hide ToWord;
    NextBit(7, 24, 1);
    NextBit(7, 25, 0);
    NextBit(7, 25, 1);
    NextBit(7, 26, 0);
    NextBit(7, 26, 1);
    NextBit(7, 27, 0);
    NextBit(7, 27, 1);
    NextBit(7, 28, 0);
    NextBit(7, 28, 1);
  }

  /** The check value by which this CRC-32 is known: the checksum of the nine characters "123456789". */
  lemma CheckValue()
    ensures Checksum([0x31, 0x32, 0x33, 0x34, 0x35, 0x36, 0x37, 0x38, 0x39]) == 0xcbf43926
  {
    DigitWords();
    hide Updates, EightSteps, Xor, ToWord;
    Digit1();
    DigitFed(0xffffffff, 0, 0x31);
    Digit2();
    DigitFed(0x7c231048, 1, 0x32);
    Digit3();
    DigitFed(0xb0acbb32, 2, 0x33);
    Digit4();
    DigitFed(0x77b79c2d, 3, 0x34);
    Digit5();
    DigitFed(0x641c1f5c, 4, 0x35);
    Digit6();
    DigitFed(0x340ac5e3, 5, 0x36);
    Digit7();
    DigitFed(0xf68d2c9e, 6, 0x37);
    Digit8();
    DigitFed(0xaffc9660, 7, 0x38);
    Digit9();
    DigitFed(0x651f2550, 8, 0x39);
    NoMoreBytes(0x340bc6d9);
    Inverted();
    assert NINE_DIGITS[0..] == NINE_DIGITS && NINE_DIGITS[9..] == [];
  }

  lemma NoMoreBytes(crc: bv32)
    ensures Updates(crc, []) == crc
  {
  }

  lemma Inverted()
    ensures Xor(0x340bc6d9, 0xffffffff) == 0xcbf43926
  {
  }
}
