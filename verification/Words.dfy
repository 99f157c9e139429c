/** Machine words of the firmware (the x86 C types) and the arithmetic on them that every component shares. */
module Words {
  type u8 = x: int | 0 <= x < 0x100
  type u16 = x: int | 0 <= x < 0x1_0000
  type u32 = x: int | 0 <= x < 0x1_0000_0000

  const TWO32: int := 0x1_0000_0000

  datatype Option<+T> = None | Some(value: T)

  // ---------- Division ----------

  lemma MulBound(k: int, d: int)
    requires d >= 0
    ensures k >= 1 ==> k * d >= d
    ensures k <= -1 ==> k * d <= -d
  {
  }

  lemma DivModUnique(n: int, d: int, q: int, r: int)
    requires d > 0 && 0 <= r < d && n == q * d + r
    ensures n / d == q && n % d == r
  {
    var k := n / d - q;
    assert k * d == r - n % d;
    MulBound(k, d);
  }

  predicate MultipleOf(x: int, a: nat)
    requires a > 0
  {
    x % a == 0
  }

  lemma MultipleStep(x: int, a: nat)
    requires a > 0 && MultipleOf(x, a)
    ensures MultipleOf(x + a, a) && MultipleOf(x - a, a)
  {
    DivModUnique(x + a, a, x / a + 1, 0);
    DivModUnique(x - a, a, x / a - 1, 0);
  }

  lemma MultipleSum(x: int, y: int, a: nat)
    requires a > 0 && MultipleOf(x, a) && MultipleOf(y, a)
    ensures MultipleOf(x + y, a) && MultipleOf(x - y, a)
  {
    DivModUnique(x + y, a, x / a + y / a, 0);
    DivModUnique(x - y, a, x / a - y / a, 0);
  }

  lemma MultipleOfMultiple(x: int, a: nat, b: nat)
    requires a > 0 && b > 0 && MultipleOf(x, b) && MultipleOf(b, a)
    ensures MultipleOf(x, a)
  {
    var q, p := x / b, b / a;
    assert x == q * (p * a) == (q * p) * a;
    DivModUnique(x, a, q * p, 0);
  }

  // ---------- Rounding (shared_align_up, align_up_u32, linux_align_up and their counterparts) ----------

  /** The least multiple of `align` at or above `value`. */
  function AlignUp(value: nat, align: nat): (r: nat)
    requires align > 0
    ensures MultipleOf(r, align) && value <= r < value + align
  {
    AlignUpBounds(value, align);
    (value + align - 1) / align * align
  }

  lemma AlignUpBounds(value: nat, align: nat)
    requires align > 0
    ensures var r := (value + align - 1) / align * align; MultipleOf(r, align) && value <= r < value + align
  {
    var n := value + align - 1;
    DivModUnique(n / align * align, align, n / align, 0);
  }

  function AlignDown(value: nat, align: nat): (r: nat)
    requires align > 0
    ensures MultipleOf(r, align) && r <= value < r + align
  {
    DivModUnique(value / align * align, align, value / align, 0);
    value / align * align
  }

  /** Moving by a multiple of the alignment commutes with rounding. */
  lemma AlignUpShift(base: nat, value: nat, align: nat)
    requires align > 0 && MultipleOf(base, align)
    ensures AlignUp(base + value, align) == base + AlignUp(value, align)
  {
    var r := AlignUp(value, align);
    DivModUnique(base + r, align, base / align + r / align, 0);
    AlignUpLeast(base + value, align, base + r);
  }

  lemma AlignUpLeast(value: nat, align: nat, r: nat)
    requires align > 0 && MultipleOf(r, align) && value <= r < value + align
    ensures AlignUp(value, align) == r
  {
    var s := AlignUp(value, align);
    assert (s / align - r / align) * align == s - r;
    MulBound(s / align - r / align, align);
  }

  function Pow2(n: nat): (r: nat)
    ensures r > 0
  {
    if n == 0 then 1 else 2 * Pow2(n - 1)
  }

  lemma {:induction false} Pow2Divides(a: nat, b: nat)
    requires a <= b
    ensures MultipleOf(Pow2(b), Pow2(a)) && Pow2(a) <= Pow2(b)
    decreases b - a
  {
    if a < b {
      Pow2Divides(a, b - 1);
      DivModUnique(Pow2(b), Pow2(a), 2 * (Pow2(b - 1) / Pow2(a)), 0);
    }
  }

  // ---------- Little-endian fields ----------

  function Le16(lo: int, hi: int): u16
    requires 0 <= lo < 256 && 0 <= hi < 256
  {
    lo + 256 * hi
  }

  /** The number whose bytes are given, least significant first. */
  function LittleEndian(bytes: seq<u8>): nat
    decreases |bytes|
  {
    if bytes == [] then 0 else bytes[0] + 0x100 * LittleEndian(bytes[1..])
  }

  lemma FourBytes(b: seq<u8>)
    requires |b| == 4
    ensures LittleEndian(b) == b[0] + 0x100 * b[1] + 0x1_0000 * b[2] + 0x100_0000 * b[3] < TWO32
  {
    assert LittleEndian(b[1..]) == b[1] + 0x100 * LittleEndian(b[1..][1..]);
    assert b[1..][1..] == b[2..] && b[2..][1..] == b[3..] && b[3..][1..] == [];
    assert LittleEndian(b[2..]) == b[2] + 0x100 * LittleEndian(b[3..]);
    assert LittleEndian(b[3..]) == b[3] + 0x100 * LittleEndian([]);
  }

  function Le32(m: seq<u8>, a: nat): u32
    requires a + 4 <= |m|
  {
    FourBytes(m[a..a + 4]);
    LittleEndian(m[a..a + 4])
  }

  lemma SameBytesSameWord(m: seq<u8>, m': seq<u8>, a: nat)
    requires a + 4 <= |m| && a + 4 <= |m'| && forall i :: a <= i < a + 4 ==> m'[i] == m[i]
    ensures Le32(m', a) == Le32(m, a)
  {
    assert m'[a..a + 4] == m[a..a + 4];
  }

  /** The image `m` with a 32-bit field stored at `a`. */
  function Poke32(m: seq<u8>, a: nat, value: u32): (r: seq<u8>)
    requires a + 4 <= |m|
    ensures |r| == |m| && Le32(r, a) == value
    ensures forall i :: 0 <= i < |m| && !(a <= i < a + 4) ==> r[i] == m[i]
  {
    Poked(m, a, value);
    var lo: u16, hi: u16 := value % 0x1_0000, value / 0x1_0000;
    m[a := lo % 0x100][a + 1 := lo / 0x100][a + 2 := hi % 0x100][a + 3 := hi / 0x100]
  }

  lemma Poked(m: seq<u8>, a: nat, value: u32)
    requires a + 4 <= |m|
    ensures var lo: u16, hi: u16 := value % 0x1_0000, value / 0x1_0000;
            Le32(m[a := lo % 0x100][a + 1 := lo / 0x100][a + 2 := hi % 0x100][a + 3 := hi / 0x100], a) == value
  {
    var lo: u16, hi: u16 := value % 0x1_0000, value / 0x1_0000;
    var r := m[a := lo % 0x100][a + 1 := lo / 0x100][a + 2 := hi % 0x100][a + 3 := hi / 0x100];
    FourBytes(r[a..a + 4]);
    hide LittleEndian;
    assert r[a..a + 4] == [lo % 0x100, lo / 0x100, hi % 0x100, hi / 0x100];
  }
}
