/** The walks of the allocator in the 32-bit arithmetic they are written in. */
module PciWords {
  import opened Words
  import opened PciTree
  import opened PciWindows

  /** align_up_u32, with its 32-bit addition. */
  function AlignWord(value: u32, align: nat): (r: u32)
    requires align > 0
  {
    AlignDown((value + align - 1) % TWO32, align)
  }

  // ---------- The walk ----------

  function WordBars(bars: seq<Bar>, k: Kind, at: u32): u32
    decreases |bars|
  {
    if bars == [] then at
    else if bars[0].kind == k then
      WordBars(bars[1..], k, (AlignWord(at, bars[0].Size()) + bars[0].Size()) % TWO32)
    else WordBars(bars[1..], k, at)
  }

  function WordBus(ns: seq<Node>, k: Kind, at: u32): u32
    decreases ns, 0
  {
    if ns == [] then at else WordBus(ns[1..], k, WordNode(ns[0], k, at))
  }

  function WordNode(n: Node, k: Kind, at: u32): u32
    decreases n, 1
  {
    var own := WordBars(n.bars, k, at);
    if n.role.Bus? && WordWindow(n.role.nodes, k) != 0
    then (AlignWord(own, WindowAlign(k)) + (WordWindow(n.role.nodes, k) as int)) % TWO32
    else own
  }

  function WordWindow(ns: seq<Node>, k: Kind): u32
    decreases ns, 1
  {
    AlignWord(WordBus(ns, k, 0), WindowAlign(k))
  }

  /** The size of every BAR is a 32-bit number. */
  predicate WordSized(ns: seq<Node>)
    decreases ns, 0
  {
    ns == [] || (NodeWordSized(ns[0]) && WordSized(ns[1..]))
  }

  predicate NodeWordSized(n: Node)
    decreases n, 1
  {
    BarsWordSized(n.bars) && (n.role.Bus? ==> WordSized(n.role.nodes))
  }

  predicate BarsWordSized(bars: seq<Bar>)
    decreases |bars|
  {
    bars == [] || (bars[0].log2 < 32 && BarsWordSized(bars[1..]))
  }

  // ---------- Rounding modulo 2^32 ----------

  lemma PowersDivideWord(log2: nat)
    requires log2 <= 32
    ensures MultipleOf(TWO32, Pow2(log2)) && Pow2(log2) <= TWO32
  {
    Pow2Divides(log2, 32);
    WordIsPower();
  }

  lemma {:induction false} PowerOfSum(a: nat, b: nat)
    ensures Pow2(a + b) == Pow2(a) * Pow2(b)
    decreases b
  {
    if b > 0 {
      PowerOfSum(a, b - 1);
    }
  }

  lemma WordIsPower()
    ensures Pow2(32) == TWO32
  {
    assert Pow2(4) == 16;
    PowerOfSum(4, 4);
    PowerOfSum(8, 8);
    PowerOfSum(16, 16);
    hide Pow2;
  }

  lemma RoundsToWord(r: u32, align: nat)
    requires align > 0 && MultipleOf(TWO32, align) && align <= TWO32
    ensures AlignWord(r, align) == AlignUp(r, align) % TWO32
  {
    var s: int := r + align - 1;
    if s < TWO32 {
      DivModUnique(s, TWO32, 0, s);
      DivModUnique(AlignUp(r, align), TWO32, 0, AlignUp(r, align));
    } else {
      DivModUnique(s, TWO32, 1, s - TWO32);
      DivModUnique(s - TWO32, align, 0, s - TWO32);
      AlignUpLeast(r, align, TWO32);
      DivModUnique(TWO32, TWO32, 1, 0);
    }
  }

  /** 32-bit rounding is rounding modulo 2^32. */
  lemma AlignWordIs(value: nat, align: nat)
    requires align > 0 && MultipleOf(TWO32, align) && align <= TWO32
    ensures AlignWord(value % TWO32, align) == AlignUp(value, align) % TWO32
  {
    var q, r := value / TWO32, value % TWO32;
    TimesMultiple(q, TWO32, align);
    AlignUpShift(q * TWO32, r, align);
    RoundsToWord(r, align);
    hide AlignUp, AlignWord, MultipleOf;
    PlusMultiple(q, AlignUp(r, align));
  }

  lemma TimesMultiple(q: nat, x: nat, a: nat)
    requires a > 0 && MultipleOf(x, a)
    ensures MultipleOf(q * x, a)
  {
    assert q * x == q * (x / a) * a;
    DivModUnique(q * x, a, q * (x / a), 0);
  }

  lemma PlusMultiple(q: nat, x: nat)
    ensures (q * TWO32 + x) % TWO32 == x % TWO32
  {
    DivModUnique(q * TWO32 + x, TWO32, q + x / TWO32, x % TWO32);
  }

  lemma AddWord(x: nat, y: nat)
    ensures (x % TWO32 + y) % TWO32 == (x + y) % TWO32
  {
    var q, r := x / TWO32, x % TWO32;
    assert q * TWO32 + (r + y) == x + y;
    PlusMultiple(q, r + y);
  }

  // ---------- The walks agree ----------

  lemma {:induction false} WordBarsIs(bars: seq<Bar>, k: Kind, at: nat)
    requires BarsWordSized(bars)
    ensures WordBars(bars, k, at % TWO32) == BarsEnd(bars, k, at) % TWO32
    decreases |bars|
  {
    hide AlignUp, AlignWord, Pow2, MultipleOf;
    if bars != [] {
      if bars[0].kind == k {
        var size := bars[0].Size();
        PowersDivideWord(bars[0].log2);
        AlignWordIs(at, size);
        AddWord(AlignUp(at, size), size);
        WordBarsIs(bars[1..], k, AlignUp(at, size) + size);
      } else {
        WordBarsIs(bars[1..], k, at);
      }
    }
  }

  /**
   * A walk with 32-bit cursors ends where the unbounded one ends, modulo 2^32, whenever that is at or below 4 GiB:
   * no rounding and no addition on the way wraps unnoticed, in either pass and on any level.
   */
  lemma {:induction false} WordWalk(ns: seq<Node>, k: Kind, at: nat)
    requires WordSized(ns) && BusEnd(ns, k, at) <= TWO32
    ensures WordBus(ns, k, at % TWO32) == BusEnd(ns, k, at) % TWO32
    decreases ns, 0
  {
    hide NodeEnd, WordNode, NodeWordSized;
    if ns != [] {
      WordNodeIs(ns[0], k, at);
      WordWalk(ns[1..], k, NodeEnd(ns[0], k, at));
    }
  }

  lemma {:induction false} WordNodeIs(n: Node, k: Kind, at: nat)
    requires NodeWordSized(n) && NodeEnd(n, k, at) <= TWO32
    ensures WordNode(n, k, at % TWO32) == NodeEnd(n, k, at) % TWO32
    decreases n, 1
  {
    hide AlignUp, AlignWord, Pow2, MultipleOf, WindowAlign, BarsEnd, BusEnd, WordBars, WordBus, WordSized;
    WordBarsIs(n.bars, k, at);
    if n.role.Bus? {
      WordWindowIs(n.role.nodes, k, BarsEnd(n.bars, k, at));
    }
  }

  lemma WindowDividesWord(k: Kind)
    ensures MultipleOf(TWO32, WindowAlign(k)) && WindowAlign(k) <= TWO32
  {
    hide Pow2, MultipleOf;
    PowersDivideWord(WindowLog2(k));
  }

  /** A window of a bridge whose own BARs end at `own`. */
  lemma {:induction false} WordWindowIs(ns: seq<Node>, k: Kind, own: nat)
    requires WordSized(ns)
    requires WindowSize(ns, k) != 0 ==> AlignUp(own, WindowAlign(k)) + WindowSize(ns, k) <= TWO32
    ensures var w, a := WordWindow(ns, k), WindowAlign(k);
            (if w != 0 then (AlignWord(own % TWO32, a) + (w as int)) % TWO32 else own % TWO32) ==
            (if WindowSize(ns, k) != 0 then AlignUp(own, a) + WindowSize(ns, k) else own) % TWO32
    decreases ns, 1
  {
    hide AlignUp, AlignWord, Pow2, MultipleOf, WindowAlign, BusEnd, WordBus, WordSized;
    var size, a := WindowSize(ns, k), WindowAlign(k);
    WindowDividesWord(k);
    WordWalk(ns, k, 0);
    AlignWordIs(BusEnd(ns, k, 0), a);
    AlignWordIs(own, a);
    AlignUpAtLeast(own, a);
    WindowSum(own, AlignUp(own, a), size);
  }

  lemma AlignUpAtLeast(value: nat, align: nat)
    requires align > 0
    ensures value <= AlignUp(value, align)
  {
  }

  /** A window of 4 GiB, whose size reads as 0, fits only when nothing precedes it. */
  lemma WindowSum(own: nat, up: nat, size: nat)
    requires own <= up && (size != 0 ==> up + size <= TWO32)
    ensures (if size % TWO32 != 0 then (up % TWO32 + size % TWO32) % TWO32 else own % TWO32) ==
            (if size != 0 then up + size else own) % TWO32
  {
  }
}
