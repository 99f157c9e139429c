/**
 * One address space (I/O, memory or prefetchable memory) of the two-pass allocator. Both passes walk the bus
 * with a cursor; the first starts at 0 to measure, the second at the base it was given. The question is when
 * the two walks agree, so that what is placed fits the window that was reserved for it.
 */
module PciWindows {
  import opened Words
  import opened PciTree

  const IO_WINDOW_LOG2 := 12
  const MEM_WINDOW_LOG2 := 20

  function WindowLog2(k: Kind): nat {
    if k == Io then IO_WINDOW_LOG2 else MEM_WINDOW_LOG2
  }

  function WindowAlign(k: Kind): (r: nat)
    ensures r > 0
  {
    Pow2(WindowLog2(k))
  }

  // ---------- The walk ----------

  function BarsEnd(bars: seq<Bar>, k: Kind, at: nat): (r: nat)
    ensures r >= at
    decreases |bars|
  {
    if bars == [] then at
    else if bars[0].kind == k then BarsEnd(bars[1..], k, AlignUp(at, bars[0].Size()) + bars[0].Size())
    else BarsEnd(bars[1..], k, at)
  }

  /** Where the cursor stands after the functions `ns`. */
  function BusEnd(ns: seq<Node>, k: Kind, at: nat): (r: nat)
    ensures r >= at
    decreases ns, 0
  {
    if ns == [] then at else BusEnd(ns[1..], k, NodeEnd(ns[0], k, at))
  }

  function NodeEnd(n: Node, k: Kind, at: nat): (r: nat)
    ensures r >= at
    decreases n, 1
  {
    var own := BarsEnd(n.bars, k, at);
    if n.role.Bus? && WindowSize(n.role.nodes, k) != 0
    then AlignUp(own, WindowAlign(k)) + WindowSize(n.role.nodes, k)
    else own
  }

  /** What a bridge has to reserve for the bus behind it. */
  function WindowSize(ns: seq<Node>, k: Kind): nat
    decreases ns, 1
  {
    AlignUp(BusEnd(ns, k, 0), WindowAlign(k))
  }

  /** Base of the window of a bridge whose own BARs end at `own`; 0 when it needs none. */
  function WindowBase(ns: seq<Node>, k: Kind, own: nat): nat {
    if WindowSize(ns, k) == 0 then 0 else AlignUp(own, WindowAlign(k))
  }

  // ---------- What is placed ----------

  datatype Range = Range(lo: nat, size: nat)

  function BarRanges(bars: seq<Bar>, k: Kind, at: nat): seq<Range>
    decreases |bars|
  {
    if bars == [] then []
    else if bars[0].kind == k then
      var lo := AlignUp(at, bars[0].Size());
      [Range(lo, bars[0].Size())] + BarRanges(bars[1..], k, lo + bars[0].Size())
    else BarRanges(bars[1..], k, at)
  }

  /** The address ranges of all BARs on a bus and below, in the order they are assigned. */
  function BusRanges(ns: seq<Node>, k: Kind, at: nat): seq<Range>
    decreases ns, 0
  {
    if ns == [] then [] else NodeRanges(ns[0], k, at) + BusRanges(ns[1..], k, NodeEnd(ns[0], k, at))
  }

  function NodeRanges(n: Node, k: Kind, at: nat): seq<Range>
    decreases n, 1
  {
    BarRanges(n.bars, k, at) +
    if n.role.Bus? then BusRanges(n.role.nodes, k, WindowBase(n.role.nodes, k, BarsEnd(n.bars, k, at))) else []
  }

  /** Ranges in increasing order without overlap, from `lo` up to `hi`, each aligned to its own size. */
  predicate Ordered(rs: seq<Range>, lo: nat, hi: nat)
    decreases |rs|
  {
    if rs == [] then lo <= hi
    else
      && rs[0].size > 0 && lo <= rs[0].lo && MultipleOf(rs[0].lo, rs[0].size)
      && Ordered(rs[1..], rs[0].lo + rs[0].size, hi)
  }

  /** Everything below a bridge lies inside its window, on every level. */
  predicate InWindows(ns: seq<Node>, k: Kind, at: nat)
    decreases ns, 0
  {
    ns == [] || (NodeInWindows(ns[0], k, at) && InWindows(ns[1..], k, NodeEnd(ns[0], k, at)))
  }

  predicate NodeInWindows(n: Node, k: Kind, at: nat)
    decreases n, 1
  {
    n.role.Bus? ==>
      var base := WindowBase(n.role.nodes, k, BarsEnd(n.bars, k, at));
      && Ordered(BusRanges(n.role.nodes, k, base), base, base + WindowSize(n.role.nodes, k))
      && InWindows(n.role.nodes, k, base)
  }

  // ---------- When the passes agree ----------

  /** Every BAR directly on this bus divides `base`, and so does the window granularity. */
  predicate BusAligned(ns: seq<Node>, k: Kind, base: nat) {
    && MultipleOf(base, WindowAlign(k))
    && forall i, j :: 0 <= i < |ns| && 0 <= j < |ns[i].bars| && ns[i].bars[j].kind == k
         ==> MultipleOf(base, ns[i].bars[j].Size())
  }

  /** Every window base is a multiple of every BAR size on the bus it opens. */
  predicate WindowsAligned(ns: seq<Node>, k: Kind, at: nat)
    decreases ns, 0
  {
    ns == [] || (NodeAligned(ns[0], k, at) && WindowsAligned(ns[1..], k, NodeEnd(ns[0], k, at)))
  }

  predicate NodeAligned(n: Node, k: Kind, at: nat)
    decreases n, 1
  {
    n.role.Bus? && WindowSize(n.role.nodes, k) != 0 ==>
      var base := WindowBase(n.role.nodes, k, BarsEnd(n.bars, k, at));
      BusAligned(n.role.nodes, k, base) && WindowsAligned(n.role.nodes, k, base)
  }

  lemma {:induction false} BarsShift(bars: seq<Bar>, k: Kind, base: nat, at: nat)
    requires forall j :: 0 <= j < |bars| && bars[j].kind == k ==> MultipleOf(base, bars[j].Size())
    ensures BarsEnd(bars, k, base + at) == base + BarsEnd(bars, k, at)
    decreases |bars|
  {
    if bars != [] {
      if bars[0].kind == k {
        AlignUpShift(base, at, bars[0].Size());
        BarsShift(bars[1..], k, base, AlignUp(at, bars[0].Size()) + bars[0].Size());
      } else {
        BarsShift(bars[1..], k, base, at);
      }
    }
  }

  /** From an aligned base, the second pass ends exactly the measured amount further on. */
  lemma {:induction false} BusShift(ns: seq<Node>, k: Kind, base: nat, at: nat)
    requires BusAligned(ns, k, base)
    ensures BusEnd(ns, k, base + at) == base + BusEnd(ns, k, at)
    decreases |ns|
  {
    hide AlignUp, WindowAlign, MultipleOf;
    if ns != [] {
      var n := ns[0];
      BarsShift(n.bars, k, base, at);
      AlignUpShift(base, BarsEnd(n.bars, k, at), WindowAlign(k));
      BusShift(ns[1..], k, base, NodeEnd(n, k, at));
    }
  }

  lemma {:induction false} OrderedConcat(x: seq<Range>, y: seq<Range>, lo: nat, mid: nat, hi: nat)
    requires Ordered(x, lo, mid) && Ordered(y, mid, hi)
    ensures Ordered(x + y, lo, hi)
    decreases |x|
  {
    if x == [] {
      assert x + y == y;
      OrderedLower(y, mid, lo, hi);
    } else {
      assert (x + y)[1..] == x[1..] + y;
      OrderedConcat(x[1..], y, x[0].lo + x[0].size, mid, hi);
    }
  }

  lemma OrderedLower(x: seq<Range>, lo: nat, lo': nat, hi: nat)
    requires Ordered(x, lo, hi) && lo' <= lo
    ensures Ordered(x, lo', hi)
  {
  }

  lemma {:induction false} OrderedUpper(x: seq<Range>, lo: nat, hi: nat, hi': nat)
    requires Ordered(x, lo, hi) && hi <= hi'
    ensures Ordered(x, lo, hi')
    decreases |x|
  {
    if x != [] {
      OrderedUpper(x[1..], x[0].lo + x[0].size, hi, hi');
    }
  }

  lemma {:induction false} BarsOrdered(bars: seq<Bar>, k: Kind, at: nat)
    ensures Ordered(BarRanges(bars, k, at), at, BarsEnd(bars, k, at))
    decreases |bars|
  {
    if bars != [] {
      if bars[0].kind == k {
        BarsOrdered(bars[1..], k, AlignUp(at, bars[0].Size()) + bars[0].Size());
      } else {
        BarsOrdered(bars[1..], k, at);
      }
    }
  }

  /** A bus that measures 0 has nothing to place. */
  lemma {:induction false} NothingToPlace(ns: seq<Node>, k: Kind, at: nat, base: nat)
    requires BusEnd(ns, k, at) == at
    ensures BusRanges(ns, k, base) == [] && BusEnd(ns, k, base) == base
    ensures InWindows(ns, k, base)
    decreases ns, 0
  {
    if ns != [] {
      NoBars(ns[0].bars, k, at, base);
      assert NodeEnd(ns[0], k, at) == at;
      if ns[0].role.Bus? {
        assert WindowSize(ns[0].role.nodes, k) == 0;
        assert BusEnd(ns[0].role.nodes, k, 0) == 0;
        NothingToPlace(ns[0].role.nodes, k, 0, 0);
      }
      NothingToPlace(ns[1..], k, at, base);
    }
  }

  lemma {:induction false} NoBars(bars: seq<Bar>, k: Kind, at: nat, base: nat)
    requires BarsEnd(bars, k, at) == at
    ensures BarRanges(bars, k, base) == [] && BarsEnd(bars, k, base) == base
    decreases |bars|
  {
    if bars != [] {
      NoBars(bars[1..], k, at, base);
    }
  }

  // ---------- Placement ----------

  /** For every bridge, with those below it: the cursor that starts at its window's base ends within the window. */
  predicate CursorsFit(ns: seq<Node>, k: Kind, at: nat)
    decreases ns, 0
  {
    ns == [] || (NodeFits(ns[0], k, at) && CursorsFit(ns[1..], k, NodeEnd(ns[0], k, at)))
  }

  predicate NodeFits(n: Node, k: Kind, at: nat)
    decreases n, 1
  {
    n.role.Bus? && WindowSize(n.role.nodes, k) != 0 ==>
      var base := WindowBase(n.role.nodes, k, BarsEnd(n.bars, k, at));
      BusEnd(n.role.nodes, k, base) <= base + WindowSize(n.role.nodes, k) && CursorsFit(n.role.nodes, k, base)
  }

  /**
   * Then all BARs on a bus and below are naturally aligned, do not overlap, lie between the cursor's start and end,
   * and each lies in the windows of all bridges above it.
   */
  lemma {:induction false} FittingPlacement(ns: seq<Node>, k: Kind, at: nat)
    requires CursorsFit(ns, k, at)
    ensures Ordered(BusRanges(ns, k, at), at, BusEnd(ns, k, at)) && InWindows(ns, k, at)
    decreases ns, 0
  {
    if ns != [] {
      var mid := NodeEnd(ns[0], k, at);
      FittingNode(ns[0], k, at);
      FittingPlacement(ns[1..], k, mid);
      OrderedConcat(NodeRanges(ns[0], k, at), BusRanges(ns[1..], k, mid), at, mid, BusEnd(ns, k, at));
    }
  }

  lemma {:induction false} FittingNode(n: Node, k: Kind, at: nat)
    requires NodeFits(n, k, at)
    ensures Ordered(NodeRanges(n, k, at), at, NodeEnd(n, k, at)) && NodeInWindows(n, k, at)
    decreases n, 1
  {
    hide AlignUp, WindowAlign, BarsEnd, BarRanges, MultipleOf;
    var own := BarsEnd(n.bars, k, at);
    BarsOrdered(n.bars, k, at);
    if n.role.Bus? {
      var below := n.role.nodes;
      var base := WindowBase(below, k, own);
      if WindowSize(below, k) == 0 {
        NothingToPlace(below, k, 0, 0);
        assert BarRanges(n.bars, k, at) + [] == BarRanges(n.bars, k, at);
      } else {
        FittingPlacement(below, k, base);
        OrderedUpper(BusRanges(below, k, base), base, BusEnd(below, k, base), base + WindowSize(below, k));
        OrderedLower(BusRanges(below, k, base), base, own, base + WindowSize(below, k));
        OrderedConcat(BarRanges(n.bars, k, at), BusRanges(below, k, base), at, own, base + WindowSize(below, k));
      }
    } else {
      assert BarRanges(n.bars, k, at) + [] == BarRanges(n.bars, k, at);
    }
  }

  /** Aligned windows fit. */
  lemma {:induction false} AlignedFits(ns: seq<Node>, k: Kind, at: nat)
    requires WindowsAligned(ns, k, at)
    ensures CursorsFit(ns, k, at)
    decreases ns, 0
  {
    hide AlignUp, WindowAlign, BarsEnd, MultipleOf, BusAligned, NodeEnd;
    if ns != [] {
      var n := ns[0];
      if n.role.Bus? && WindowSize(n.role.nodes, k) != 0 {
        var base := WindowBase(n.role.nodes, k, BarsEnd(n.bars, k, at));
        BusShift(n.role.nodes, k, base, 0);
        AlignedFits(n.role.nodes, k, base);
      }
      AlignedFits(ns[1..], k, NodeEnd(n, k, at));
    }
  }

  lemma PlacementHolds(ns: seq<Node>, k: Kind, at: nat)
    requires WindowsAligned(ns, k, at)
    ensures Ordered(BusRanges(ns, k, at), at, BusEnd(ns, k, at)) && InWindows(ns, k, at)
  {
    AlignedFits(ns, k, at);
    FittingPlacement(ns, k, at);
  }

  // ---------- Exactly when everything stays in its window ----------

  /** What a bus takes up: the BARs of its functions and the windows of its bridges. */
  function Taken(ns: seq<Node>, k: Kind, at: nat): seq<Range>
    decreases |ns|
  {
    if ns == [] then [] else TakenBy(ns[0], k, at) + Taken(ns[1..], k, NodeEnd(ns[0], k, at))
  }

  function TakenBy(n: Node, k: Kind, at: nat): seq<Range> {
    BarRanges(n.bars, k, at) +
    if n.role.Bus? && WindowSize(n.role.nodes, k) != 0
    then [Range(WindowBase(n.role.nodes, k, BarsEnd(n.bars, k, at)), WindowSize(n.role.nodes, k))] else []
  }

  predicate Inside(rs: seq<Range>, lo: nat, hi: nat)
    decreases |rs|
  {
    rs == [] || (lo <= rs[0].lo && rs[0].lo + rs[0].size <= hi && Inside(rs[1..], lo, hi))
  }

  /** In every window lie all BARs and all windows of the bus behind it. */
  predicate Contained(ns: seq<Node>, k: Kind, at: nat)
    decreases ns, 0
  {
    ns == [] || (NodeContained(ns[0], k, at) && Contained(ns[1..], k, NodeEnd(ns[0], k, at)))
  }

  predicate NodeContained(n: Node, k: Kind, at: nat)
    decreases n, 1
  {
    n.role.Bus? && WindowSize(n.role.nodes, k) != 0 ==>
      var base := WindowBase(n.role.nodes, k, BarsEnd(n.bars, k, at));
      && Inside(Taken(n.role.nodes, k, base), base, base + WindowSize(n.role.nodes, k))
      && Contained(n.role.nodes, k, base)
  }

  lemma {:induction false} InsideConcat(x: seq<Range>, y: seq<Range>, lo: nat, hi: nat)
    ensures Inside(x + y, lo, hi) <==> Inside(x, lo, hi) && Inside(y, lo, hi)
    decreases |x|
  {
    if x == [] {
      assert x + y == y;
    } else {
      assert (x + y)[1..] == x[1..] + y;
      InsideConcat(x[1..], y, lo, hi);
    }
  }

  lemma {:induction false} BarsInsideIff(bars: seq<Bar>, k: Kind, lo: nat, at: nat, hi: nat)
    requires lo <= at <= hi
    ensures Inside(BarRanges(bars, k, at), lo, hi) <==> BarsEnd(bars, k, at) <= hi
    decreases |bars|
  {
    hide AlignUp, Pow2;
    if bars != [] {
      if bars[0].kind == k {
        var next := AlignUp(at, bars[0].Size()) + bars[0].Size();
        if next <= hi {
          BarsInsideIff(bars[1..], k, lo, next, hi);
        }
      } else {
        BarsInsideIff(bars[1..], k, lo, at, hi);
      }
    }
  }

  /** What a bus takes up ends where its cursor ends. */
  lemma {:induction false} TakenInsideIff(ns: seq<Node>, k: Kind, lo: nat, at: nat, hi: nat)
    requires lo <= at <= hi
    ensures Inside(Taken(ns, k, at), lo, hi) <==> BusEnd(ns, k, at) <= hi
    decreases |ns|
  {
    hide NodeEnd, TakenBy;
    if ns != [] {
      var mid := NodeEnd(ns[0], k, at);
      InsideConcat(TakenBy(ns[0], k, at), Taken(ns[1..], k, mid), lo, hi);
      TakenByInsideIff(ns[0], k, lo, at, hi);
      if mid <= hi {
        TakenInsideIff(ns[1..], k, lo, mid, hi);
      }
    }
  }

  lemma TakenByInsideIff(n: Node, k: Kind, lo: nat, at: nat, hi: nat)
    requires lo <= at <= hi
    ensures Inside(TakenBy(n, k, at), lo, hi) <==> NodeEnd(n, k, at) <= hi
  {
    hide AlignUp, WindowAlign, BarsEnd, BarRanges, WindowSize;
    var bars, own := BarRanges(n.bars, k, at), BarsEnd(n.bars, k, at);
    BarsInsideIff(n.bars, k, lo, at, hi);
    if n.role.Bus? && WindowSize(n.role.nodes, k) != 0 {
      var window := Range(WindowBase(n.role.nodes, k, own), WindowSize(n.role.nodes, k));
      InsideConcat(bars, [window], lo, hi);
      assert [window][1..] == [];
    } else {
      assert bars + [] == bars;
    }
  }

  /**
   * From a given start everything stays in its window, nested windows included, if and only if for every bridge the
   * cursor on the bus behind it ends within its window.
   */
  lemma {:induction false} ContainedIff(ns: seq<Node>, k: Kind, at: nat)
    ensures Contained(ns, k, at) <==> CursorsFit(ns, k, at)
    decreases ns, 0
  {
    hide AlignUp, WindowAlign, BarsEnd, NodeEnd, WindowSize, Taken, Inside, BusEnd;
    if ns != [] {
      var n := ns[0];
      if n.role.Bus? && WindowSize(n.role.nodes, k) != 0 {
        var base := WindowBase(n.role.nodes, k, BarsEnd(n.bars, k, at));
        TakenInsideIff(n.role.nodes, k, base, base, base + WindowSize(n.role.nodes, k));
        ContainedIff(n.role.nodes, k, base);
      }
      ContainedIff(ns[1..], k, NodeEnd(n, k, at));
    }
  }

  /** Ordered ranges are pairwise disjoint. */
  lemma {:induction false} OrderedDisjoint(rs: seq<Range>, lo: nat, hi: nat, i: nat, j: nat)
    requires Ordered(rs, lo, hi) && i <= j < |rs|
    ensures lo <= rs[i].lo && rs[j].lo + rs[j].size <= hi && rs[i].size > 0 && MultipleOf(rs[i].lo, rs[i].size)
    ensures i < j ==> rs[i].lo + rs[i].size <= rs[j].lo
    decreases |rs|
  {
    var next := rs[0].lo + rs[0].size;
    if j == 0 {
      OrderedReaches(rs[1..], next, hi);
    } else if i == 0 {
      OrderedDisjoint(rs[1..], next, hi, 0, j - 1);
      OrderedDisjoint(rs[1..], next, hi, j - 1, j - 1);
    } else {
      OrderedDisjoint(rs[1..], next, hi, i - 1, j - 1);
    }
  }

  lemma {:induction false} OrderedReaches(rs: seq<Range>, lo: nat, hi: nat)
    requires Ordered(rs, lo, hi)
    ensures lo <= hi
    decreases |rs|
  {
    if rs != [] {
      OrderedReaches(rs[1..], rs[0].lo + rs[0].size, hi);
    }
  }

  // ---------- A condition that can be read off the tree ----------

  predicate BarsAtMost(bars: seq<Bar>, k: Kind, log2: nat)
    decreases |bars|
  {
    bars == [] || ((bars[0].kind == k ==> bars[0].log2 <= log2) && BarsAtMost(bars[1..], k, log2))
  }

  /** No BAR directly on this bus is larger. */
  predicate BusBarsAtMost(ns: seq<Node>, k: Kind, log2: nat)
    decreases |ns|
  {
    ns == [] || (BarsAtMost(ns[0].bars, k, log2) && BusBarsAtMost(ns[1..], k, log2))
  }

  /** No BAR below any bridge is larger than the granularity of bridge windows. */
  predicate SmallBelow(ns: seq<Node>, k: Kind)
    decreases ns, 0
  {
    ns == [] || (NodeSmallBelow(ns[0], k) && SmallBelow(ns[1..], k))
  }

  predicate NodeSmallBelow(n: Node, k: Kind)
    decreases n, 1
  {
    n.role.Bus? ==> BusBarsAtMost(n.role.nodes, k, WindowLog2(k)) && SmallBelow(n.role.nodes, k)
  }

  lemma {:induction false} AtMostDivides(bars: seq<Bar>, k: Kind, log2: nat, base: nat, j: nat)
    requires BarsAtMost(bars, k, log2) && MultipleOf(base, Pow2(log2)) && j < |bars| && bars[j].kind == k
    ensures MultipleOf(base, bars[j].Size())
    decreases |bars|
  {
    if j == 0 {
      Pow2Divides(bars[0].log2, log2);
      MultipleOfMultiple(base, bars[0].Size(), Pow2(log2));
    } else {
      AtMostDivides(bars[1..], k, log2, base, j - 1);
    }
  }

  lemma {:induction false} BusAtMostDivides(ns: seq<Node>, k: Kind, log2: nat, base: nat, i: nat, j: nat)
    requires BusBarsAtMost(ns, k, log2) && MultipleOf(base, Pow2(log2))
    requires i < |ns| && j < |ns[i].bars| && ns[i].bars[j].kind == k
    ensures MultipleOf(base, ns[i].bars[j].Size())
    decreases |ns|
  {
    if i == 0 {
      AtMostDivides(ns[0].bars, k, log2, base, j);
    } else {
      BusAtMostDivides(ns[1..], k, log2, base, i - 1, j);
    }
  }

  lemma SmallBusAligned(ns: seq<Node>, k: Kind, log2: nat, base: nat)
    requires BusBarsAtMost(ns, k, log2) && MultipleOf(base, Pow2(log2)) && WindowLog2(k) <= log2
    ensures BusAligned(ns, k, base)
  {
    Pow2Divides(WindowLog2(k), log2);
    MultipleOfMultiple(base, WindowAlign(k), Pow2(log2));
    forall i, j | 0 <= i < |ns| && 0 <= j < |ns[i].bars| && ns[i].bars[j].kind == k
      ensures MultipleOf(base, ns[i].bars[j].Size())
    {
      BusAtMostDivides(ns, k, log2, base, i, j);
    }
  }

  /** Small BARs below bridges make every window aligned, wherever the walk starts. */
  lemma {:induction false} SmallIsAligned(ns: seq<Node>, k: Kind, at: nat)
    requires SmallBelow(ns, k)
    ensures WindowsAligned(ns, k, at)
    decreases ns, 0
  {
    if ns != [] {
      var n := ns[0];
      if n.role.Bus? && WindowSize(n.role.nodes, k) != 0 {
        var base := WindowBase(n.role.nodes, k, BarsEnd(n.bars, k, at));
        SmallBusAligned(n.role.nodes, k, WindowLog2(k), base);
        SmallIsAligned(n.role.nodes, k, base);
      }
      SmallIsAligned(ns[1..], k, NodeEnd(n, k, at));
    }
  }

  // ---------- The condition is exact ----------

  lemma AtLeastTwice(s: nat, a: nat)
    requires a > 0 && MultipleOf(s, a) && s > a
    ensures s >= 2 * a
  {
    MulBound(s / a - 2, a);
  }

  /** Two window bases one granule apart send a cursor to the same multiple of a larger BAR size. */
  lemma LargeBarCollapses(at: nat, s: nat, a: nat) returns (base: nat)
    requires a > 0 && MultipleOf(s, a) && s > a
    ensures MultipleOf(base, a) && AlignUp(base + at, s) == AlignUp(base + a + at, s)
  {
    hide AlignUp, AlignDown, MultipleOf;
    var down, up := AlignDown(at, a), AlignUp(at, s);
    MultipleOfMultiple(up, a, s);
    MultipleSum(up, down, a);
    base := up - down;
    if down == at {
      MultipleStep(base, a);
      base := base + a;
    }
    AtLeastTwice(s, a);
    MultipleStep(up, s);
    AlignUpLeast(base + at, s, up + s);
    AlignUpLeast(base + a + at, s, up + s);
  }

  /** A BAR no larger than a granule keeps its offset from any aligned base. */
  lemma SmallBarShifts(b: Bar, k: Kind, base: nat, at: nat)
    requires b.log2 <= WindowLog2(k) && MultipleOf(base, WindowAlign(k))
    ensures AlignUp(base + at, b.Size()) == base + AlignUp(at, b.Size())
  {
    hide AlignUp, Pow2, MultipleOf;
    Pow2Divides(b.log2, WindowLog2(k));
    MultipleOfMultiple(base, b.Size(), WindowAlign(k));
    AlignUpShift(base, at, b.Size());
  }

  lemma SmallBarShiftsTwice(b: Bar, k: Kind, base: nat, at: nat)
    requires b.log2 <= WindowLog2(k) && MultipleOf(base, WindowAlign(k))
    ensures AlignUp(base + at, b.Size()) == base + AlignUp(at, b.Size())
    ensures AlignUp(base + WindowAlign(k) + at, b.Size()) == base + WindowAlign(k) + AlignUp(at, b.Size())
  {
    hide AlignUp, Pow2, MultipleOf;
    MultipleStep(base, WindowAlign(k));
    SmallBarShifts(b, k, base, at);
    SmallBarShifts(b, k, base + WindowAlign(k), at);
  }

  lemma LargeBarOnTwo(b: Bar, k: Kind, at: nat) returns (base: nat)
    requires b.log2 > WindowLog2(k)
    ensures MultipleOf(base, WindowAlign(k))
    ensures AlignUp(base + at, b.Size()) == AlignUp(base + WindowAlign(k) + at, b.Size())
  {
    hide AlignUp, Pow2, MultipleOf;
    Pow2Divides(WindowLog2(k), b.log2);
    Pow2Strict(WindowLog2(k), b.log2);
    base := LargeBarCollapses(at, b.Size(), WindowAlign(k));
  }

  lemma BarsEndStep(bars: seq<Bar>, k: Kind, at: nat)
    requires bars != []
    ensures BarsEnd(bars, k, at) ==
            BarsEnd(bars[1..], k, if bars[0].kind == k then AlignUp(at, bars[0].Size()) + bars[0].Size() else at)
  {
  }

  lemma {:induction false} BarsCollapse(bars: seq<Bar>, k: Kind, at: nat) returns (base: nat)
    requires !BarsAtMost(bars, k, WindowLog2(k))
    ensures MultipleOf(base, WindowAlign(k))
    ensures BarsEnd(bars, k, base + at) == BarsEnd(bars, k, base + WindowAlign(k) + at)
    decreases |bars|
  {
    hide AlignUp, Pow2, MultipleOf, WindowAlign, WindowLog2, BarsEnd;
    var b := bars[0];
    if b.kind != k {
      base := BarsCollapse(bars[1..], k, at);
    } else if b.log2 <= WindowLog2(k) {
      base := BarsCollapse(bars[1..], k, AlignUp(at, b.Size()) + b.Size());
      SmallBarShiftsTwice(b, k, base, at);
    } else {
      base := LargeBarOnTwo(b, k, at);
    }
    BarsEndStep(bars, k, base + at);
    BarsEndStep(bars, k, base + WindowAlign(k) + at);
  }

  lemma Pow2Strict(a: nat, b: nat)
    requires a < b
    ensures Pow2(a) < Pow2(b)
  {
    Pow2Divides(a, b - 1);
  }

  /** From two neighbouring aligned bases a walk of the bus ends at the same address. */
  predicate Collapses(ns: seq<Node>, k: Kind, base: nat, at: nat) {
    MultipleOf(base, WindowAlign(k)) && BusEnd(ns, k, base + at) == BusEnd(ns, k, base + WindowAlign(k) + at)
  }

  lemma {:induction false} BusCollapse(ns: seq<Node>, k: Kind, at: nat) returns (base: nat)
    requires !BusBarsAtMost(ns, k, WindowLog2(k))
    ensures Collapses(ns, k, base, at)
    decreases |ns|
  {
    LargeOnBus(ns, k, WindowLog2(k));
    hide *;
    if BarsAtMost(ns[0].bars, k, WindowLog2(k)) {
      base := BusCollapse(ns[1..], k, NodeEnd(ns[0], k, at));
      CollapseBehind(ns, k, base, at);
    } else {
      base := BarsCollapse(ns[0].bars, k, at);
      CollapseHere(ns, k, base, at);
    }
  }

  lemma CollapseBehind(ns: seq<Node>, k: Kind, base: nat, at: nat)
    requires ns != [] && BarsAtMost(ns[0].bars, k, WindowLog2(k))
    requires Collapses(ns[1..], k, base, NodeEnd(ns[0], k, at))
    ensures Collapses(ns, k, base, at)
  {
    hide AlignUp, Pow2, WindowAlign, WindowLog2, BarsEnd, BusEnd, WindowSize, BarsAtMost, NodeEnd, MultipleOf;
    var a := WindowAlign(k);
    MultipleStep(base, a);
    NodeShift(ns[0], k, base, at);
    NodeShift(ns[0], k, base + a, at);
    BusEndStep(ns, k, base + at);
    BusEndStep(ns, k, base + a + at);
  }

  lemma CollapseHere(ns: seq<Node>, k: Kind, base: nat, at: nat)
    requires ns != [] && MultipleOf(base, WindowAlign(k))
    requires BarsEnd(ns[0].bars, k, base + at) == BarsEnd(ns[0].bars, k, base + WindowAlign(k) + at)
    ensures Collapses(ns, k, base, at)
  {
    hide AlignUp, Pow2, WindowAlign, WindowLog2, BarsEnd, BusEnd, WindowSize, BarsAtMost, NodeEnd, MultipleOf;
    var x, y := base + at, base + WindowAlign(k) + at;
    NodeFollowsBars(ns[0], k, x, y);
    BusEndStep(ns, k, x);
    BusEndStep(ns, k, y);
  }

  lemma LargeOnBus(ns: seq<Node>, k: Kind, log2: nat)
    requires !BusBarsAtMost(ns, k, log2)
    ensures ns != [] && (BarsAtMost(ns[0].bars, k, log2) ==> !BusBarsAtMost(ns[1..], k, log2))
  {
    hide BarsAtMost;
  }

  lemma BusEndStep(ns: seq<Node>, k: Kind, at: nat)
    requires ns != []
    ensures BusEnd(ns, k, at) == BusEnd(ns[1..], k, NodeEnd(ns[0], k, at))
  {
    hide NodeEnd;
  }

  lemma NodeFollowsBars(n: Node, k: Kind, x: nat, y: nat)
    requires BarsEnd(n.bars, k, x) == BarsEnd(n.bars, k, y)
    ensures NodeEnd(n, k, x) == NodeEnd(n, k, y)
  {
  }

  lemma NodeShift(n: Node, k: Kind, base: nat, at: nat)
    requires BarsAtMost(n.bars, k, WindowLog2(k)) && MultipleOf(base, WindowAlign(k))
    ensures NodeEnd(n, k, base + at) == base + NodeEnd(n, k, at)
  {
    hide AlignUp, Pow2, MultipleOf, BarsEnd, WindowSize, BarsAtMost;
    forall j | 0 <= j < |n.bars| && n.bars[j].kind == k ensures MultipleOf(base, n.bars[j].Size()) {
      AtMostDivides(n.bars, k, WindowLog2(k), base, j);
    }
    BarsShift(n.bars, k, base, at);
    AlignUpShift(base, BarsEnd(n.bars, k, at), WindowAlign(k));
  }

  lemma WindowAlignIs(k: Kind)
    ensures WindowAlign(k) == Pow2(WindowLog2(k))
  {
  }

  /** The second pass takes exactly the measured amount from wherever the window may be put. */
  ghost predicate PassesAgree(ns: seq<Node>, k: Kind) {
    forall base: nat :: MultipleOf(base, WindowAlign(k)) ==> BusEnd(ns, k, base) == base + BusEnd(ns, k, 0)
  }

  /** That is so exactly when no BAR on the bus is larger than the granularity of windows. */
  lemma PassesAgreeIff(ns: seq<Node>, k: Kind)
    ensures PassesAgree(ns, k) <==> BusBarsAtMost(ns, k, WindowLog2(k))
  {
    hide BusEnd, BusBarsAtMost, WindowAlign, WindowLog2, MultipleOf;
    if BusBarsAtMost(ns, k, WindowLog2(k)) {
      forall base: nat | MultipleOf(base, WindowAlign(k)) ensures BusEnd(ns, k, base) == base + BusEnd(ns, k, 0) {
        WindowAlignIs(k);
        SmallBusAligned(ns, k, WindowLog2(k), base);
        BusShift(ns, k, base, 0);
      }
    } else {
      var base := BusCollapse(ns, k, 0);
      var a := WindowAlign(k);
      MultipleStep(base, a);
      assert BusEnd(ns, k, base) == BusEnd(ns, k, base + a);
    }
  }

  lemma Pow2Values()
    ensures Pow2(12) == 0x1000 && Pow2(20) == 0x10_0000 && Pow2(24) == 0x100_0000
  {
    assert Pow2(12) == 0x1000;
    assert Pow2(20) == 0x10_0000;
  }

  const BIG_CARD := Node(0, 0, [Bar(Mem, 24)], Leaf(false))
  const SMALL_CARD := Node(1, 0, [Bar(Mem, 12)], Leaf(false))
  const BRIDGE_TO_BIG := Node(2, 0, [], Bus(1, 1, [BIG_CARD]))

  lemma BigCardPlaced(at: nat)
    ensures BusEnd([BIG_CARD], Mem, at) == AlignUp(at, 0x100_0000) + 0x100_0000
    ensures BusRanges([BIG_CARD], Mem, at) == [Range(AlignUp(at, 0x100_0000), 0x100_0000)]
  {
    hide AlignUp;
    Pow2Values();
    assert [BIG_CARD][1..] == [] && [Bar(Mem, 24)][1..] == [];
    var lo := AlignUp(at, 0x100_0000);
    assert BarRanges(BIG_CARD.bars, Mem, at) == [Range(lo, 0x100_0000)];
  }

  lemma RoundsTo(value: nat, align: nat, q: nat)
    requires align > 0 && value <= q * align < value + align
    ensures AlignUp(value, align) == q * align
  {
    DivModUnique(q * align, align, q, 0);
    AlignUpLeast(value, align, q * align);
  }

  lemma BigWindow()
    ensures WindowSize([BIG_CARD], Mem) == 0x100_0000
    ensures WindowBase([BIG_CARD], Mem, 0x400_1000) == 0x410_0000
    ensures BusRanges([BIG_CARD], Mem, 0x410_0000) == [Range(0x500_0000, 0x100_0000)]
  {
    hide BusRanges, BusEnd, Pow2, AlignUp;
    Pow2Values();
    BigCardPlaced(0);
    BigCardPlaced(0x410_0000);
    RoundsTo(0, 0x100_0000, 0);
    RoundsTo(0x410_0000, 0x100_0000, 5);
    RoundsTo(0x100_0000, 0x10_0000, 16);
    RoundsTo(0x400_1000, 0x10_0000, 65);
  }

  lemma SmallCardEnds()
    ensures NodeEnd(SMALL_CARD, Mem, 0x400_0000) == 0x400_1000
  {
    Pow2Values();
    assert [Bar(Mem, 12)][1..] == [];
    assert BarsEnd([], Mem, 0x400_1000) == 0x400_1000;
    hide Pow2;
  }

  lemma OneRangeOrdered(r: Range, lo: nat, hi: nat)
    ensures Ordered([r], lo, hi) ==> r.lo + r.size <= hi
  {
    if Ordered([r], lo, hi) {
      assert Ordered([r][1..], r.lo + r.size, hi);
    }
  }

  /**
   * The failing family at its smallest: a 4 KiB memory BAR on the root, then a bridge to a 16 MiB one. The
   * window follows the small BAR at the next megabyte, and the large BAR lands beyond the window's end.
   */
  lemma EscapeExample()
    ensures NodeEnd(SMALL_CARD, Mem, 0x400_0000) == 0x400_1000
    ensures WindowBase([BIG_CARD], Mem, 0x400_1000) == 0x410_0000 && WindowSize([BIG_CARD], Mem) == 0x100_0000
    ensures NodeRanges(BRIDGE_TO_BIG, Mem, 0x400_1000) == [Range(0x500_0000, 0x100_0000)]
    ensures !InWindows([SMALL_CARD, BRIDGE_TO_BIG], Mem, 0x400_0000)
  {
    BigWindow();
    SmallCardEnds();
    OneRangeOrdered(Range(0x500_0000, 0x100_0000), 0x410_0000, 0x510_0000);
    assert [SMALL_CARD, BRIDGE_TO_BIG][1..] == [BRIDGE_TO_BIG];
    hide BusRanges, BusEnd, WindowSize, NodeEnd, Ordered, WindowBase;
    assert !NodeInWindows(BRIDGE_TO_BIG, Mem, 0x400_1000);
  }
}
