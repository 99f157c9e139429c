/** What the two passes come to: every BAR has a range, every bridge its window, and VGA goes where a display is. */
module PciMeaning {
  import opened Words
  import opened PciTree
  import opened PciWindows
  import opened PciBus

  // ---------- Every BAR has a range ----------

  function SizesOf(rs: seq<Range>): seq<nat>
    decreases |rs|
  {
    if rs == [] then [] else [rs[0].size] + SizesOf(rs[1..])
  }

  /** The sizes of the BARs of kind `k`, in the order of the registers. */
  function BarSizes(bars: seq<Bar>, k: Kind): seq<nat>
    decreases |bars|
  {
    if bars == [] then [] else (if bars[0].kind == k then [Pow2(bars[0].log2)] else []) + BarSizes(bars[1..], k)
  }

  /** Those of all functions on a bus, and behind each numbered bridge after its own. */
  function BusSizes(ns: seq<Node>, k: Kind): seq<nat>
    decreases ns, 0
  {
    if ns == [] then [] else NodeSizes(ns[0], k) + BusSizes(ns[1..], k)
  }

  function NodeSizes(n: Node, k: Kind): seq<nat>
    decreases n, 1
  {
    BarSizes(n.bars, k) + if n.role.Bus? then BusSizes(n.role.nodes, k) else []
  }

  lemma {:induction false} SizesConcat(x: seq<Range>, y: seq<Range>)
    ensures SizesOf(x + y) == SizesOf(x) + SizesOf(y)
    decreases |x|
  {
    if x == [] {
      assert x + y == y;
    } else {
      assert (x + y)[1..] == x[1..] + y;
      SizesConcat(x[1..], y);
    }
  }

  lemma {:induction false} BarsPlaced(bars: seq<Bar>, k: Kind, at: nat)
    ensures SizesOf(BarRanges(bars, k, at)) == BarSizes(bars, k)
    decreases |bars|
  {
    hide AlignUp, Pow2;
    if bars != [] {
      if bars[0].kind == k {
        var lo := AlignUp(at, bars[0].Size());
        BarsPlaced(bars[1..], k, lo + bars[0].Size());
      } else {
        BarsPlaced(bars[1..], k, at);
      }
    }
  }

  /** In each address space the ranges handed out are, one for one and in order, those the BARs ask for. */
  lemma {:induction false} EveryBarPlaced(ns: seq<Node>, k: Kind, at: nat)
    ensures SizesOf(BusRanges(ns, k, at)) == BusSizes(ns, k)
    decreases ns, 0
  {
    hide NodeRanges, NodeSizes, NodeEnd;
    if ns != [] {
      NodePlaced(ns[0], k, at);
      EveryBarPlaced(ns[1..], k, NodeEnd(ns[0], k, at));
      SizesConcat(NodeRanges(ns[0], k, at), BusRanges(ns[1..], k, NodeEnd(ns[0], k, at)));
    }
  }

  lemma {:induction false} NodePlaced(n: Node, k: Kind, at: nat)
    ensures SizesOf(NodeRanges(n, k, at)) == NodeSizes(n, k)
    decreases n, 1
  {
    hide BarsEnd, WindowBase, BusRanges, BusSizes;
    var bars := BarRanges(n.bars, k, at);
    BarsPlaced(n.bars, k, at);
    if n.role.Bus? {
      var base := WindowBase(n.role.nodes, k, BarsEnd(n.bars, k, at));
      EveryBarPlaced(n.role.nodes, k, base);
      SizesConcat(bars, BusRanges(n.role.nodes, k, base));
    } else {
      assert bars + [] == bars;
    }
  }

  // ---------- Displays ----------

  /** Following the positions in `path` from bridge to bridge one comes to a display controller. */
  predicate DisplayAt(ns: seq<Node>, path: seq<nat>)
    decreases |path|
  {
    && path != [] && path[0] < |ns|
    && if |path| == 1 then ns[path[0]].role == Leaf(true)
       else ns[path[0]].role.Bus? && DisplayAt(ns[path[0]].role.nodes, path[1..])
  }

  /** VGA is wanted on a bus if and only if there is a display controller on it or behind its bridges, at any depth. */
  lemma VgaIffDisplay(ns: seq<Node>)
    ensures HasVga(ns) <==> HasDisplay(ns)
  {
    if HasVga(ns) {
      var path := DisplayOf(ns);
    } else {
      forall path: seq<nat> ensures !DisplayAt(ns, path) {
        if DisplayAt(ns, path) {
          DisplayIsVga(ns, path);
        }
      }
    }
  }

  ghost predicate HasDisplay(ns: seq<Node>) {
    exists path: seq<nat> :: DisplayAt(ns, path)
  }

  lemma {:induction false} DisplayOf(ns: seq<Node>) returns (path: seq<nat>)
    requires HasVga(ns)
    ensures DisplayAt(ns, path)
    decreases ns
  {
    if NodeVga(ns[0]) {
      if ns[0].role.Bus? {
        var below := DisplayOf(ns[0].role.nodes);
        path := [0] + below;
        assert path[1..] == below;
      } else {
        path := [0];
      }
    } else {
      var other := DisplayOf(ns[1..]);
      path := [other[0] + 1] + other[1..];
      assert path[1..] == other[1..];
    }
  }

  lemma {:induction false} DisplayIsVga(ns: seq<Node>, path: seq<nat>)
    requires DisplayAt(ns, path)
    ensures HasVga(ns)
    decreases ns
  {
    if path[0] == 0 {
      if |path| > 1 {
        DisplayIsVga(ns[0].role.nodes, path[1..]);
      }
    } else {
      var other := [path[0] - 1] + path[1..];
      assert other[1..] == path[1..];
      DisplayIsVga(ns[1..], other);
    }
  }

  // ---------- Windows ----------

  /** The numbered bridges, in the order in which they were found. */
  function Bridges(ns: seq<Node>): seq<Node>
    decreases ns, 0
  {
    if ns == [] then [] else BridgesOne(ns[0]) + Bridges(ns[1..])
  }

  function BridgesOne(n: Node): seq<Node>
    decreases n, 1
  {
    if n.role.Bus? then [n] + Bridges(n.role.nodes) else []
  }

  /** For each of them the ranges of the BARs behind it. */
  function Behind(ns: seq<Node>, k: Kind, at: nat): seq<seq<Range>>
    decreases ns, 0
  {
    if ns == [] then [] else BehindOne(ns[0], k, at) + Behind(ns[1..], k, NodeEnd(ns[0], k, at))
  }

  function BehindOne(n: Node, k: Kind, at: nat): seq<seq<Range>>
    decreases n, 1
  {
    if n.role.Bus? then
      var base := WindowBase(n.role.nodes, k, BarsEnd(n.bars, k, at));
      [BusRanges(n.role.nodes, k, base)] + Behind(n.role.nodes, k, base)
    else []
  }

  /** The window of `w` holds the ranges `rs`, in order and without overlap; without a size there is none. */
  predicate Opens(w: Window, k: Kind, rs: seq<Range>) {
    Ordered(rs, w.base.At(k), w.base.At(k) + w.size.At(k)) && (w.size.At(k) == 0 <==> rs == [])
  }

  /**
   * Windows are programmed for the numbered bridges, one for each. If cursors fit, window `i` holds exactly the BARs
   * behind bridge `i`.
   */
  ghost predicate WindowsHold(ns: seq<Node>, ws: seq<Window>, k: Kind, rs: seq<seq<Range>>) {
    && |ws| == |ns| == |rs|
    && forall i :: 0 <= i < |ws| ==>
                     && ns[i].role.Bus? && ws[i].secondary == ns[i].role.secondary
                     && (ws[i].vga <==> HasDisplay(ns[i].role.nodes))
                     && Opens(ws[i], k, rs[i]) && SizesOf(rs[i]) == BusSizes(ns[i].role.nodes, k)
  }

  lemma HoldConcat(ns: seq<Node>, ws: seq<Window>, rs: seq<seq<Range>>, ns': seq<Node>, ws': seq<Window>,
                   rs': seq<seq<Range>>, k: Kind)
    requires WindowsHold(ns, ws, k, rs) && WindowsHold(ns', ws', k, rs')
    ensures WindowsHold(ns + ns', ws + ws', k, rs + rs')
  {
    hide Opens, HasDisplay, BusSizes, SizesOf;
  }

  lemma HoldOne(n: Node, w: Window, k: Kind, rs: seq<Range>)
    requires n.role.Bus? && w.secondary == n.role.secondary && (w.vga <==> HasDisplay(n.role.nodes))
    requires Opens(w, k, rs) && SizesOf(rs) == BusSizes(n.role.nodes, k)
    ensures WindowsHold([n], [w], k, [rs])
  {
    hide Opens, HasDisplay, BusSizes, SizesOf;
  }

  lemma {:induction false} WindowsAre(ns: seq<Node>, k: Kind, at: Cursor)
    requires CursorsFit(ns, k, at.At(k))
    ensures WindowsHold(Bridges(ns), Windows(ns, at), k, Behind(ns, k, at.At(k)))
    decreases ns, 0
  {
    hide AfterNode, NodeWindows, BehindOne, BridgesOne, NodeEnd, WindowsHold, NodeFits;
    if ns != [] {
      AfterNodeAt(ns[0], k, at);
      NodeWindowsAre(ns[0], k, at);
      WindowsAre(ns[1..], k, AfterNode(ns[0], at));
      HoldConcat(BridgesOne(ns[0]), NodeWindows(ns[0], at), BehindOne(ns[0], k, at.At(k)),
                 Bridges(ns[1..]), Windows(ns[1..], AfterNode(ns[0], at)),
                 Behind(ns[1..], k, NodeEnd(ns[0], k, at.At(k))), k);
    } else {
      NothingHeld(k);
    }
  }

  lemma NothingHeld(k: Kind)
    ensures WindowsHold([], [], k, [])
  {
  }

  lemma AfterNodeAt(n: Node, k: Kind, at: Cursor)
    ensures AfterNode(n, at).At(k) == NodeEnd(n, k, at.At(k))
  {
    hide NodeEnd;
  }

  lemma BasesAt(n: Node, k: Kind, at: Cursor)
    requires n.role.Bus?
    ensures Bases(n.role.nodes, AfterBars(n.bars, at)).At(k) ==
            WindowBase(n.role.nodes, k, BarsEnd(n.bars, k, at.At(k)))
    ensures Needs(n.role.nodes).At(k) == WindowSize(n.role.nodes, k)
  {
    hide WindowBase, BarsEnd, WindowSize;
  }

  /** A bus without BARs takes nothing up, and one that takes nothing up fits everywhere. */
  lemma {:induction false} NothingAsked(ns: seq<Node>, k: Kind, at: nat)
    requires BusSizes(ns, k) == []
    ensures BusEnd(ns, k, at) == at
    decreases ns
  {
    hide AlignUp, Pow2, WindowAlign;
    if ns != [] {
      var n := ns[0];
      assert |NodeSizes(n, k)| == 0 && |BusSizes(ns[1..], k)| == 0;
      assert |BarSizes(n.bars, k)| == 0;
      NoBarsAsked(n.bars, k, at);
      if n.role.Bus? {
        assert |BusSizes(n.role.nodes, k)| == 0;
        NothingAsked(n.role.nodes, k, 0);
        RoundsNothing(k);
      }
      assert NodeEnd(n, k, at) == at;
      NothingAsked(ns[1..], k, at);
    }
  }

  lemma {:induction false} NoBarsAsked(bars: seq<Bar>, k: Kind, at: nat)
    requires BarSizes(bars, k) == []
    ensures BarsEnd(bars, k, at) == at
    decreases |bars|
  {
    if bars != [] {
      NoBarsAsked(bars[1..], k, at);
    }
  }

  lemma RoundsNothing(k: Kind)
    ensures AlignUp(0, WindowAlign(k)) == 0
  {
    AlignUpLeast(0, WindowAlign(k), 0);
  }

  lemma {:induction false} NothingFits(ns: seq<Node>, k: Kind, at: nat)
    requires BusEnd(ns, k, 0) == 0
    ensures CursorsFit(ns, k, at)
    decreases |ns|
  {
    hide AlignUp, Pow2, WindowAlign, BarsEnd;
    if ns != [] {
      NothingToPlace([ns[0]], k, 0, at);
      assert [ns[0]][1..] == [];
      NothingFits(ns[1..], k, at);
    }
  }

  lemma SizeIsRounded(ns: seq<Node>, k: Kind)
    ensures WindowSize(ns, k) == 0 <==> BusEnd(ns, k, 0) == 0
  {
    hide WindowAlign, BusEnd;
    RoundsNothing(k);
  }

  lemma WindowOpens(below: seq<Node>, w: Window, k: Kind)
    requires w.size.At(k) == WindowSize(below, k) && CursorsFit(below, k, w.base.At(k))
    requires WindowSize(below, k) != 0 ==> BusEnd(below, k, w.base.At(k)) <= w.base.At(k) + w.size.At(k)
    requires SizesOf(BusRanges(below, k, w.base.At(k))) == BusSizes(below, k)
    ensures Opens(w, k, BusRanges(below, k, w.base.At(k)))
  {
    var base, rs := w.base.At(k), BusRanges(below, k, w.base.At(k));
    SizeIsRounded(below, k);
    hide WindowSize, CursorsFit, BusSizes;
    if WindowSize(below, k) == 0 {
      NothingToPlace(below, k, 0, base);
    } else {
      FittingPlacement(below, k, base);
      if rs == [] {
        NothingAsked(below, k, 0);
      }
      OrderedUpper(rs, base, BusEnd(below, k, base), base + w.size.At(k));
    }
  }

  lemma {:induction false} NodeWindowsAre(n: Node, k: Kind, at: Cursor)
    requires NodeFits(n, k, at.At(k))
    ensures WindowsHold(BridgesOne(n), NodeWindows(n, at), k, BehindOne(n, k, at.At(k)))
    decreases n, 1
  {
    hide WindowBase, BarsEnd, WindowSize, WindowsHold, Windows, Bridges, Behind, HasVga, HasDisplay, BusRanges,
      BusSizes, Bases, Needs, BusEnd, AfterBars, Ordered, Opens, CursorsFit;
    if n.role.Bus? {
      var below, base := n.role.nodes, Bases(n.role.nodes, AfterBars(n.bars, at));
      var w := Window(n.role.secondary, base, Needs(below), HasVga(below));
      BasesAt(n, k, at);
      VgaIffDisplay(below);
      EveryBarPlaced(below, k, base.At(k));
      if WindowSize(below, k) == 0 {
        SizeIsRounded(below, k);
        NothingFits(below, k, base.At(k));
      }
      WindowOpens(below, w, k);
      WindowsAre(below, k, base);
      HoldOne(n, w, k, BusRanges(below, k, base.At(k)));
      HoldConcat([n], [w], [BusRanges(below, k, base.At(k))], Bridges(below), Windows(below, base),
                 Behind(below, k, base.At(k)), k);
    } else {
      NothingHeld(k);
    }
  }

  // ---------- Bridges without a number ----------

  /** Somewhere a bridge was passed over for want of a number. */
  predicate Skips(ns: seq<Node>)
    decreases ns, 0
  {
    ns != [] && (NodeSkips(ns[0]) || Skips(ns[1..]))
  }

  predicate NodeSkips(n: Node)
    decreases n, 1
  {
    n.role.Skipped? || (n.role.Bus? && Skips(n.role.nodes))
  }

  lemma {:induction false} SkipsWhenFull(fs: seq<Function>, c: Counters)
    requires Skips(Number(fs, c).0)
    ensures Full(Number(fs, c).1)
    decreases fs, 0
  {
    if fs != [] {
      var (n, c1) := NumberOne(fs[0], c);
      var ns := Number(fs[1..], c1).0;
      assert Number(fs, c).0[0] == n && Number(fs, c).0[1..] == ns;
      if NodeSkips(n) {
        NodeSkipsWhenFull(fs[0], c);
      } else {
        SkipsWhenFull(fs[1..], c1);
      }
    }
  }

  lemma {:induction false} NodeSkipsWhenFull(f: Function, c: Counters)
    requires NodeSkips(NumberOne(f, c).0)
    ensures Full(NumberOne(f, c).1)
    decreases f, 1
  {
    hide Number, Skips;
    if f.body.Bridge? && !Full(c) {
      SkipsWhenFull(f.body.behind, Counters(c.bridges + 1, c.nextBus + 1));
    }
  }

  /** A bridge goes without a bus number only when all 15 behind the root have been given out. */
  lemma SkippedOnlyWhenFull(fs: seq<Function>)
    ensures Skips(Numbered(fs)) ==> |Buses(Numbered(fs))| == 15
    ensures |Buses(Numbered(fs))| <= 15
  {
    hide Number, Skips, Buses;
    NumberNests(fs, FIRST);
    if Skips(Numbered(fs)) {
      SkipsWhenFull(fs, FIRST);
    }
  }
}
