/**
 * The two passes of the PCI allocator as they run: the first numbers buses, sizes BARs and fills the bridge
 * table; the second looks bridges up in that table again and hands out addresses.
 */
module PciBus {
  import opened Words
  import opened PciTree
  import opened PciWindows

  const ROOT_IO_BASE := 0x2000
  const ROOT_MEM_MIN_BASE := 0x0400_0000
  const ROOT_MEM_ALIGN := 0x0100_0000

  /** One cursor per address space; also used for the amounts a bus requires. */
  datatype Cursor = Cursor(io: nat, mem: nat, pref: nat) {
    function At(k: Kind): nat {
      match k case Io => io case Mem => mem case Pref => pref
    }

    function With(k: Kind, v: nat): Cursor {
      match k case Io => this.(io := v) case Mem => this.(mem := v) case Pref => this.(pref := v)
    }
  }

  /** The ranges written to BARs so far, per address space and in the order of assignment. */
  datatype Placed = Placed(io: seq<Range>, mem: seq<Range>, pref: seq<Range>) {
    function Of(k: Kind): seq<Range> {
      match k case Io => io case Mem => mem case Pref => pref
    }

    function Add(k: Kind, r: Range): Placed {
      match k
      case Io => this.(io := io + [r])
      case Mem => this.(mem := mem + [r])
      case Pref => this.(pref := pref + [r])
    }

    function Then(p: Placed): Placed {
      Placed(io + p.io, mem + p.mem, pref + p.pref)
    }
  }

  datatype BridgeInfo = BridgeInfo(bus: nat, dev: nat, fn: nat, secondary: nat, subordinate: nat, req: Cursor,
                                   vga: bool) {
    predicate Is(bus: nat, dev: nat, fn: nat) {
      this.bus == bus && this.dev == dev && this.fn == fn
    }
  }

  /** The window registers of one bridge as the second pass programs them. */
  datatype Window = Window(secondary: nat, base: Cursor, size: Cursor, vga: bool)

  // ---------- All three address spaces at once ----------

  function AfterBars(bars: seq<Bar>, at: Cursor): Cursor {
    Cursor(BarsEnd(bars, Io, at.io), BarsEnd(bars, Mem, at.mem), BarsEnd(bars, Pref, at.pref))
  }

  function AfterNode(n: Node, at: Cursor): Cursor {
    Cursor(NodeEnd(n, Io, at.io), NodeEnd(n, Mem, at.mem), NodeEnd(n, Pref, at.pref))
  }

  function AfterBus(ns: seq<Node>, at: Cursor): Cursor {
    Cursor(BusEnd(ns, Io, at.io), BusEnd(ns, Mem, at.mem), BusEnd(ns, Pref, at.pref))
  }

  function Needs(ns: seq<Node>): Cursor {
    Cursor(WindowSize(ns, Io), WindowSize(ns, Mem), WindowSize(ns, Pref))
  }

  function Bases(ns: seq<Node>, own: Cursor): Cursor {
    Cursor(WindowBase(ns, Io, own.io), WindowBase(ns, Mem, own.mem), WindowBase(ns, Pref, own.pref))
  }

  function PlacedBars(bars: seq<Bar>, at: Cursor): Placed {
    Placed(BarRanges(bars, Io, at.io), BarRanges(bars, Mem, at.mem), BarRanges(bars, Pref, at.pref))
  }

  function PlacedNode(n: Node, at: Cursor): Placed {
    Placed(NodeRanges(n, Io, at.io), NodeRanges(n, Mem, at.mem), NodeRanges(n, Pref, at.pref))
  }

  function PlacedBus(ns: seq<Node>, at: Cursor): Placed {
    Placed(BusRanges(ns, Io, at.io), BusRanges(ns, Mem, at.mem), BusRanges(ns, Pref, at.pref))
  }

  const START := Cursor(0, 0, 0)
  const NOTHING := Placed([], [], [])

  predicate HasVga(ns: seq<Node>)
    decreases ns, 0
  {
    ns != [] && (NodeVga(ns[0]) || HasVga(ns[1..]))
  }

  predicate NodeVga(n: Node)
    decreases n, 1
  {
    match n.role
    case Leaf(vga) => vga
    case Bus(_, _, nodes) => HasVga(nodes)
    case _ => false
  }

  function Windows(ns: seq<Node>, at: Cursor): seq<Window>
    decreases ns, 0
  {
    if ns == [] then [] else NodeWindows(ns[0], at) + Windows(ns[1..], AfterNode(ns[0], at))
  }

  function NodeWindows(n: Node, at: Cursor): seq<Window>
    decreases n, 1
  {
    if n.role.Bus? then
      var base := Bases(n.role.nodes, AfterBars(n.bars, at));
      [Window(n.role.secondary, base, Needs(n.role.nodes), HasVga(n.role.nodes))] + Windows(n.role.nodes, base)
    else []
  }

  // ---------- The bridge table ----------

  function InfoOf(bus: nat, n: Node): BridgeInfo
    requires n.role.Bus?
  {
    BridgeInfo(bus, n.dev, n.fn, n.role.secondary, n.role.subordinate, Needs(n.role.nodes), HasVga(n.role.nodes))
  }

  /** The table in the order of discovery: a bridge comes before everything found behind it. */
  function TableOf(bus: nat, ns: seq<Node>): seq<BridgeInfo>
    decreases ns, 0
  {
    if ns == [] then [] else TableOne(bus, ns[0]) + TableOf(bus, ns[1..])
  }

  function TableOne(bus: nat, n: Node): seq<BridgeInfo>
    decreases n, 1
  {
    if n.role.Bus? then [InfoOf(bus, n)] + TableOf(n.role.secondary, n.role.nodes) else []
  }

  function Find(table: seq<BridgeInfo>, bus: nat, dev: nat, fn: nat): Option<BridgeInfo>
    decreases |table|
  {
    if table == [] then None
    else if table[0].Is(bus, dev, fn) then Some(table[0])
    else Find(table[1..], bus, dev, fn)
  }

  lemma {:induction false} FindConcat(x: seq<BridgeInfo>, y: seq<BridgeInfo>, bus: nat, dev: nat, fn: nat)
    ensures Find(x + y, bus, dev, fn) ==
            if Find(x, bus, dev, fn).Some? then Find(x, bus, dev, fn) else Find(y, bus, dev, fn)
    decreases |x|
  {
    if x == [] {
      assert x + y == y;
    } else {
      assert (x + y)[1..] == x[1..] + y;
      FindConcat(x[1..], y, bus, dev, fn);
    }
  }

  lemma {:induction false} FindAbsent(x: seq<BridgeInfo>, bus: nat, dev: nat, fn: nat)
    requires forall i :: 0 <= i < |x| ==> !x[i].Is(bus, dev, fn)
    ensures Find(x, bus, dev, fn) == None
    decreases |x|
  {
    if x != [] {
      FindAbsent(x[1..], bus, dev, fn);
    }
  }

  // ---------- The table answers for every bridge ----------

  /** Every bridge on this bus and below is found under its own address, and skipped ones are not found. */
  predicate Knows(table: seq<BridgeInfo>, bus: nat, ns: seq<Node>)
    decreases ns, 0
  {
    ns == [] || (KnowsOne(table, bus, ns[0]) && Knows(table, bus, ns[1..]))
  }

  predicate KnowsOne(table: seq<BridgeInfo>, bus: nat, n: Node)
    decreases n, 1
  {
    match n.role
    case Bus(secondary, _, nodes) =>
      Find(table, bus, n.dev, n.fn) == Some(InfoOf(bus, n)) && Knows(table, secondary, nodes)
    case Skipped => Find(table, bus, n.dev, n.fn) == None
    case _ => true
  }

  /** The scan visits devices and functions in increasing order, on every bus. */
  predicate InScanOrder(ns: seq<Node>, from: nat)
    decreases ns, 0
  {
    ns == [] || (NodeInScanOrder(ns[0], from) && InScanOrder(ns[1..], Slot(ns[0].dev, ns[0].fn) + 1))
  }

  predicate NodeInScanOrder(n: Node, from: nat)
    decreases n, 1
  {
    n.fn < 8 && from <= Slot(n.dev, n.fn) && (n.role.Bus? ==> InScanOrder(n.role.nodes, 0))
  }

  function Slot(dev: nat, fn: nat): nat {
    8 * dev + fn
  }

  /** No entry belongs to slot `from` or later of `bus`, nor to a bus numbered in [lo, hi). */
  ghost predicate Away(table: seq<BridgeInfo>, bus: nat, from: nat, lo: nat, hi: nat) {
    forall e :: e in table ==> !(e.bus == bus && Slot(e.dev, e.fn) >= from) && !(lo <= e.bus < hi)
  }

  /** What a bus puts into the table: entries for its own slots and for the buses numbered below it. */
  ghost predicate Within(table: seq<BridgeInfo>, bus: nat, from: nat, lo: nat, hi: nat) {
    forall e :: e in table ==> (e.bus == bus && Slot(e.dev, e.fn) >= from) || lo <= e.bus < hi
  }

  function NextLo(n: Node, lo: nat): nat {
    if n.role.Bus? then n.role.subordinate + 1 else lo
  }

  lemma {:induction false} TableWithin(bus: nat, ns: seq<Node>, from: nat, lo: nat, hi: nat)
    requires Nested(ns, lo, hi) && InScanOrder(ns, from)
    ensures Within(TableOf(bus, ns), bus, from, lo, hi)
    decreases ns, 0
  {
    if ns != [] {
      TableOneWithin(bus, ns[0], from, lo, hi);
      TableWithin(bus, ns[1..], Slot(ns[0].dev, ns[0].fn) + 1, NextLo(ns[0], lo), hi);
    }
  }

  lemma {:induction false} TableOneWithin(bus: nat, n: Node, from: nat, lo: nat, hi: nat)
    requires (n.role.Bus? ==> NestedOne(n, lo, hi)) && NodeInScanOrder(n, from)
    ensures Within(TableOne(bus, n), bus, from, lo, hi)
    ensures forall e :: e in TableOne(bus, n) ==> e.Is(bus, n.dev, n.fn) || lo <= e.bus < NextLo(n, lo)
    decreases n, 1
  {
    if n.role.Bus? {
      var s := n.role.secondary;
      TableWithin(s, n.role.nodes, 0, s + 1, n.role.subordinate + 1);
    }
  }

  lemma {:induction false} TableKnows(bus: nat, ns: seq<Node>, from: nat, lo: nat, hi: nat,
                                      pre: seq<BridgeInfo>, post: seq<BridgeInfo>)
    requires bus < lo && Nested(ns, lo, hi) && InScanOrder(ns, from)
    requires Away(pre, bus, from, lo, hi) && Away(post, bus, 0, lo, hi)
    ensures Knows(pre + TableOf(bus, ns) + post, bus, ns)
    decreases ns, 0
  {
    hide Find, KnowsOne, TableOne;
    if ns != [] {
      var n, next := ns[0], Slot(ns[0].dev, ns[0].fn) + 1;
      var own, rest := TableOne(bus, n), TableOf(bus, ns[1..]);
      TableOneWithin(bus, n, from, lo, hi);
      TableWithin(bus, ns[1..], next, NextLo(n, lo), hi);
      assert pre + TableOf(bus, ns) + post == pre + own + (rest + post) == (pre + own) + rest + post;
      HeadKnows(bus, n, from, lo, hi, pre, rest, post);
      AwayExtends(bus, n, from, next, lo, hi, pre, own);
      TableKnows(bus, ns[1..], next, NextLo(n, lo), hi, pre + own, post);
    }
  }

  lemma AwayExtends(bus: nat, n: Node, from: nat, next: nat, lo: nat, hi: nat, pre: seq<BridgeInfo>,
                    own: seq<BridgeInfo>)
    requires bus < lo <= NextLo(n, lo) && next == Slot(n.dev, n.fn) + 1 > from && Away(pre, bus, from, lo, hi)
    requires forall e :: e in own ==> e.Is(bus, n.dev, n.fn) || lo <= e.bus < NextLo(n, lo)
    ensures Away(pre + own, bus, next, NextLo(n, lo), hi)
  {
  }

  lemma HeadKnows(bus: nat, n: Node, from: nat, lo: nat, hi: nat,
                  pre: seq<BridgeInfo>, rest: seq<BridgeInfo>, post: seq<BridgeInfo>)
    requires bus < lo <= NextLo(n, lo) && (n.role.Bus? ==> NestedOne(n, lo, hi)) && NodeInScanOrder(n, from)
    requires Away(pre, bus, from, lo, hi) && Away(post, bus, 0, lo, hi)
    requires Within(rest, bus, Slot(n.dev, n.fn) + 1, NextLo(n, lo), hi)
    ensures KnowsOne(pre + TableOne(bus, n) + (rest + post), bus, n)
    decreases n, 1
  {
    hide Find, TableOf, Needs, HasVga, Nested, InScanOrder, Knows;
    var after := rest + post;
    if n.role.Skipped? {
      FindAbsent(pre + [] + after, bus, n.dev, n.fn);
    } else if n.role.Bus? {
      var s, e := n.role.secondary, InfoOf(bus, n);
      var below := TableOf(s, n.role.nodes);
      FindAbsent(pre, bus, n.dev, n.fn);
      FindHead(e, below + after, n.dev, n.fn);
      FindConcat(pre, [e] + (below + after), bus, n.dev, n.fn);
      assert pre + TableOne(bus, n) + after == pre + ([e] + (below + after)) == (pre + [e]) + below + after;
      TableKnows(s, n.role.nodes, 0, s + 1, n.role.subordinate + 1, pre + [e], after);
    }
  }

  lemma FindHead(e: BridgeInfo, rest: seq<BridgeInfo>, dev: nat, fn: nat)
    requires e.dev == dev && e.fn == fn
    ensures Find([e] + rest, e.bus, dev, fn) == Some(e)
  {
  }

  // ---------- The numbered tree describes the scanned one ----------

  predicate Scanned(fs: seq<Function>, from: nat)
    decreases fs, 0
  {
    fs == [] || (FunctionScanned(fs[0], from) && Scanned(fs[1..], Slot(fs[0].dev, fs[0].fn) + 1))
  }

  predicate FunctionScanned(f: Function, from: nat)
    decreases f, 1
  {
    f.fn < 8 && from <= Slot(f.dev, f.fn) && (f.body.Bridge? ==> Scanned(f.body.behind, 0))
  }

  /** `ns` is `fs` with bus numbers filled in. */
  predicate Same(fs: seq<Function>, ns: seq<Node>)
    decreases fs, 0
  {
    |fs| == |ns| && (fs == [] || (SameOne(fs[0], ns[0]) && Same(fs[1..], ns[1..])))
  }

  predicate SameOne(f: Function, n: Node)
    decreases f, 1
  {
    && n.dev == f.dev && n.fn == f.fn
    && match f.body
       case Endpoint(vga) => n.role == Leaf(vga) && n.bars == f.bars
       case OtherHeader => n.role == Ignored && n.bars == []
       case Bridge(behind) => n.bars == f.bars && (n.role.Skipped? || (n.role.Bus? && Same(behind, n.role.nodes)))
  }

  lemma {:induction false} NumberSame(fs: seq<Function>, c: Counters, from: nat)
    requires Scanned(fs, from)
    ensures Same(fs, Number(fs, c).0) && InScanOrder(Number(fs, c).0, from)
    decreases fs, 0
  {
    hide NodeInScanOrder, SameOne, FunctionScanned, NumberOne;
    if fs != [] {
      var (n, c1) := NumberOne(fs[0], c);
      var (ns, c2) := Number(fs[1..], c1);
      assert Number(fs, c).0[1..] == ns;
      NumberOneSame(fs[0], c, from);
      NumberSame(fs[1..], c1, Slot(fs[0].dev, fs[0].fn) + 1);
    }
  }

  lemma {:induction false} NumberOneSame(f: Function, c: Counters, from: nat)
    requires FunctionScanned(f, from)
    ensures var n := NumberOne(f, c).0;
            SameOne(f, n) && NodeInScanOrder(n, from) && n.dev == f.dev && n.fn == f.fn
    decreases f, 1
  {
    hide Number, Scanned, Same, InScanOrder;
    if f.body.Bridge? {
      NumberSame(f.body.behind, Counters(c.bridges + 1, c.nextBus + 1), 0);
    }
  }

  const FIRST := Counters(0, 1)

  /** The tree as the first pass numbers it from an empty table; bus 0 is the root. */
  function Numbered(fs: seq<Function>): seq<Node> {
    Number(fs, FIRST).0
  }

  /** The table the first pass leaves is exactly what the second needs: no bridge is confused with another. */
  lemma TableIsEnough(fs: seq<Function>)
    requires Scanned(fs, 0)
    ensures Same(fs, Numbered(fs)) && Knows(TableOf(0, Numbered(fs)), 0, Numbered(fs))
  {
    hide Number, InScanOrder, Nested, Same, Knows, TableOf;
    var (ns, c) := Number(fs, FIRST);
    NumberSame(fs, FIRST, 0);
    NumberNests(fs, FIRST);
    TableKnows(0, ns, 0, 1, c.nextBus, [], []);
    assert [] + TableOf(0, ns) + [] == TableOf(0, ns);
  }

  // ---------- Cursors step by step ----------

  /** A request of `size` at `align`; none when the size is 0. */
  function ReqAdd(cursor: nat, size: nat, align: nat): nat
    requires align > 0
  {
    if size == 0 then cursor else AlignUp(cursor, align) + size
  }

  function RoundWindow(size: nat, align: nat): nat
    requires align > 0
  {
    if size == 0 then 0 else AlignUp(size, align)
  }

  lemma RoundWindowIs(ns: seq<Node>, k: Kind)
    ensures RoundWindow(BusEnd(ns, k, 0), WindowAlign(k)) == WindowSize(ns, k)
  {
    hide AlignUp, BusEnd, WindowAlign;
    if BusEnd(ns, k, 0) == 0 {
      DivModUnique(0, WindowAlign(k), 0, 0);
      AlignUpLeast(0, WindowAlign(k), 0);
    }
  }

  function AddBar(b: Bar, at: Cursor): Cursor {
    at.With(b.kind, ReqAdd(at.At(b.kind), b.Size(), b.Size()))
  }

  function RoundWindows(total: Cursor): Cursor {
    Cursor(RoundWindow(total.io, WindowAlign(Io)), RoundWindow(total.mem, WindowAlign(Mem)),
           RoundWindow(total.pref, WindowAlign(Pref)))
  }

  function AddWindows(at: Cursor, size: Cursor): Cursor {
    Cursor(ReqAdd(at.io, size.io, WindowAlign(Io)), ReqAdd(at.mem, size.mem, WindowAlign(Mem)),
           ReqAdd(at.pref, size.pref, WindowAlign(Pref)))
  }

  lemma AfterBarsStep(bars: seq<Bar>, at: Cursor)
    requires bars != []
    ensures AfterBars(bars, at) == AfterBars(bars[1..], AddBar(bars[0], at))
  {
    hide AlignUp, Pow2;
  }

  lemma BarRangesStep(bars: seq<Bar>, k: Kind, at: nat)
    requires bars != []
    ensures var lo := AlignUp(at, bars[0].Size());
            BarRanges(bars, k, at) ==
            if bars[0].kind == k then [Range(lo, bars[0].Size())] + BarRanges(bars[1..], k, lo + bars[0].Size())
            else [] + BarRanges(bars[1..], k, at)
  {
    hide AlignUp, Pow2;
    assert [] + BarRanges(bars[1..], k, at) == BarRanges(bars[1..], k, at);
  }

  lemma PlacedBarsStep(bars: seq<Bar>, at: Cursor)
    requires bars != []
    ensures var b := bars[0];
            PlacedBars(bars, at) ==
            NOTHING.Add(b.kind, Range(AlignUp(at.At(b.kind), b.Size()), b.Size()))
            .Then(PlacedBars(bars[1..], AddBar(b, at)))
  {
    hide AlignUp, Pow2, BarRanges;
    BarRangesStep(bars, Io, at.io);
    BarRangesStep(bars, Mem, at.mem);
    BarRangesStep(bars, Pref, at.pref);
  }

  lemma WindowsRounded(ns: seq<Node>)
    ensures RoundWindows(AfterBus(ns, START)) == Needs(ns)
  {
    hide BusEnd, RoundWindow, WindowAlign, WindowSize;
    RoundWindowIs(ns, Io);
    RoundWindowIs(ns, Mem);
    RoundWindowIs(ns, Pref);
  }

  lemma AfterBridge(n: Node, at: Cursor)
    requires n.role.Bus?
    ensures AfterNode(n, at) == AddWindows(AfterBars(n.bars, at), Needs(n.role.nodes))
  {
    hide AlignUp, WindowAlign, WindowSize, BarsEnd;
  }

  lemma AfterPlain(n: Node, at: Cursor)
    requires !n.role.Bus?
    ensures AfterNode(n, at) == AfterBars(n.bars, at)
  {
  }
}
