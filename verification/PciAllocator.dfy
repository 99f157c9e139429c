/** The allocator itself, with its bridge table and the address registers it has written. */
module PciAllocator {
  import opened Words
  import opened PciTree
  import opened PciWindows
  import opened PciBus
  import opened PciRoutes

  /** What the boot context is told about the root's address spaces. */
  datatype RootSpaces = RootSpaces(base: Cursor, limit: Cursor)

  /** Where the root's cursors start, given RAM size and what the first pass measured; rounding the size wraps. */
  function RootBases(totalBytes: u32, req: Cursor): Cursor {
    var up := AlignUp(totalBytes, ROOT_MEM_ALIGN) % TWO32;
    var mem := if up < ROOT_MEM_MIN_BASE then ROOT_MEM_MIN_BASE else up;
    Cursor(ROOT_IO_BASE, mem, AlignUp(mem + RoundWindow(req.mem, ROOT_MEM_ALIGN), ROOT_MEM_ALIGN))
  }

  method MeasureBars(bars: seq<Bar>, req: Cursor) returns (r: Cursor)
    ensures r == AfterBars(bars, req)
  {
    r := req;
    for i := 0 to |bars|
      invariant AfterBars(bars[i..], r) == AfterBars(bars, req)
    {
      hide AfterBars, AddBar;
      AfterBarsStep(bars[i..], r);
      assert bars[i..][1..] == bars[i + 1..];
      r := AddBar(bars[i], r);
    }
  }

  lemma NoTableEntry(bus: nat, f: Function, c: Counters)
    requires !f.body.Bridge? || Full(c)
    ensures NumberOne(f, c).1 == c && TableOne(bus, NumberOne(f, c).0) == []
  {
  }

  lemma BridgeNumbered(bus: nat, f: Function, c: Counters)
    requires f.body.Bridge? && !Full(c)
    ensures var (ns, c') := Number(f.body.behind, Counters(c.bridges + 1, c.nextBus + 1));
            var n := Node(f.dev, f.fn, f.bars, Bus(c.nextBus, c'.nextBus - 1, ns));
            NumberOne(f, c) == (n, c') && TableOne(bus, n) == [InfoOf(bus, n)] + TableOf(c.nextBus, ns)
  {
    hide Number, TableOf, Needs, HasVga;
  }

  lemma EntryReplaced(before: seq<BridgeInfo>, e: BridgeInfo, after: seq<BridgeInfo>, e': BridgeInfo)
    ensures (before + [e] + after)[|before| := e'] == before + ([e'] + after)
  {
  }

  /** What the scan of the bus behind a bridge has left, and the two registers written last. */
  lemma BridgeDone(regs0: Registers, table0: seq<BridgeInfo>, c0: Counters, path: seq<Address>, f: Function, from: nat,
                   regs: Registers, table: seq<BridgeInfo>, next: nat, done: BridgeInfo)
    requires f.body.Bridge? && c0 == Counters(|table0|, done.secondary) && !Full(c0) && done.dev == f.dev
             && done.fn == f.fn
    requires Open(regs0, path, done.bus, done.secondary) && Fresh(regs0, done.bus, from) && from <= Slot(f.dev, f.fn)
    requires var a := Address(done.bus, f.dev, f.fn);
             && Open(regs, path + [a], done.secondary, next) && Agree(regs, table)
             && Kept(regs0[a := BusRange(done.secondary, 0xff)], regs, done.secondary, 0, done.secondary + 1)
    requires var (ns, c) := Number(f.body.behind, Counters(|table0| + 1, done.secondary + 1));
             && Counters(|table|, next) == c && next >= 1 && done.subordinate == next - 1
             && table == table0 + [BridgeInfo(done.bus, f.dev, f.fn, done.secondary, 0xff, START, false)] +
                TableOf(done.secondary, ns)
             && done.req == RoundWindows(AfterBus(ns, START)) && done.vga == HasVga(ns)
    ensures var n := NumberOne(f, c0).0;
            var regs' := regs[Address(done.bus, f.dev, f.fn) := BusRange(done.secondary, next - 1)];
            && NumberOne(f, c0).1 == Counters(|table|, next) && n.role.Bus?
            && table[|table0| := done] == table0 + TableOne(done.bus, n)
            && done.req == Needs(n.role.nodes) && done.vga == HasVga(n.role.nodes) && done.secondary <= next
            && Open(regs', path, done.bus, next) && Agree(regs', table[|table0| := done])
            && Fresh(regs', done.bus, Slot(f.dev, f.fn) + 1) && Kept(regs0, regs', done.bus, from, done.secondary)
  {
    hide Number, NumberOne, TableOf, TableOne, AfterBus, HasVga, Needs, RoundWindows, Open, Agree, Fresh, Kept;
    BridgeNumbered(done.bus, f, c0);
    var ns := Number(f.body.behind, Counters(|table0| + 1, done.secondary + 1)).0;
    WindowsRounded(ns);
    EntryReplaced(table0, BridgeInfo(done.bus, f.dev, f.fn, done.secondary, 0xff, START, false),
                  TableOf(done.secondary, ns), done);
    Closed(regs0, regs, path, table, |table0|, done, from, next);
  }

  lemma ThenAssociates(p: Placed, q: Placed, r: Placed)
    ensures p.Then(q).Then(r) == p.Then(q.Then(r)) && p.Then(NOTHING) == p
  {
  }

  lemma AddIsThen(p: Placed, k: Kind, r: Range)
    ensures p.Add(k, r) == p.Then(NOTHING.Add(k, r))
  {
  }

  /** What the first pass will have recorded and added up once the functions `fs` are behind it. */
  ghost function Measured(fs: seq<Function>, c: Counters, bus: nat, table: seq<BridgeInfo>, req: Cursor, vga: bool)
    : (Counters, seq<BridgeInfo>, Cursor, bool)
  {
    var (ns, c') := Number(fs, c);
    (c', table + TableOf(bus, ns), AfterBus(ns, req), vga || HasVga(ns))
  }

  lemma MeasuredIs(fs: seq<Function>, c: Counters, bus: nat, table: seq<BridgeInfo>, req: Cursor, vga: bool)
    ensures var (ns, c') := Number(fs, c);
            Measured(fs, c, bus, table, req, vga) ==
              (c', table + TableOf(bus, ns), AfterBus(ns, req), vga || HasVga(ns))
  {
  }

  lemma MeasuredDone(c: Counters, bus: nat, table: seq<BridgeInfo>, req: Cursor, vga: bool)
    ensures Measured([], c, bus, table, req, vga) == (c, table, req, vga)
  {
    assert AfterBus([], req) == req;
    assert TableOf(bus, []) == [] && !HasVga([]) && table + [] == table;
  }

  lemma MeasuredStep(fs: seq<Function>, c: Counters, bus: nat, table: seq<BridgeInfo>, req: Cursor, vga: bool)
    requires fs != []
    ensures var (n, c1) := NumberOne(fs[0], c);
            Measured(fs, c, bus, table, req, vga) ==
            Measured(fs[1..], c1, bus, table + TableOne(bus, n), AfterNode(n, req), vga || NodeVga(n))
  {
    hide NumberOne, TableOne, NodeVga, NodeEnd;
    var (ns, c2) := Number(fs, c);
    var (n, c1) := NumberOne(fs[0], c);
    var rest := Number(fs[1..], c1).0;
    assert ns[1..] == rest;
    assert table + TableOf(bus, ns) == table + TableOne(bus, n) + TableOf(bus, rest);
  }

  // ---------- Second pass ----------

  /** Where the second pass will stand, and what it will have written, once the nodes `ns` are assigned. */
  ghost function Assigned(ns: seq<Node>, at: Cursor, placed: Placed, windows: seq<Window>)
    : (Cursor, Placed, seq<Window>)
  {
    (AfterBus(ns, at), placed.Then(PlacedBus(ns, at)), windows + Windows(ns, at))
  }

  lemma AssignedIs(ns: seq<Node>, at: Cursor, placed: Placed, windows: seq<Window>)
    ensures Assigned(ns, at, placed, windows) ==
            (AfterBus(ns, at), placed.Then(PlacedBus(ns, at)), windows + Windows(ns, at))
  {
  }

  lemma AssignedDone(at: Cursor, placed: Placed, windows: seq<Window>)
    ensures Assigned([], at, placed, windows) == (at, placed, windows)
  {
    assert AfterBus([], at) == at;
    assert PlacedBus([], at) == NOTHING && Windows([], at) == [];
    ThenAssociates(placed, NOTHING, NOTHING);
    assert windows + [] == windows;
  }

  lemma PlacedBusStep(ns: seq<Node>, at: Cursor)
    requires ns != []
    ensures PlacedBus(ns, at) == PlacedNode(ns[0], at).Then(PlacedBus(ns[1..], AfterNode(ns[0], at)))
  {
    hide NodeRanges, NodeEnd;
  }

  lemma AssignedStep(ns: seq<Node>, at: Cursor, placed: Placed, windows: seq<Window>)
    requires ns != []
    ensures Assigned(ns, at, placed, windows) ==
            Assigned(ns[1..], AfterNode(ns[0], at), placed.Then(PlacedNode(ns[0], at)),
                     windows + NodeWindows(ns[0], at))
  {
    hide NodeWindows, PlacedNode, PlacedBus, NodeEnd;
    PlacedBusStep(ns, at);
    ThenAssociates(placed, PlacedNode(ns[0], at), PlacedBus(ns[1..], AfterNode(ns[0], at)));
    assert windows + Windows(ns, at) == windows + NodeWindows(ns[0], at) + Windows(ns[1..], AfterNode(ns[0], at));
  }

  lemma PlacedBridge(n: Node, at: Cursor)
    requires n.role.Bus?
    ensures PlacedNode(n, at) ==
            PlacedBars(n.bars, at).Then(PlacedBus(n.role.nodes, Bases(n.role.nodes, AfterBars(n.bars, at))))
  {
    hide BarRanges, BusRanges, WindowBase, BarsEnd;
  }

  lemma BridgeWindows(n: Node, at: Cursor)
    requires n.role.Bus?
    ensures var base := Bases(n.role.nodes, AfterBars(n.bars, at));
            NodeWindows(n, at) ==
            [Window(n.role.secondary, base, Needs(n.role.nodes), HasVga(n.role.nodes))] + Windows(n.role.nodes, base)
  {
    hide Windows, HasVga, Bases, Needs, AfterBars;
  }

  lemma AssignedPlain(n: Node, at: Cursor)
    requires !n.role.Bus?
    ensures PlacedNode(n, at) == PlacedBars(n.bars, at) && NodeWindows(n, at) == []
  {
  }

  lemma NoBarsNothingPlaced(at: Cursor)
    ensures AfterBars([], at) == at && PlacedBars([], at) == NOTHING
  {
  }

  /** Base of each window and where the parent's cursor goes, as the second pass computes them. */
  function WindowBases(at: Cursor, size: Cursor): Cursor {
    Cursor(if size.io != 0 then AlignUp(at.io, WindowAlign(Io)) else 0,
           if size.mem != 0 then AlignUp(at.mem, WindowAlign(Mem)) else 0,
           if size.pref != 0 then AlignUp(at.pref, WindowAlign(Pref)) else 0)
  }

  lemma WindowBasesAre(ns: seq<Node>, own: Cursor)
    ensures WindowBases(own, Needs(ns)) == Bases(ns, own)
  {
    hide AlignUp, WindowAlign, WindowSize;
  }

  class Allocator {
    var bridges: seq<BridgeInfo>
    var nextBus: nat
    var placed: Placed
    var windows: seq<Window>
    /** The bus range registers of the bridges in configuration space. */
    var ranges: Registers

    constructor ()
      ensures bridges == [] && nextBus == 1 && placed == NOTHING && windows == [] && ranges == map[]
    {
      bridges, nextBus, placed, windows, ranges := [], 1, NOTHING, [], map[];
    }

    function Count(): Counters
      reads this`bridges, this`nextBus
    {
      Counters(|bridges|, nextBus)
    }

    /** The registers lead down `path` to the bus being scanned, and the bridge table agrees with them. */
    ghost predicate Scanning(path: seq<Address>, bus: nat, from: nat)
      reads this`bridges, this`nextBus, this`ranges
    {
      && nextBus <= PCI_MAX_BUS && Open(ranges, path, bus, nextBus) && Agree(ranges, bridges)
      && Fresh(ranges, bus, from)
    }

    /**
     * First pass over one bus: numbers every bridge reached, fills the table and adds up what is needed. All the
     * while exactly one bridge per level passes cycles for this bus on.
     */
    method MeasureBus(bus: nat, fs: seq<Function>, ghost path: seq<Address>) returns (req: Cursor, vga: bool)
      requires Scanning(path, bus, 0) && Scanned(fs, 0)
      modifies this`bridges, this`nextBus, this`ranges
      ensures Count() == Number(fs, old(Count())).1
      ensures bridges == old(bridges) + TableOf(bus, Number(fs, old(Count())).0)
      ensures req == AfterBus(Number(fs, old(Count())).0, START)
      ensures vga == HasVga(Number(fs, old(Count())).0)
      ensures nextBus <= PCI_MAX_BUS && Open(ranges, path, bus, nextBus) && Agree(ranges, bridges)
      ensures Routed(ranges, path, bus) && Kept(old(ranges), ranges, bus, 0, old(nextBus))
      decreases fs, 0
    {
      hide Measured, Number, NumberOne, TableOf, TableOne, AfterBus, AfterNode, HasVga, NodeVga, Open, Agree, Fresh,
        Kept, Routed, FunctionScanned;
      ghost var goal := Measured(fs, Count(), bus, bridges, START, false);
      ghost var from: nat := 0;
      KeptRefl(ranges, bus, 0, nextBus);
      InUse(path, bus, 0);
      OneClaimant(ranges, path, bus, nextBus);
      req, vga := START, false;
      for i := 0 to |fs|
        invariant Measured(fs[i..], Count(), bus, bridges, req, vga) == goal
        invariant Scanned(fs[i..], from) && Scanning(path, bus, from) && nextBus >= old(nextBus)
        invariant Routed(ranges, path, bus) && Kept(old(ranges), ranges, bus, 0, old(nextBus))
      {
        MeasuredStep(fs[i..], Count(), bus, bridges, req, vga);
        assert fs[i..][1..] == fs[i + 1..];
        ghost var before, next := ranges, nextBus;
        req, vga := MeasureFunction(bus, fs[i], req, vga, path, from);
        KeptJoin(old(ranges), before, ranges, bus, 0, from, old(nextBus), next);
        from := Slot(fs[i].dev, fs[i].fn) + 1;
        InUse(path, bus, from);
        OneClaimant(ranges, path, bus, nextBus);
      }
      MeasuredDone(Count(), bus, bridges, req, vga);
      MeasuredIs(fs, old(Count()), bus, old(bridges), START, false);
    }

    lemma InUse(path: seq<Address>, bus: nat, from: nat)
      requires Scanning(path, bus, from)
      ensures bus < PCI_MAX_BUS
    {
      hide Agree, Fresh;
    }

    method MeasureFunction(bus: nat, f: Function, req: Cursor, vga: bool, ghost path: seq<Address>, ghost from: nat)
      returns (req': Cursor, vga': bool)
      requires Scanning(path, bus, from) && FunctionScanned(f, from)
      modifies this`bridges, this`nextBus, this`ranges
      ensures Count() == NumberOne(f, old(Count())).1
      ensures bridges == old(bridges) + TableOne(bus, NumberOne(f, old(Count())).0)
      ensures req' == AfterNode(NumberOne(f, old(Count())).0, req)
      ensures vga' == (vga || NodeVga(NumberOne(f, old(Count())).0))
      ensures Scanning(path, bus, Slot(f.dev, f.fn) + 1) && nextBus >= old(nextBus)
      ensures Kept(old(ranges), ranges, bus, from, old(nextBus))
      decreases f, 2
    {
      hide Number, TableOf, AfterBus, HasVga, BarsEnd, Needs, RoundWindows, AddWindows, AfterNode, AfterBars, Open,
        Agree, Fresh, Kept, Routed, Scanned, TableOne;
      if !f.body.Bridge? || Full(Count()) {
        NoTableEntry(bus, f, Count());
      }
      req', vga' := req, vga;
      ghost var n := NumberOne(f, Count()).0;
      FreshLater(ranges, bus, from, Slot(f.dev, f.fn) + 1);
      KeptRefl(ranges, bus, from, nextBus);
      match f.body {
        case Endpoint(isVga) =>
          req' := MeasureBars(f.bars, req);
          AfterPlain(n, req);
          if isVga {
            vga' := true;
          }
        case OtherHeader =>
          AfterPlain(n, req);
          assert AfterBars([], req) == req by { NoBarsNothingPlaced(req); }
        case Bridge(behind) =>
          req' := MeasureBars(f.bars, req);
          if |bridges| < PCI_MAX_BRIDGES && nextBus < PCI_MAX_BUS {
            var size, childVga := MeasureBridge(bus, f, path, from);
            AfterBridge(n, req);
            req' := AddWindows(req', size);
            vga' := vga || childVga;
          } else {
            AfterPlain(n, req);
          }
      }
    }

    /** A bridge that gets a number: its table entry, its range registers, and the bus behind it. */
    method MeasureBridge(bus: nat, f: Function, ghost path: seq<Address>, ghost from: nat)
      returns (size: Cursor, vga: bool)
      requires f.body.Bridge? && !Full(Count()) && Scanning(path, bus, from) && FunctionScanned(f, from)
      modifies this`bridges, this`nextBus, this`ranges
      ensures Count() == NumberOne(f, old(Count())).1
      ensures bridges == old(bridges) + TableOne(bus, NumberOne(f, old(Count())).0)
      ensures NumberOne(f, old(Count())).0.role.Bus?
      ensures size == Needs(NumberOne(f, old(Count())).0.role.nodes)
              && vga == HasVga(NumberOne(f, old(Count())).0.role.nodes)
      ensures Scanning(path, bus, Slot(f.dev, f.fn) + 1) && nextBus >= old(nextBus)
      ensures Kept(old(ranges), ranges, bus, from, old(nextBus))
      decreases f, 1
    {
      hide *;
      ghost var regs0, table0, c0 := ranges, bridges, Count();
      BridgeStarts(bus, f, path, from);
      var index, secondary, at := |bridges|, nextBus, Address(bus, f.dev, f.fn);
      bridges := bridges + [BridgeInfo(bus, f.dev, f.fn, secondary, 0xff, START, false)];
      nextBus := nextBus + 1;
      ranges := ranges[at := BusRange(secondary, 0xff)];
      ScanningIs(path + [at], secondary, 0);
      var child;
      child, vga := MeasureBus(secondary, f.body.behind, path + [at]);
      ScanningIs(path, bus, 0);
      size := RoundWindows(child);
      var done := BridgeInfo(bus, f.dev, f.fn, secondary, nextBus - 1, size, vga);
      BridgeDone(regs0, table0, c0, path, f, from, ranges, bridges, nextBus, done);
      ranges := ranges[at := BusRange(secondary, nextBus - 1)];
      bridges := bridges[index := done];
      ScanningIs(path, bus, Slot(f.dev, f.fn) + 1);
    }

    lemma ScanningIs(path: seq<Address>, bus: nat, from: nat)
      ensures Count() == Counters(|bridges|, nextBus)
      ensures Scanning(path, bus, from) <==>
              nextBus <= PCI_MAX_BUS && Open(ranges, path, bus, nextBus) && Agree(ranges, bridges)
              && Fresh(ranges, bus, from)
    {
    }

    /** The bridge can be recorded and the bus behind it scanned. */
    lemma BridgeStarts(bus: nat, f: Function, path: seq<Address>, from: nat)
      requires f.body.Bridge? && !Full(Count()) && Scanning(path, bus, from) && FunctionScanned(f, from)
      ensures nextBus < PCI_MAX_BUS && Scanned(f.body.behind, 0) && from <= Slot(f.dev, f.fn)
      ensures Count() == Counters(|bridges|, nextBus) && !Full(Counters(|bridges|, nextBus))
      ensures Open(ranges, path, bus, nextBus) && Fresh(ranges, bus, from)
      ensures var a, e := Address(bus, f.dev, f.fn), BridgeInfo(bus, f.dev, f.fn, nextBus, 0xff, START, false);
              var regs := ranges[a := BusRange(nextBus, 0xff)];
              && Open(regs, path + [a], nextBus, nextBus + 1) && Agree(regs, bridges + [e]) && Fresh(regs, nextBus, 0)
    {
      hide Open, Agree, Fresh, Scanned;
      Opened(ranges, path, bridges, BridgeInfo(bus, f.dev, f.fn, nextBus, 0xff, START, false), nextBus, from);
    }

    method AssignBars(bars: seq<Bar>, alloc: Cursor) returns (r: Cursor)
      modifies this`placed
      ensures r == AfterBars(bars, alloc) && placed == old(placed).Then(PlacedBars(bars, alloc))
    {
      hide AfterBars, PlacedBars, AlignUp;
      r := alloc;
      ghost var goal := placed.Then(PlacedBars(bars, alloc));
      for i := 0 to |bars|
        invariant AfterBars(bars[i..], r) == AfterBars(bars, alloc)
        invariant placed.Then(PlacedBars(bars[i..], r)) == goal
      {
        var b := bars[i];
        AfterBarsStep(bars[i..], r);
        PlacedBarsStep(bars[i..], r);
        assert bars[i..][1..] == bars[i + 1..];
        var range := Range(AlignUp(r.At(b.kind), b.Size()), b.Size());
        AddIsThen(placed, b.kind, range);
        ThenAssociates(placed, NOTHING.Add(b.kind, range), PlacedBars(bars[i + 1..], AddBar(b, r)));
        placed := placed.Add(b.kind, range);
        r := r.With(b.kind, range.lo + range.size);
      }
      assert bars[|bars|..] == [];
      NoBarsNothingPlaced(r);
      ThenAssociates(placed, NOTHING, NOTHING);
    }

    method FindBridge(bus: nat, dev: nat, fn: nat) returns (r: Option<BridgeInfo>)
      ensures r == Find(bridges, bus, dev, fn)
    {
      for i := 0 to |bridges|
        invariant Find(bridges[i..], bus, dev, fn) == Find(bridges, bus, dev, fn)
      {
        assert bridges[i..][1..] == bridges[i + 1..];
        if bridges[i].Is(bus, dev, fn) {
          return Some(bridges[i]);
        }
      }
      return None;
    }

    /** Second pass over one bus, from the window base it was given; `ns` is the tree the first pass numbered. */
    method AssignBus(bus: nat, fs: seq<Function>, alloc: Cursor, ghost ns: seq<Node>) returns (r: Cursor)
      requires Same(fs, ns) && Knows(bridges, bus, ns)
      modifies this`placed, this`windows
      ensures r == AfterBus(ns, alloc)
      ensures placed == old(placed).Then(PlacedBus(ns, alloc)) && windows == old(windows) + Windows(ns, alloc)
      decreases fs, 0
    {
      hide Assigned, AfterBus, AfterNode, PlacedBus, PlacedNode, Windows, NodeWindows, KnowsOne, SameOne, BarsEnd;
      ghost var goal := Assigned(ns, alloc, placed, windows);
      r := alloc;
      for i := 0 to |fs|
        invariant Same(fs[i..], ns[i..]) && Knows(bridges, bus, ns[i..])
        invariant Assigned(ns[i..], r, placed, windows) == goal
      {
        AssignedStep(ns[i..], r, placed, windows);
        assert fs[i..][1..] == fs[i + 1..] && ns[i..][1..] == ns[i + 1..];
        r := AssignFunction(bus, fs[i], r, ns[i]);
      }
      AssignedDone(r, placed, windows);
      AssignedIs(ns, alloc, old(placed), old(windows));
    }

    method AssignFunction(bus: nat, f: Function, alloc: Cursor, ghost n: Node) returns (r: Cursor)
      requires SameOne(f, n) && KnowsOne(bridges, bus, n)
      modifies this`placed, this`windows
      ensures r == AfterNode(n, alloc)
      ensures placed == old(placed).Then(PlacedNode(n, alloc)) && windows == old(windows) + NodeWindows(n, alloc)
      decreases f, 1
    {
      hide Same, Knows, Find, AfterBus, AfterNode, AfterBars, PlacedBus, PlacedNode, PlacedBars, Windows, NodeWindows,
        Needs, Bases, HasVga, WindowBases, AddWindows;
      r := AssignBars(if f.body.OtherHeader? then [] else f.bars, alloc);
      if f.body.Bridge? {
        var found := FindBridge(bus, f.dev, f.fn);
        match found
        case None =>
          assert n.role.Skipped?;
        case Some(bridge) =>
          assert n.role.Bus? && bridge == InfoOf(bus, n);
          WindowBasesAre(n.role.nodes, r);
          PlacedBridge(n, alloc);
          BridgeWindows(n, alloc);
          ThenAssociates(old(placed), PlacedBars(n.bars, alloc), PlacedBus(n.role.nodes, Bases(n.role.nodes, r)));
          AfterBridge(n, alloc);
          var base := WindowBases(r, bridge.req);
          windows := windows + [Window(bridge.secondary, base, bridge.req, bridge.vga)];
          r := AddWindows(r, bridge.req);
          var _ := AssignBus(bridge.secondary, f.body.behind, base, n.role.nodes);
          return;
      }
      AfterPlain(n, alloc);
      AssignedPlain(n, alloc);
    }

    /** Both passes from the root; the result goes into the boot context. */
    method Enumerate(totalBytes: u32, fs: seq<Function>) returns (spaces: RootSpaces)
      requires Scanned(fs, 0)
      modifies this
      ensures Agree(ranges, bridges) && AllRouted(ranges, Numbered(fs), nextBus)
      ensures bridges == TableOf(0, Numbered(fs))
      ensures spaces.base == RootBases(totalBytes, AfterBus(Numbered(fs), START))
      ensures spaces.limit == AfterBus(Numbered(fs), spaces.base)
      ensures placed == PlacedBus(Numbered(fs), spaces.base) && windows == Windows(Numbered(fs), spaces.base)
    {
      hide Number, TableOf, AfterBus, HasVga, Same, Knows, PlacedBus, Windows, RootBases;
      bridges, nextBus, placed, windows, ranges := [], 1, NOTHING, [], map[];
      assert Count() == FIRST;
      var req, _ := MeasureBus(0, fs, []);
      TableIsEnough(fs);
      assert bridges == TableOf(0, Numbered(fs));
      FinalRoutesAll(fs, ranges);
      var base := RootBases(totalBytes, req);
      var limit := AssignBus(0, fs, base, Numbered(fs));
      spaces := RootSpaces(base, limit);
    }
  }

  /**
   * With BARs no larger than a window granule below bridges and root memory BARs of at most 16 MiB: in each address
   * space all BARs are aligned, disjoint, between the root's base and limit and inside the windows of all bridges
   * above them, and memory ends where prefetchable memory begins or earlier. It begins above RAM if and only if RAM
   * is no larger than 4 GiB less 16 MiB. Numbers are unbounded; `PciWords.WordWalk` says when 32-bit cursors
   * do the same.
   */
  lemma RootAssignmentSound(totalBytes: u32, fs: seq<Function>, base: Cursor, k: Kind)
    requires forall k: Kind :: SmallBelow(Numbered(fs), k)
    requires BusBarsAtMost(Numbered(fs), Mem, 24)
    requires base == RootBases(totalBytes, AfterBus(Numbered(fs), START))
    ensures var ns := Numbered(fs);
            && Ordered(PlacedBus(ns, base).Of(k), base.At(k), AfterBus(ns, base).At(k))
            && InWindows(ns, k, base.At(k))
    ensures AfterBus(Numbered(fs), base).mem <= base.pref
    ensures totalBytes <= base.mem <==> totalBytes <= 0xff00_0000
    ensures base.pref < AfterBus(Numbered(fs), base).mem + 0x100_0000
  {
    hide Number, BusEnd, BusRanges, Ordered, InWindows, SmallBelow, BusBarsAtMost, AlignUp, MultipleOf;
    var ns := Numbered(fs);
    SmallIsAligned(ns, k, base.At(k));
    PlacementHolds(ns, k, base.At(k));
    MemoryBelowPrefetch(ns, totalBytes, BusEnd(ns, Mem, 0));
    RootBasesAre(totalBytes, AfterBus(ns, START));
    RoundingWraps(totalBytes);
  }

  /** The rounded RAM size wraps to 0 exactly in the last 16 MiB below 4 GiB. */
  lemma RoundingWraps(totalBytes: u32)
    ensures var up := AlignUp(totalBytes, ROOT_MEM_ALIGN) % TWO32;
            && MultipleOf(up, ROOT_MEM_ALIGN)
            && (if totalBytes <= TWO32 - ROOT_MEM_ALIGN then totalBytes <= up else up == 0)
  {
    var n: int := totalBytes;
    var up: int := AlignUp(n, ROOT_MEM_ALIGN);
    if n <= TWO32 - ROOT_MEM_ALIGN {
      assert up == up / ROOT_MEM_ALIGN * ROOT_MEM_ALIGN;
      assert up <= TWO32 - ROOT_MEM_ALIGN;
      DivModUnique(up, TWO32, 0, up);
    } else {
      assert up == TWO32;
      DivModUnique(up, TWO32, 1, 0);
    }
  }

  /**
   * The root's windows begin at port 0x2000, at 64 MiB or the next 16 MiB boundary above RAM, and for prefetchable
   * memory at the next such boundary behind all other memory.
   */
  lemma RootBasesAre(totalBytes: u32, req: Cursor)
    ensures var base := RootBases(totalBytes, req);
            && base.io == 0x2000 && base.mem % 0x100_0000 == 0 && base.pref % 0x100_0000 == 0
            && 0x400_0000 <= base.mem && (base.mem > 0x400_0000 ==> base.mem < totalBytes + 0x100_0000)
            && base.mem + req.mem <= base.pref < base.mem + req.mem + 0x100_0000
  {
    RoundingWraps(totalBytes);
    var up := AlignUp(totalBytes, ROOT_MEM_ALIGN) % TWO32;
    PrefetchBase(if up < ROOT_MEM_MIN_BASE then ROOT_MEM_MIN_BASE else up, req.mem);
    RoundedUp(totalBytes);
    hide AlignUp, RoundWindow;
  }

  lemma RoundedUp(totalBytes: u32)
    ensures AlignUp(totalBytes, ROOT_MEM_ALIGN) < totalBytes + 0x100_0000
  {
  }

  lemma PrefetchBase(mem: nat, size: nat)
    requires mem % 0x100_0000 == 0
    ensures var p := AlignUp(mem + RoundWindow(size, ROOT_MEM_ALIGN), ROOT_MEM_ALIGN);
            p % 0x100_0000 == 0 && mem + size <= p < mem + size + 0x100_0000
  {
    hide AlignUp, RoundWindow;
    var rounded := RoundWindow(size, ROOT_MEM_ALIGN);
    RoundedSize(size);
    AlignUpShift(mem, rounded, ROOT_MEM_ALIGN);
    AlignUpLeast(rounded, ROOT_MEM_ALIGN, rounded);
  }

  lemma RoundedSize(size: nat)
    ensures var r := RoundWindow(size, ROOT_MEM_ALIGN);
            MultipleOf(r, ROOT_MEM_ALIGN) && size <= r < size + ROOT_MEM_ALIGN
  {
    hide AlignUp;
  }

  lemma RootMinimumAligned()
    ensures MultipleOf(ROOT_MEM_MIN_BASE, ROOT_MEM_ALIGN)
  {
    DivModUnique(ROOT_MEM_MIN_BASE, ROOT_MEM_ALIGN, 4, 0);
  }

  lemma MemoryBelowPrefetch(ns: seq<Node>, totalBytes: u32, measured: nat)
    requires BusBarsAtMost(ns, Mem, 24) && measured == BusEnd(ns, Mem, 0)
    ensures var b := RootBases(totalBytes, Cursor(0, measured, 0)); BusEnd(ns, Mem, b.mem) <= b.pref
    ensures BusEnd(ns, Mem, RootBases(totalBytes, Cursor(0, measured, 0)).mem) ==
            RootBases(totalBytes, Cursor(0, measured, 0)).mem + measured
  {
    hide BusEnd, BusBarsAtMost, AlignUp, MultipleOf;
    var b := RootBases(totalBytes, Cursor(0, measured, 0));
    Pow2Values();
    RoundingWraps(totalBytes);
    RootMinimumAligned();
    SmallBusAligned(ns, Mem, 24, b.mem);
    BusShift(ns, Mem, b.mem, 0);
  }
}
