/**
 * The window registers of a bridge: what the second pass writes, and which addresses the bridge then passes on
 * (sections 3.2.5.6 to 3.2.5.10 of the PCI-to-PCI Bridge Architecture Specification).
 */
module PciRegisters {
  import opened Words
  import opened PciTree
  import opened PciWindows
  import opened PciBus

  // ---------- What is written ----------

  /** Base and limit of ports: the 16-bit register at 0x1c and the upper halves at 0x30 and 0x32. */
  datatype IoRegisters = IoRegisters(low: u16, baseUpper: u16, limitUpper: u16)

  /** pci_bridge_set_io_window. */
  function IoWindow(base: u32, size: u32): IoRegisters {
    if size == 0 then IoRegisters(0x00f0, 0, 0)
    else
      var limit: u32 := (base + (size as int) - 1) % TWO32;
      var low: u16 := base / 0x1000 % 0x10 * 0x10 + 0x100 * (limit / 0x1000 % 0x10 * 0x10);
      IoRegisters(low, base / 0x1_0000, limit / 0x1_0000)
  }

  /** pci_bridge_set_mem_window: the 32-bit register at 0x20, or at 0x24 for prefetchable memory. */
  function MemWindow(base: u32, size: u32): u32 {
    if size == 0 then 0x0000_fff0
    else
      var limit: u32 := (base + (size as int) - 1) % TWO32;
      base / 0x10_0000 * 0x10 + 0x1_0000 * (limit / 0x10_0000 * 0x10)
  }

  // ---------- What the bridge makes of it ----------

  /** A port is passed on from the 4 KiB block of the base to the end of that of the limit. */
  predicate PassesPort(r: IoRegisters, a: u32) {
    && 0x1_0000 * (r.baseUpper as int) + r.low % 0x100 / 0x10 * 0x1000 <= a
    && a < 0x1_0000 * (r.limitUpper as int) + r.low / 0x100 / 0x10 * 0x1000 + 0x1000
  }

  /** Memory likewise, in blocks of 1 MiB. */
  predicate PassesMemory(r: u32, a: u32) {
    r % 0x1_0000 / 0x10 * 0x10_0000 <= a < r / 0x1_0000 / 0x10 * 0x10_0000 + 0x10_0000
  }

  /** Splitting a 32-bit limit into its last 4 KiB block. */
  lemma IoFields(base: u32, limit: u32)
    ensures var b, l: int := base / 0x1000 % 0x10 * 0x10, limit / 0x1000 % 0x10 * 0x10;
            var low := b + 0x100 * l;
            && low % 0x100 / 0x10 == base / 0x1000 % 0x10 && low / 0x100 / 0x10 == limit / 0x1000 % 0x10
  {
    var b, l: int := base / 0x1000 % 0x10 * 0x10, limit / 0x1000 % 0x10 * 0x10;
    DivModUnique(b + 0x100 * l, 0x100, l, b);
    DivModUnique(b, 0x10, base / 0x1000 % 0x10, 0);
    DivModUnique(l, 0x10, limit / 0x1000 % 0x10, 0);
  }

  lemma Blocks(x: u32)
    ensures 0x1_0000 * (x / 0x1_0000) + x / 0x1000 % 0x10 * 0x1000 == x - x % 0x1000
  {
    var q, r := x / 0x1_0000, x % 0x1_0000;
    DivModUnique(x, 0x1000, 0x10 * q + r / 0x1000, r % 0x1000);
    DivModUnique(0x10 * q + r / 0x1000, 0x10, q, r / 0x1000);
  }

  lemma LastByte(base: int, size: int, unit: int)
    requires unit > 0 && base % unit == 0 && size % unit == 0 && size > 0
    ensures (base + size - 1) % unit == unit - 1
  {
    DivModUnique(base + size - 1, unit, base / unit + size / unit - 1, unit - 1);
  }

  /** With the registers of a port window the bridge passes on exactly the ports of the window. */
  lemma IoWindowExactly(base: u32, size: u32, a: u32)
    requires base % 0x1000 == 0 && size % 0x1000 == 0 && base + (size as int) <= TWO32
    ensures PassesPort(IoWindow(base, size), a) <==> base <= a < base + (size as int)
  {
    if size > 0 {
      var limit: int := base + (size as int) - 1;
      DivModUnique(limit, TWO32, 0, limit);
      IoFields(base, limit);
      Blocks(base);
      Blocks(limit);
      LastByte(base, size, 0x1000);
    }
  }

  lemma MemFields(b: nat, l: nat)
    requires b < 0x1000 && l < 0x1000
    ensures var r := b * 0x10 + 0x1_0000 * (l * 0x10);
            r < TWO32 && r % 0x1_0000 / 0x10 == b && r / 0x1_0000 / 0x10 == l
  {
    DivModUnique(b * 0x10 + 0x1_0000 * (l * 0x10), 0x1_0000, l * 0x10, b * 0x10);
    DivModUnique(b * 0x10, 0x10, b, 0);
    DivModUnique(l * 0x10, 0x10, l, 0);
  }

  /** And so it does with those of a memory window. */
  lemma MemWindowExactly(base: u32, size: u32, a: u32)
    requires base % 0x10_0000 == 0 && size % 0x10_0000 == 0 && base + (size as int) <= TWO32
    ensures PassesMemory(MemWindow(base, size), a) <==> base <= a < base + (size as int)
  {
    if size > 0 {
      var limit: int := base + (size as int) - 1;
      DivModUnique(limit, TWO32, 0, limit);
      MemFields(base / 0x10_0000, limit / 0x10_0000);
      LastByte(base, size, 0x10_0000);
    } else {
      MemFields(0xfff, 0);
    }
  }

  // ---------- The windows of the second pass ----------

  /** All windows begin and end on the blocks that the registers can express. */
  ghost predicate OnBlocks(ws: seq<Window>) {
    forall i :: 0 <= i < |ws| ==> WindowOnBlocks(ws[i])
  }

  predicate WindowOnBlocks(w: Window) {
    && w.base.io % 0x1000 == 0 && w.size.io % 0x1000 == 0 && w.base.mem % 0x10_0000 == 0 && w.size.mem % 0x10_0000 == 0
    && w.base.pref % 0x10_0000 == 0 && w.size.pref % 0x10_0000 == 0
  }

  lemma {:induction false} WindowsOnBlocks(ns: seq<Node>, at: Cursor)
    ensures OnBlocks(Windows(ns, at))
    decreases ns, 0
  {
    hide AfterNode, NodeWindows, WindowOnBlocks;
    if ns != [] {
      NodeOnBlocks(ns[0], at);
      WindowsOnBlocks(ns[1..], AfterNode(ns[0], at));
    }
  }

  lemma {:induction false} NodeOnBlocks(n: Node, at: Cursor)
    ensures OnBlocks(NodeWindows(n, at))
    decreases n, 1
  {
    hide WindowBase, WindowSize, Windows, HasVga, AfterBars, WindowOnBlocks;
    if n.role.Bus? {
      var below, own := n.role.nodes, AfterBars(n.bars, at);
      OneOnBlocks(Window(n.role.secondary, Bases(below, own), Needs(below), HasVga(below)), below, own);
      WindowsOnBlocks(below, Bases(below, own));
    }
  }

  lemma OneOnBlocks(w: Window, below: seq<Node>, own: Cursor)
    requires w.base == Bases(below, own) && w.size == Needs(below)
    ensures WindowOnBlocks(w)
  {
    Granules();
    BaseOnBlocks(below, Io, own.io);
    BaseOnBlocks(below, Mem, own.mem);
    BaseOnBlocks(below, Pref, own.pref);
    hide WindowBase, WindowSize, WindowAlign;
  }

  lemma Granules()
    ensures WindowAlign(Io) == 0x1000 && WindowAlign(Mem) == 0x10_0000 && WindowAlign(Pref) == 0x10_0000
  {
    Pow2Values();
  }

  lemma BaseOnBlocks(below: seq<Node>, k: Kind, own: nat)
    ensures WindowBase(below, k, own) % WindowAlign(k) == 0 && WindowSize(below, k) % WindowAlign(k) == 0
  {
    hide BusEnd, WindowAlign, AlignUp;
    if WindowBase(below, k, own) == 0 {
      DivModUnique(0, WindowAlign(k), 0, 0);
    }
  }

  /**
   * So every window below 4 GiB is programmed into its bridge exactly: the bridge passes on the addresses of its window
   * and no others.
   */
  lemma WindowsProgrammed(ns: seq<Node>, at: Cursor, i: nat, a: u32)
    requires i < |Windows(ns, at)|
    ensures var w := Windows(ns, at)[i];
            && (w.base.io + w.size.io <= TWO32 && w.size.io < TWO32 && w.base.io < TWO32 ==>
                  (PassesPort(IoWindow(w.base.io, w.size.io), a) <==> w.base.io <= a < w.base.io + w.size.io))
            && (w.base.mem + w.size.mem <= TWO32 && w.size.mem < TWO32 && w.base.mem < TWO32 ==>
                  (PassesMemory(MemWindow(w.base.mem, w.size.mem), a) <==> w.base.mem <= a < w.base.mem + w.size.mem))
            && (w.base.pref + w.size.pref <= TWO32 && w.size.pref < TWO32 && w.base.pref < TWO32 ==>
                  (PassesMemory(MemWindow(w.base.pref, w.size.pref), a) <==>
                   w.base.pref <= a < w.base.pref + w.size.pref))
  {
    WindowsOnBlocks(ns, at);
    var w := Windows(ns, at)[i];
    assert WindowOnBlocks(w);
    hide Windows, PassesPort, PassesMemory, IoWindow, MemWindow;
    if w.base.io + w.size.io <= TWO32 && w.size.io < TWO32 && w.base.io < TWO32 {
      IoWindowExactly(w.base.io, w.size.io, a);
    }
    if w.base.mem + w.size.mem <= TWO32 && w.size.mem < TWO32 && w.base.mem < TWO32 {
      MemWindowExactly(w.base.mem, w.size.mem, a);
    }
    if w.base.pref + w.size.pref <= TWO32 && w.size.pref < TWO32 && w.base.pref < TWO32 {
      MemWindowExactly(w.base.pref, w.size.pref, a);
    }
  }
}
