/**
 * The bus range registers of the bridges while buses are being numbered: which bridges pass a configuration cycle on.
 */
module PciRoutes {
  import opened Words
  import opened PciTree
  import opened PciBus

  datatype Address = Address(bus: nat, dev: nat, fn: nat)

  /** Secondary and subordinate bus number registers; both are 0 before they are written. */
  datatype BusRange = BusRange(secondary: nat, subordinate: nat)

  type Registers = map<Address, BusRange>

  function RangeAt(regs: Registers, a: Address): BusRange {
    if a in regs then regs[a] else BusRange(0, 0)
  }

  /** A bridge passes on a cycle for bus `b` if it lies in its range. */
  predicate Claims(range: BusRange, b: nat) {
    range.secondary <= b <= range.subordinate
  }

  function AddressOf(e: BridgeInfo): Address {
    Address(e.bus, e.dev, e.fn)
  }

  /** The bus at depth `i` on the way down `path` to `bus`. */
  function Level(path: seq<Address>, bus: nat, i: nat): nat {
    if i < |path| then path[i].bus else bus
  }

  /**
   * Every bridge on the way to `bus` is open up to bus 0xff, one per level; the others on those levels are finished
   * and end below the bus that the open one leads to. Numbers from `next` on are not in use.
   */
  ghost predicate Open(regs: Registers, path: seq<Address>, bus: nat, next: nat) {
    && bus < next && Level(path, bus, 0) == 0
    && (forall i :: 0 <= i < |path| ==> OpenAt(regs, path, bus, i))
    && (forall a :: a in regs
                    ==> a.bus < next && a.bus < regs[a].secondary && (a.bus == bus ==> regs[a].subordinate < next))
  }

  ghost predicate OpenAt(regs: Registers, path: seq<Address>, bus: nat, i: nat)
    requires i < |path|
  {
    var below := Level(path, bus, i + 1);
    && path[i].bus < below && path[i] in regs && regs[path[i]] == BusRange(below, 0xff)
    && (forall a :: a in regs && a.bus == path[i].bus && a != path[i] ==> regs[a].subordinate < below)
  }

  /** On every level exactly one bridge passes cycles for `bus` on, and on the bus itself none does. */
  ghost predicate Routed(regs: Registers, path: seq<Address>, bus: nat) {
    && (forall i, a: Address :: 0 <= i < |path| && a.bus == path[i].bus
                                ==> (Claims(RangeAt(regs, a), bus) <==> a == path[i]))
    && (bus > 0 ==> forall a: Address :: a.bus == bus ==> !Claims(RangeAt(regs, a), bus))
  }

  lemma {:induction false} LevelsGrow(regs: Registers, path: seq<Address>, bus: nat, next: nat, i: nat)
    requires Open(regs, path, bus, next) && i < |path|
    ensures 0 < Level(path, bus, i + 1) <= bus
    decreases |path| - i
  {
    assert OpenAt(regs, path, bus, i);
    if i + 1 < |path| {
      LevelsGrow(regs, path, bus, next, i + 1);
      assert OpenAt(regs, path, bus, i + 1);
    }
  }

  /** Despite the provisional upper bound of 0xff the registers route cycles for the bus being scanned to it alone. */
  lemma OneClaimant(regs: Registers, path: seq<Address>, bus: nat, next: nat)
    requires Open(regs, path, bus, next) && bus <= 0xff
    ensures Routed(regs, path, bus)
  {
    forall i, a: Address | 0 <= i < |path| && a.bus == path[i].bus
      ensures Claims(RangeAt(regs, a), bus) <==> a == path[i]
    {
      assert OpenAt(regs, path, bus, i);
      LevelsGrow(regs, path, bus, next, i);
    }
  }

  function Addresses(table: seq<BridgeInfo>): set<Address> {
    set i | 0 <= i < |table| :: AddressOf(table[i])
  }

  /** The table of bridges says what is in the registers, and no two entries are for the same bridge. */
  ghost predicate Agree(regs: Registers, table: seq<BridgeInfo>) {
    && regs.Keys == Addresses(table)
    && (forall i :: 0 <= i < |table| ==> Recorded(regs, table[i]))
    && (forall i, j :: 0 <= i < j < |table| ==> AddressOf(table[i]) != AddressOf(table[j]))
  }

  lemma AddressesAdd(table: seq<BridgeInfo>, e: BridgeInfo)
    ensures Addresses(table + [e]) == Addresses(table) + {AddressOf(e)}
  {
    var more := table + [e];
    forall a | a in Addresses(table) ensures a in Addresses(more) {
      var i :| 0 <= i < |table| && AddressOf(table[i]) == a;
      assert AddressOf(more[i]) == a;
    }
    assert more[|table|] == e;
  }

  lemma AddressesUpdate(table: seq<BridgeInfo>, i: nat, e: BridgeInfo)
    requires i < |table| && AddressOf(table[i]) == AddressOf(e)
    ensures Addresses(table[i := e]) == Addresses(table)
  {
    var table' := table[i := e];
    assert forall j :: 0 <= j < |table| ==> AddressOf(table'[j]) == AddressOf(table[j]);
  }

  predicate Recorded(regs: Registers, e: BridgeInfo) {
    AddressOf(e) in regs && regs[AddressOf(e)] == BusRange(e.secondary, e.subordinate)
  }

  /** No bridge on `bus` from slot `from` on has been touched. */
  ghost predicate Fresh(regs: Registers, bus: nat, from: nat) {
    forall a :: a in regs && a.bus == bus ==> Slot(a.dev, a.fn) < from
  }

  lemma FreshLater(regs: Registers, bus: nat, from: nat, later: nat)
    requires Fresh(regs, bus, from)
    ensures from <= later ==> Fresh(regs, bus, later)
  {
  }

  /** Only bridges on `bus` from slot `from` on, and on buses from `lo` on, have been touched. */
  ghost predicate Kept(regs: Registers, regs': Registers, bus: nat, from: nat, lo: nat) {
    forall a: Address :: a.bus < lo && !(a.bus == bus && Slot(a.dev, a.fn) >= from) ==>
      (a in regs' <==> a in regs) && (a in regs ==> regs'[a] == regs[a])
  }

  lemma KeptRefl(regs: Registers, bus: nat, from: nat, lo: nat)
    ensures Kept(regs, regs, bus, from, lo)
  {
  }

  lemma KeptJoin(regs: Registers, regs': Registers, regs'': Registers, bus: nat, from: nat, from': nat, lo: nat,
                 lo': nat)
    requires Kept(regs, regs', bus, from, lo) && Kept(regs', regs'', bus, from', lo') && from <= from' && lo <= lo'
    ensures Kept(regs, regs'', bus, from, lo)
  {
  }

  /** A bridge is opened: the bus behind it can be scanned. */
  lemma Opened(regs: Registers, path: seq<Address>, table: seq<BridgeInfo>, e: BridgeInfo, next: nat, from: nat)
    requires Open(regs, path, e.bus, next) && Agree(regs, table) && Fresh(regs, e.bus, from)
    requires from <= Slot(e.dev, e.fn) && e.secondary == next && e.subordinate == 0xff
    ensures var a := AddressOf(e);
            var regs' := regs[a := BusRange(next, 0xff)];
            Open(regs', path + [a], next, next + 1) && Agree(regs', table + [e]) && Fresh(regs', next, 0)
  {
    var a := AddressOf(e);
    var regs', path' := regs[a := BusRange(next, 0xff)], path + [a];
    assert a !in regs;
    AddressesAdd(table, e);
    forall i | 0 <= i < |path'| ensures OpenAt(regs', path', next, i) {
      if i < |path| {
        assert OpenAt(regs, path, e.bus, i);
        LevelsGrow(regs, path, e.bus, next, i);
      }
    }
    forall i | 0 <= i < |table + [e]| ensures Recorded(regs', (table + [e])[i]) {
      if i < |table| {
        assert Recorded(regs, table[i]);
      }
    }
    forall i, j | 0 <= i < j < |table + [e]| ensures AddressOf((table + [e])[i]) != AddressOf((table + [e])[j]) {
      assert Recorded(regs, table[i]);
    }
  }

  /** And closed again: what was open before is open, and nothing outside its own subtree has changed. */
  lemma Closed(regs0: Registers, regs: Registers, path: seq<Address>, table: seq<BridgeInfo>, index: nat, e: BridgeInfo,
               from: nat, next: nat)
    requires index < |table| && AddressOf(table[index]) == AddressOf(e) && Agree(regs, table)
    requires Open(regs, path + [AddressOf(e)], e.secondary, next) && e.subordinate == next - 1
    requires Open(regs0, path, e.bus, e.secondary) && Fresh(regs0, e.bus, from) && from <= Slot(e.dev, e.fn)
    requires Kept(regs0[AddressOf(e) := BusRange(e.secondary, 0xff)], regs, e.secondary, 0, e.secondary + 1)
    ensures var regs' := regs[AddressOf(e) := BusRange(e.secondary, e.subordinate)];
            && Open(regs', path, e.bus, next) && Agree(regs', table[index := e])
            && Fresh(regs', e.bus, Slot(e.dev, e.fn) + 1) && Kept(regs0, regs', e.bus, from, e.secondary)
  {
    ClosedOpen(regs0, regs, path, e, next);
    ClosedAgree(regs, table, index, e);
    hide Open, Agree;
  }

  lemma ClosedOpen(regs0: Registers, regs: Registers, path: seq<Address>, e: BridgeInfo, next: nat)
    requires Open(regs, path + [AddressOf(e)], e.secondary, next) && e.subordinate == next - 1
    requires Open(regs0, path, e.bus, e.secondary)
    requires Kept(regs0[AddressOf(e) := BusRange(e.secondary, 0xff)], regs, e.secondary, 0, e.secondary + 1)
    ensures Open(regs[AddressOf(e) := BusRange(e.secondary, e.subordinate)], path, e.bus, next)
  {
    var a, s := AddressOf(e), e.secondary;
    var regs' := regs[a := BusRange(s, e.subordinate)];
    assert OpenAt(regs, path + [a], s, |path|);
    forall i | 0 <= i < |path| ensures OpenAt(regs', path, e.bus, i) {
      assert OpenAt(regs, path + [a], s, i);
      assert OpenAt(regs0, path, e.bus, i);
      LevelsGrow(regs0, path, e.bus, s, i);
    }
  }

  lemma ClosedAgree(regs: Registers, table: seq<BridgeInfo>, index: nat, e: BridgeInfo)
    requires index < |table| && AddressOf(table[index]) == AddressOf(e) && Agree(regs, table)
    ensures Agree(regs[AddressOf(e) := BusRange(e.secondary, e.subordinate)], table[index := e])
  {
    AddressesUpdate(table, index, e);
    var regs', table' := regs[AddressOf(e) := BusRange(e.secondary, e.subordinate)], table[index := e];
    forall i | 0 <= i < |table'| ensures Recorded(regs', table'[i]) {
      assert Recorded(regs, table[i]);
    }
  }

  // ---------- Routes once all buses are numbered ----------

  /** The entries of the table for `bus` are the bridges among `ns`. */
  ghost predicate LevelIs(table: seq<BridgeInfo>, bus: nat, ns: seq<Node>) {
    && (forall e :: e in table && e.bus == bus ==> OnLevel(bus, ns, e))
    && (forall i :: 0 <= i < |ns| && ns[i].role.Bus? ==> InfoOf(bus, ns[i]) in table)
  }

  ghost predicate OnLevel(bus: nat, ns: seq<Node>, e: BridgeInfo) {
    exists i :: 0 <= i < |ns| && ns[i].role.Bus? && e == InfoOf(bus, ns[i])
  }

  /** So it is on every level. */
  ghost predicate Laid(table: seq<BridgeInfo>, bus: nat, ns: seq<Node>)
    decreases ns, 1
  {
    LevelIs(table, bus, ns) && NodesLaid(table, ns)
  }

  ghost predicate NodesLaid(table: seq<BridgeInfo>, ns: seq<Node>)
    decreases ns, 0
  {
    ns == [] || ((ns[0].role.Bus? ==> Laid(table, ns[0].role.secondary, ns[0].role.nodes)) && NodesLaid(table, ns[1..]))
  }

  lemma {:induction false} LevelEntries(bus: nat, ns: seq<Node>, from: nat, lo: nat, hi: nat)
    requires bus < lo && Nested(ns, lo, hi) && InScanOrder(ns, from)
    ensures LevelIs(TableOf(bus, ns), bus, ns)
    decreases |ns|
  {
    hide Nested, InScanOrder, NodeInScanOrder, NestedOne, InfoOf;
    if ns != [] {
      HeadOrder(ns, from, lo, hi);
      LevelEntries(bus, ns[1..], Slot(ns[0].dev, ns[0].fn) + 1, NextLo(ns[0], lo), hi);
      OwnSlot(ns[0], from);
      HeadEntries(bus, ns[0], lo, hi);
      forall e | e in TableOf(bus, ns) && e.bus == bus ensures OnLevel(bus, ns, e) {
        if e in TableOf(bus, ns[1..]) {
          var i :| 0 <= i < |ns[1..]| && ns[1..][i].role.Bus? && e == InfoOf(bus, ns[1..][i]);
          assert ns[i + 1] == ns[1..][i];
        }
      }
    }
  }

  lemma HeadOrder(ns: seq<Node>, from: nat, lo: nat, hi: nat)
    requires ns != [] && Nested(ns, lo, hi) && InScanOrder(ns, from)
    ensures NodeInScanOrder(ns[0], from) && InScanOrder(ns[1..], Slot(ns[0].dev, ns[0].fn) + 1)
    ensures Nested(ns[1..], NextLo(ns[0], lo), hi) && lo <= NextLo(ns[0], lo)
    ensures ns[0].role.Bus? ==> NestedOne(ns[0], lo, hi)
  {
    hide NodeInScanOrder;
  }

  lemma HeadEntries(bus: nat, n: Node, lo: nat, hi: nat)
    requires bus < lo && (n.role.Bus? ==> NestedOne(n, lo, hi) && InScanOrder(n.role.nodes, 0))
    ensures forall e :: e in TableOne(bus, n) && e.bus == bus ==> n.role.Bus? && e == InfoOf(bus, n)
    ensures n.role.Bus? ==> InfoOf(bus, n) in TableOne(bus, n)
  {
    hide InfoOf, TableOf, InScanOrder;
    if n.role.Bus? {
      TableWithin(n.role.secondary, n.role.nodes, 0, n.role.secondary + 1, n.role.subordinate + 1);
    }
  }

  lemma {:induction false} TableLaid(bus: nat, ns: seq<Node>, lo: nat, hi: nat, pre: seq<BridgeInfo>,
                                     post: seq<BridgeInfo>)
    requires bus < lo && Nested(ns, lo, hi) && InScanOrder(ns, 0)
    requires Away(pre, bus, 0, lo, hi) && Away(post, bus, 0, lo, hi)
    ensures Laid(pre + TableOf(bus, ns) + post, bus, ns)
    decreases ns, 1
  {
    hide Nested, InScanOrder, TableOf, InfoOf, NodesLaid;
    LevelEntries(bus, ns, 0, lo, hi);
    NodesAreLaid(bus, ns, 0, lo, hi, pre, post);
  }

  lemma {:induction false} NodesAreLaid(bus: nat, ns: seq<Node>, from: nat, lo: nat, hi: nat,
                                        pre: seq<BridgeInfo>, post: seq<BridgeInfo>)
    requires bus < lo && Nested(ns, lo, hi) && InScanOrder(ns, from)
    requires Away(pre, bus, from, lo, hi) && Away(post, bus, 0, lo, hi)
    ensures NodesLaid(pre + TableOf(bus, ns) + post, ns)
    decreases ns, 0
  {
    hide TableOne, Nested, NestedOne, InScanOrder, NodeInScanOrder, Laid;
    if ns != [] {
      var n, next := ns[0], Slot(ns[0].dev, ns[0].fn) + 1;
      var own, rest := TableOne(bus, n), TableOf(bus, ns[1..]);
      HeadOrder(ns, from, lo, hi);
      OwnSlot(n, from);
      TableOneWithin(bus, n, from, lo, hi);
      TableWithin(bus, ns[1..], next, NextLo(n, lo), hi);
      assert pre + TableOf(bus, ns) + post == pre + own + (rest + post) == (pre + own) + rest + post;
      if n.role.Bus? {
        HeadIsLaid(bus, n, from, lo, hi, pre, rest, post);
      }
      AwayExtends(bus, n, from, next, lo, hi, pre, own);
      NodesAreLaid(bus, ns[1..], next, NextLo(n, lo), hi, pre + own, post);
    }
  }

  lemma OwnSlot(n: Node, from: nat)
    requires NodeInScanOrder(n, from)
    ensures from <= Slot(n.dev, n.fn) && (n.role.Bus? ==> InScanOrder(n.role.nodes, 0))
  {
    hide InScanOrder;
  }

  lemma {:induction false} HeadIsLaid(bus: nat, n: Node, from: nat, lo: nat, hi: nat,
                                      pre: seq<BridgeInfo>, rest: seq<BridgeInfo>, post: seq<BridgeInfo>)
    requires bus < lo && n.role.Bus? && NestedOne(n, lo, hi) && NodeInScanOrder(n, from)
    requires Away(pre, bus, from, lo, hi) && Away(post, bus, 0, lo, hi)
    requires Within(rest, bus, Slot(n.dev, n.fn) + 1, NextLo(n, lo), hi)
    ensures Laid(pre + TableOne(bus, n) + (rest + post), n.role.secondary, n.role.nodes)
    decreases n, 2
  {
    hide TableOf, Needs, HasVga, Nested, InScanOrder, Laid;
    var s, e, after := n.role.secondary, InfoOf(bus, n), rest + post;
    var below := TableOf(s, n.role.nodes);
    assert pre + TableOne(bus, n) + after == (pre + [e]) + below + after;
    TableLaid(s, n.role.nodes, s + 1, n.role.subordinate + 1, pre + [e], after);
  }

  /** Of all bridges on its bus the one at (dev, fn) alone passes cycles for `b` on. */
  ghost predicate OnlyClaimant(regs: Registers, bus: nat, dev: nat, fn: nat, b: nat) {
    forall a: Address :: a.bus == bus ==> (Claims(RangeAt(regs, a), b) <==> a == Address(bus, dev, fn))
  }

  /** From `bus` on one bridge per level passes cycles for `b` on, down to the bridge that `b` lies behind. */
  ghost predicate RoutedDown(regs: Registers, bus: nat, ns: seq<Node>, b: nat)
    decreases ns
  {
    exists i :: 0 <= i < |ns| && ns[i].role.Bus? && Leads(regs, bus, ns[i], b)
  }

  ghost predicate Leads(regs: Registers, bus: nat, n: Node, b: nat)
    requires n.role.Bus?
    decreases n, 0
  {
    OnlyClaimant(regs, bus, n.dev, n.fn, b)
    && (n.role.secondary == b || RoutedDown(regs, n.role.secondary, n.role.nodes, b))
  }

  predicate Spans(n: Node, b: nat) {
    n.role.Bus? && n.role.secondary <= b <= n.role.subordinate
  }

  /** Exactly one bridge of a level has `b` in its range. */
  lemma {:induction false} OneSpans(ns: seq<Node>, lo: nat, hi: nat, b: nat) returns (i: nat)
    requires Nested(ns, lo, hi) && b in Buses(ns)
    ensures i < |ns| && Spans(ns[i], b) && lo <= b < hi
    ensures forall j :: 0 <= j < |ns| && j != i ==> !Spans(ns[j], b)
    ensures Nested(ns[i].role.nodes, ns[i].role.secondary + 1, ns[i].role.subordinate + 1)
    ensures b == ns[i].role.secondary || b in Buses(ns[i].role.nodes)
    decreases |ns|
  {
    var n := ns[0];
    BusesHead(ns, lo, hi, b);
    if Spans(n, b) {
      i := 0;
      forall j | 0 < j < |ns| ensures !Spans(ns[j], b) {
        RangesAbove(ns[1..], NextLo(n, lo), hi, j - 1);
      }
    } else {
      i := OneSpans(ns[1..], NextLo(n, lo), hi, b);
      i := i + 1;
    }
  }

  lemma {:induction false} RangesAbove(ns: seq<Node>, lo: nat, hi: nat, j: nat)
    requires Nested(ns, lo, hi) && j < |ns|
    ensures ns[j].role.Bus? ==> lo <= ns[j].role.secondary <= ns[j].role.subordinate < hi
    decreases |ns|
  {
    hide Buses, Interval;
    if j > 0 {
      RangesAbove(ns[1..], NextLo(ns[0], lo), hi, j - 1);
    }
  }

  lemma BusesHead(ns: seq<Node>, lo: nat, hi: nat, b: nat)
    requires ns != [] && Nested(ns, lo, hi) && b in Buses(ns)
    ensures Spans(ns[0], b) ==> b == ns[0].role.secondary || b in Buses(ns[0].role.nodes)
    ensures !Spans(ns[0], b) ==> b in Buses(ns[1..])
  {
    var n := ns[0];
    SpansIs(n, lo, hi, b);
    if b in Buses(ns[1..]) {
      BusesInRange(ns[1..], NextLo(n, lo), hi, b);
    }
    hide Nested, NestedOne;
    assert b in BusesOne(n) || b in Buses(ns[1..]);
  }

  lemma SpansIs(n: Node, lo: nat, hi: nat, b: nat)
    requires n.role.Bus? ==> NestedOne(n, lo, hi)
    ensures b in BusesOne(n) <==> Spans(n, b)
  {
    hide Nested, BusesOne;
    BusesOfOne(n);
    if n.role.Bus? {
      InInterval(n.role.secondary, n.role.subordinate + 1, b);
    } else {
      NoBuses(n);
    }
  }

  lemma NoBuses(n: Node)
    requires !n.role.Bus?
    ensures BusesOne(n) == []
  {
  }

  lemma InInterval(lo: nat, hi: nat, b: nat)
    requires lo <= hi
    ensures b in Interval(lo, hi) <==> lo <= b < hi
  {
    if lo <= b < hi {
      assert Interval(lo, hi)[b - lo] == b;
    }
  }

  lemma {:induction false} BusesInRange(ns: seq<Node>, lo: nat, hi: nat, b: nat)
    requires Nested(ns, lo, hi) && b in Buses(ns)
    ensures lo <= b < hi
    decreases |ns|
  {
    var n := ns[0];
    if n.role.Bus? {
      BusesOfOne(n);
      InInterval(n.role.secondary, n.role.subordinate + 1, b);
    }
    if b !in BusesOne(n) {
      BusesInRange(ns[1..], NextLo(n, lo), hi, b);
    }
  }

  lemma ClaimantIs(regs: Registers, table: seq<BridgeInfo>, bus: nat, ns: seq<Node>, b: nat, i: nat)
    requires Agree(regs, table) && LevelIs(table, bus, ns) && b > 0
    requires i < |ns| && ns[i].role.Bus? && Spans(ns[i], b)
    requires forall j :: 0 <= j < |ns| && j != i ==> !Spans(ns[j], b)
    ensures OnlyClaimant(regs, bus, ns[i].dev, ns[i].fn, b)
  {
    hide Spans, InfoOf, Claims;
    EntryRange(regs, table, bus, ns[i], b);
    forall a: Address | a.bus == bus ensures Claims(RangeAt(regs, a), b) <==> a == Address(bus, ns[i].dev, ns[i].fn) {
      if a in regs {
        var x :| 0 <= x < |table| && AddressOf(table[x]) == a;
        assert OnLevel(bus, ns, table[x]);
        var j :| 0 <= j < |ns| && ns[j].role.Bus? && table[x] == InfoOf(bus, ns[j]);
        EntryRange(regs, table, bus, ns[j], b);
      } else {
        NothingClaimed(b);
      }
    }
  }

  lemma NothingClaimed(b: nat)
    ensures b > 0 ==> !Claims(BusRange(0, 0), b)
  {
  }

  /** The registers of a bridge in the table hold its range. */
  lemma EntryRange(regs: Registers, table: seq<BridgeInfo>, bus: nat, n: Node, b: nat)
    requires Agree(regs, table) && n.role.Bus? && InfoOf(bus, n) in table
    ensures AddressOf(InfoOf(bus, n)) == Address(bus, n.dev, n.fn) && Address(bus, n.dev, n.fn) in regs
    ensures Claims(RangeAt(regs, Address(bus, n.dev, n.fn)), b) <==> Spans(n, b)
  {
    hide Needs, HasVga;
    var x :| 0 <= x < |table| && table[x] == InfoOf(bus, n);
    assert Recorded(regs, table[x]);
  }

  lemma {:induction false} LaidAt(table: seq<BridgeInfo>, ns: seq<Node>, i: nat)
    requires NodesLaid(table, ns) && i < |ns| && ns[i].role.Bus?
    ensures Laid(table, ns[i].role.secondary, ns[i].role.nodes)
    decreases |ns|
  {
    hide Laid;
    if i > 0 {
      LaidAt(table, ns[1..], i - 1);
    }
  }

  lemma {:induction false} RouteExists(regs: Registers, table: seq<BridgeInfo>, bus: nat, ns: seq<Node>, lo: nat,
                                       hi: nat, b: nat)
    requires Agree(regs, table) && Laid(table, bus, ns) && Nested(ns, lo, hi) && b in Buses(ns) && b > 0
    ensures RoutedDown(regs, bus, ns, b)
    decreases ns
  {
    hide Nested, NodesLaid, LevelIs, Agree, OnlyClaimant, Buses;
    var i := OneSpans(ns, lo, hi, b);
    ClaimantIs(regs, table, bus, ns, b, i);
    if ns[i].role.secondary != b {
      LaidAt(table, ns, i);
      RouteExists(regs, table, ns[i].role.secondary, ns[i].role.nodes, ns[i].role.secondary + 1,
                  ns[i].role.subordinate + 1, b);
    }
    assert Leads(regs, bus, ns[i], b);
  }

  /** With the final registers every bus that has a number is reached from the root, by one bridge per level. */
  lemma FinalRoutes(fs: seq<Function>, regs: Registers, b: nat)
    requires Scanned(fs, 0) && Agree(regs, TableOf(0, Numbered(fs))) && 1 <= b < Number(fs, FIRST).1.nextBus
    ensures RoutedDown(regs, 0, Numbered(fs), b)
  {
    hide Number, Nested, InScanOrder, Laid, Agree, TableOf, RoutedDown, Same;
    var (ns, c) := Number(fs, FIRST);
    NumberNests(fs, FIRST);
    NumberSame(fs, FIRST, 0);
    TableLaid(0, ns, 1, c.nextBus, [], []);
    assert [] + TableOf(0, ns) + [] == TableOf(0, ns);
    InInterval(1, c.nextBus, b);
    RouteExists(regs, TableOf(0, ns), 0, ns, 1, c.nextBus, b);
  }

  /** All buses below `next` are reached. */
  ghost predicate AllRouted(regs: Registers, ns: seq<Node>, next: nat) {
    forall b :: 1 <= b < next ==> RoutedDown(regs, 0, ns, b)
  }

  lemma FinalRoutesAll(fs: seq<Function>, regs: Registers)
    requires Scanned(fs, 0) && Agree(regs, TableOf(0, Numbered(fs)))
    ensures AllRouted(regs, Numbered(fs), Number(fs, FIRST).1.nextBus)
  {
    hide Number, Agree, TableOf, RoutedDown, Scanned;
    forall b | 1 <= b < Number(fs, FIRST).1.nextBus ensures RoutedDown(regs, 0, Numbered(fs), b) {
      FinalRoutes(fs, regs, b);
    }
  }
}
