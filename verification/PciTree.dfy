/** The functions behind a PCI bus, and the depth-first numbering that gives every reachable bus its number. */
module PciTree {
  import opened Words

  const PCI_MAX_BUS := 16
  const PCI_MAX_BRIDGES := 16

  datatype Kind = Io | Mem | Pref

  /** A base address register that answered the size probe: it decodes a power of two. */
  datatype Bar = Bar(kind: Kind, log2: nat) {
    function Size(): (r: nat)
      ensures r > 0
    {
      Pow2(log2)
    }
  }

  /** A function in scan order; `behind` are the functions on the bus a bridge leads to. */
  datatype Function = Function(dev: nat, fn: nat, bars: seq<Bar>, body: Body)
  datatype Body = Endpoint(vga: bool) | Bridge(behind: seq<Function>) | OtherHeader

  /** The same tree once the bus numbers are given; a bridge that found no free number is `Skipped`. */
  datatype Node = Node(dev: nat, fn: nat, bars: seq<Bar>, role: Role)
  datatype Role = Leaf(vga: bool) | Bus(secondary: nat, subordinate: nat, nodes: seq<Node>) | Skipped | Ignored

  /** How many bridges are recorded so far and which bus number is next. */
  datatype Counters = Counters(bridges: nat, nextBus: nat)

  predicate Full(c: Counters) {
    c.bridges >= PCI_MAX_BRIDGES || c.nextBus >= PCI_MAX_BUS
  }

  function Number(fs: seq<Function>, c: Counters): (r: (seq<Node>, Counters))
    ensures |r.0| == |fs|
    ensures r.1.bridges >= c.bridges && r.1.nextBus >= c.nextBus
    ensures r.1.bridges - c.bridges == r.1.nextBus - c.nextBus
    ensures c.nextBus <= PCI_MAX_BUS ==> r.1.nextBus <= PCI_MAX_BUS
    ensures c.bridges <= PCI_MAX_BRIDGES ==> r.1.bridges <= PCI_MAX_BRIDGES
    decreases fs, 0
  {
    if fs == [] then ([], c)
    else
      var (n, c1) := NumberOne(fs[0], c);
      var (ns, c2) := Number(fs[1..], c1);
      ([n] + ns, c2)
  }

  function NumberOne(f: Function, c: Counters): (r: (Node, Counters))
    ensures r.1.bridges >= c.bridges && r.1.nextBus >= c.nextBus
    ensures r.1.bridges - c.bridges == r.1.nextBus - c.nextBus
    ensures c.nextBus <= PCI_MAX_BUS ==> r.1.nextBus <= PCI_MAX_BUS
    ensures c.bridges <= PCI_MAX_BRIDGES ==> r.1.bridges <= PCI_MAX_BRIDGES
    decreases f, 1
  {
    match f.body
    case Endpoint(vga) => (Node(f.dev, f.fn, f.bars, Leaf(vga)), c)
    case OtherHeader => (Node(f.dev, f.fn, [], Ignored), c)
    case Bridge(behind) =>
      if Full(c) then (Node(f.dev, f.fn, f.bars, Skipped), c)
      else
        var (ns, c') := Number(behind, Counters(c.bridges + 1, c.nextBus + 1));
        (Node(f.dev, f.fn, f.bars, Bus(c.nextBus, c'.nextBus - 1, ns)), c')
  }

  // ---------- The numbers form nested ranges ----------

  /** The numbers of all buses below a list of functions, in the order they were given. */
  function Buses(ns: seq<Node>): seq<nat>
    decreases ns, 0
  {
    if ns == [] then [] else BusesOne(ns[0]) + Buses(ns[1..])
  }

  function BusesOne(n: Node): seq<nat>
    decreases n, 1
  {
    if n.role.Bus? then [n.role.secondary] + Buses(n.role.nodes) else []
  }

  function Interval(lo: nat, hi: nat): (r: seq<nat>)
    requires lo <= hi
    ensures |r| == hi - lo && forall i :: 0 <= i < hi - lo ==> r[i] == lo + i
  {
    seq(hi - lo, i requires 0 <= i < hi - lo => lo + i)
  }

  /** Every bridge's range holds exactly the buses reached through it, and its children's ranges nest in it. */
  predicate Nested(ns: seq<Node>, lo: nat, hi: nat)
    decreases ns, 0
  {
    ns == [] ||
    (if ns[0].role.Bus? then
       NestedOne(ns[0], lo, hi) && Nested(ns[1..], ns[0].role.subordinate + 1, hi)
     else Nested(ns[1..], lo, hi))
  }

  predicate NestedOne(n: Node, lo: nat, hi: nat)
    requires n.role.Bus?
    decreases n, 1
  {
    && lo <= n.role.secondary <= n.role.subordinate < hi
    && Buses([n]) == Interval(n.role.secondary, n.role.subordinate + 1)
    && Nested(n.role.nodes, n.role.secondary + 1, n.role.subordinate + 1)
  }

  lemma IntervalsJoin(a: nat, b: nat, c: nat)
    requires a <= b <= c
    ensures Interval(a, b) + Interval(b, c) == Interval(a, c)
  {
  }

  /** Depth-first numbering is laminar: the buses found form one interval, nested bridge by bridge. */
  lemma {:induction false} NumberNests(fs: seq<Function>, c: Counters)
    ensures var (ns, c') := Number(fs, c);
            Buses(ns) == Interval(c.nextBus, c'.nextBus) && Nested(ns, c.nextBus, c'.nextBus)
    decreases fs, 0
  {
    if fs != [] {
      var (n, c1) := NumberOne(fs[0], c);
      var (ns, c2) := Number(fs[1..], c1);
      NumberOneNests(fs[0], c, c2.nextBus);
      NumberNests(fs[1..], c1);
      assert ([n] + ns)[1..] == ns;
      IntervalsJoin(c.nextBus, c1.nextBus, c2.nextBus);
    }
  }

  lemma {:induction false} NumberOneNests(f: Function, c: Counters, hi: nat)
    requires NumberOne(f, c).1.nextBus <= hi
    ensures var (n, c') := NumberOne(f, c);
            && BusesOne(n) == Interval(c.nextBus, c'.nextBus)
            && (if n.role.Bus? then NestedOne(n, c.nextBus, hi) && n.role.subordinate + 1 == c'.nextBus
                else c' == c)
    decreases f, 1
  {
    hide Number, Nested;
    if f.body.Bridge? && !Full(c) {
      var (ns, c') := Number(f.body.behind, Counters(c.bridges + 1, c.nextBus + 1));
      NumberNests(f.body.behind, Counters(c.bridges + 1, c.nextBus + 1));
      var n := NumberOne(f, c).0;
      IntervalsJoin(c.nextBus, c.nextBus + 1, c'.nextBus);
      assert Interval(c.nextBus, c.nextBus + 1) == [c.nextBus];
      BusesOfOne(n);
    }
  }

  lemma BusesOfOne(n: Node)
    ensures Buses([n]) == BusesOne(n)
  {
    hide BusesOne;
    assert [n][1..] == [];
    assert BusesOne(n) + [] == BusesOne(n);
  }
}
