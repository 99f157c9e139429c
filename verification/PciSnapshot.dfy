/**
 * The snapshot of all PCI functions taken for later stages. It follows whatever secondary bus numbers the bridges
 * hold, so it has to cope with any configuration space, even one whose bridges point back at each other.
 */
module PciSnapshot {
  import opened Words

  const MAX_DEVICES := 64
  const NO_PARENT := 0xffff

  /** What configuration space answers for one function. */
  datatype Answer = Answer(present: bool, header: u8, secondary: u8, subordinate: u8)

  datatype Device = Device(bus: nat, dev: nat, fn: nat, header: u8, secondary: u8, subordinate: u8, parent: nat)

  type Space = (nat, nat, nat) -> Answer

  predicate IsBridge(header: u8) {
    header % 0x80 == 1
  }

  /** A bridge the scan follows. */
  predicate LeadsOn(d: Device) {
    IsBridge(d.header) && d.secondary != 0 && d.secondary <= d.subordinate
  }

  /** The functions a bus scan sees: function 0 first, the others only on multi-function devices. */
  predicate Visible(space: Space, bus: nat, dev: nat, fn: nat) {
    && dev < 32 && fn < 8 && space(bus, dev, 0).present && space(bus, dev, fn).present
    && (fn == 0 || space(bus, dev, 0).header >= 0x80)
  }

  function Describe(space: Space, bus: nat, dev: nat, fn: nat, parent: nat): Device {
    var a := space(bus, dev, fn);
    var bridge := IsBridge(a.header);
    Device(bus, dev, fn, a.header, if bridge then a.secondary else 0, if bridge then a.subordinate else 0, parent)
  }

  predicate Is(d: Device, bus: nat, dev: nat, fn: nat) {
    d.bus == bus && d.dev == dev && d.fn == fn
  }

  predicate Before(d: Device, dev: nat, fn: nat) {
    d.dev < dev || (d.dev == dev && d.fn < fn)
  }

  // ---------- What holds of a snapshot at every moment ----------

  /** Bus `bus` may be entered through entry `parent`. */
  predicate EnteredBy(ds: seq<Device>, parent: nat, bus: nat) {
    (bus == 0 && parent == NO_PARENT) || (parent < |ds| && LeadsOn(ds[parent]) && ds[parent].secondary == bus)
  }

  /** Entries are real, distinct, and each but the root's names an earlier bridge leading to its bus. */
  ghost predicate Good(space: Space, ds: seq<Device>, visited: set<nat>) {
    && |ds| <= MAX_DEVICES && (forall b :: b in visited ==> b < 256)
    && (forall i :: 0 <= i < |ds| ==> GoodEntry(space, ds, i, visited))
    && (forall i, j :: 0 <= i < j < |ds| ==> !Is(ds[j], ds[i].bus, ds[i].dev, ds[i].fn))
  }

  predicate GoodEntry(space: Space, ds: seq<Device>, i: nat, visited: set<nat>)
    requires i < |ds|
  {
    var d := ds[i];
    && d.bus in visited && Visible(space, d.bus, d.dev, d.fn) && d == Describe(space, d.bus, d.dev, d.fn, d.parent)
    && EnteredBy(ds[..i], d.parent, d.bus)
  }

  ghost predicate Holds(ds: seq<Device>, bus: nat, dev: nat, fn: nat) {
    exists i :: 0 <= i < |ds| && Is(ds[i], bus, dev, fn)
  }

  /** Everything visible on `bus` before slot (dev, fn) is recorded. */
  ghost predicate CompleteTo(space: Space, ds: seq<Device>, bus: nat, dev: nat, fn: nat) {
    forall d: nat, f: nat :: Visible(space, bus, d, f) && (d < dev || (d == dev && f < fn)) ==> Holds(ds, bus, d, f)
  }

  /** Nothing on `bus` at or after slot (dev, fn) is recorded. */
  ghost predicate OnlyTo(ds: seq<Device>, bus: nat, dev: nat, fn: nat) {
    forall i :: 0 <= i < |ds| && ds[i].bus == bus ==> Before(ds[i], dev, fn)
  }

  /** Every visited bus whose scan is not still under way is recorded completely. */
  ghost predicate Finished(space: Space, ds: seq<Device>, visited: set<nat>, open: set<nat>) {
    forall b :: b in visited && b !in open ==> CompleteTo(space, ds, b, 32, 0)
  }

  /** Every recorded bridge, except those being followed right now, had its bus visited. */
  ghost predicate Followed(ds: seq<Device>, visited: set<nat>, pending: set<nat>) {
    forall i :: 0 <= i < |ds| && LeadsOn(ds[i]) && i !in pending ==> (ds[i].secondary as nat) in visited
  }

  /** While there is room, the scan has missed nothing. */
  ghost predicate NothingMissed(space: Space, ds: seq<Device>, visited: set<nat>, open: set<nat>, pending: set<nat>) {
    |ds| < MAX_DEVICES ==> Finished(space, ds, visited, open) && Followed(ds, visited, pending)
  }

  /** A later snapshot: more buses, more entries, but none on a bus that had been visited. */
  ghost predicate Grown(ds: seq<Device>, visited: set<nat>, ds': seq<Device>, visited': set<nat>) {
    && ds <= ds' && visited <= visited'
    && forall i :: |ds| <= i < |ds'| ==> ds'[i].bus !in visited
  }

  lemma CompleteKept(space: Space, ds: seq<Device>, ds': seq<Device>, bus: nat, dev: nat, fn: nat)
    requires ds <= ds' && CompleteTo(space, ds, bus, dev, fn)
    ensures CompleteTo(space, ds', bus, dev, fn)
  {
    hide Visible, Is;
    forall d: nat, f: nat | Visible(space, bus, d, f) && (d < dev || (d == dev && f < fn))
      ensures Holds(ds', bus, d, f) {
      assert Holds(ds, bus, d, f);
      var i :| 0 <= i < |ds| && Is(ds[i], bus, d, f);
      assert ds'[i] == ds[i];
    }
  }

  lemma OnlyKept(ds: seq<Device>, v: set<nat>, ds': seq<Device>, v': set<nat>, bus: nat, dev: nat, fn: nat)
    requires Grown(ds, v, ds', v') && OnlyTo(ds, bus, dev, fn) && bus in v
    ensures OnlyTo(ds', bus, dev, fn)
  {
    hide Before;
    forall i | 0 <= i < |ds'| && ds'[i].bus == bus ensures Before(ds'[i], dev, fn) {
      if i < |ds| {
        assert ds'[i] == ds[i];
      }
    }
  }

  // ---------- Recording one function ----------

  /** Appending the function at slot (dev, fn). */
  lemma RecordIsGood(space: Space, ds: seq<Device>, visited: set<nat>, bus: nat, dev: nat, fn: nat, parent: nat)
    requires Good(space, ds, visited) && |ds| < MAX_DEVICES && bus in visited && EnteredBy(ds, parent, bus)
    requires Visible(space, bus, dev, fn) && OnlyTo(ds, bus, dev, fn)
    ensures Good(space, ds + [Describe(space, bus, dev, fn, parent)], visited)
  {
    hide Visible, EnteredBy, Describe;
    var d := Describe(space, bus, dev, fn, parent);
    var ds' := ds + [d];
    DescribeIs(space, bus, dev, fn, parent);
    forall i | 0 <= i < |ds'| ensures GoodEntry(space, ds', i, visited) {
      if i < |ds| {
        assert GoodEntry(space, ds, i, visited);
        assert ds'[..i] == ds[..i];
      } else {
        assert ds'[..i] == ds;
      }
    }
  }

  lemma DescribeIs(space: Space, bus: nat, dev: nat, fn: nat, parent: nat)
    ensures var d := Describe(space, bus, dev, fn, parent); Is(d, bus, dev, fn) && d.parent == parent
  {
  }

  lemma RecordMissesNothing(space: Space, ds: seq<Device>, visited: set<nat>, open: set<nat>, pending: set<nat>,
                            d: Device)
    requires NothingMissed(space, ds, visited, open, pending)
    ensures NothingMissed(space, ds + [d], visited, open, pending + {|ds|})
    ensures !LeadsOn(d) || d.secondary as nat in visited ==> NothingMissed(space, ds + [d], visited, open, pending)
  {
    hide CompleteTo, LeadsOn;
    if |ds| + 1 < MAX_DEVICES {
      forall b | b in visited && b !in open ensures CompleteTo(space, ds + [d], b, 32, 0) {
        CompleteKept(space, ds, ds + [d], b, 32, 0);
      }
    }
  }

  lemma RecordMoves(space: Space, ds: seq<Device>, bus: nat, dev: nat, fn: nat, d: Device)
    requires CompleteTo(space, ds, bus, dev, fn) && OnlyTo(ds, bus, dev, fn) && Is(d, bus, dev, fn)
    ensures CompleteTo(space, ds + [d], bus, dev, fn + 1) && OnlyTo(ds + [d], bus, dev, fn + 1)
  {
    hide Visible;
    CompleteKept(space, ds, ds + [d], bus, dev, fn);
    forall f: nat | Visible(space, bus, dev, f) && f == fn ensures Holds(ds + [d], bus, dev, f) {
      assert (ds + [d])[|ds|] == d;
    }
  }

  /** A slot where nothing answers is passed over. */
  lemma SkipMoves(space: Space, ds: seq<Device>, bus: nat, dev: nat, fn: nat)
    requires OnlyTo(ds, bus, dev, fn) && !Visible(space, bus, dev, fn)
    ensures OnlyTo(ds, bus, dev, fn + 1)
    ensures CompleteTo(space, ds, bus, dev, fn) ==> CompleteTo(space, ds, bus, dev, fn + 1)
  {
    hide Visible;
  }

  /** After the last function a device can have, the scan moves to the next device. */
  lemma NextDevice(space: Space, ds: seq<Device>, bus: nat, dev: nat, fn: nat)
    requires OnlyTo(ds, bus, dev, fn) && forall f: nat :: f >= fn ==> !Visible(space, bus, dev, f)
    ensures OnlyTo(ds, bus, dev + 1, 0)
    ensures CompleteTo(space, ds, bus, dev, fn) ==> CompleteTo(space, ds, bus, dev + 1, 0)
  {
    hide Visible;
  }

  // ---------- Entering and leaving a bus ----------

  /** Growth while `bus` is scanned: new entries are on it or on buses that had not been visited. */
  ghost predicate GrownOn(ds: seq<Device>, visited: set<nat>, ds': seq<Device>, visited': set<nat>, bus: nat) {
    && ds <= ds' && visited <= visited'
    && forall i :: |ds| <= i < |ds'| ==> ds'[i].bus == bus || ds'[i].bus !in visited
  }

  lemma GrownOnTwice(ds: seq<Device>, v: set<nat>, ds': seq<Device>, v': set<nat>, ds'': seq<Device>, v'': set<nat>,
                     bus: nat)
    requires GrownOn(ds, v, ds', v', bus) && GrownOn(ds', v', ds'', v'', bus)
    ensures GrownOn(ds, v, ds'', v'', bus)
  {
  }

  lemma EnteredKept(ds: seq<Device>, ds': seq<Device>, parent: nat, bus: nat)
    requires ds <= ds' && EnteredBy(ds, parent, bus)
    ensures EnteredBy(ds', parent, bus)
  {
  }

  lemma BusIsNew(space: Space, ds: seq<Device>, visited: set<nat>, bus: nat, open: set<nat>, pending: set<nat>)
    requires Good(space, ds, visited) && bus !in visited && bus < 256
             && NothingMissed(space, ds, visited, open, pending)
    ensures Good(space, ds, visited + {bus}) && NothingMissed(space, ds, visited + {bus}, open + {bus}, pending)
    ensures OnlyTo(ds, bus, 0, 0) && CompleteTo(space, ds, bus, 0, 0)
  {
    hide Visible, EnteredBy, Describe, CompleteTo, Before;
    forall i | 0 <= i < |ds| ensures GoodEntry(space, ds, i, visited + {bus}) && ds[i].bus != bus {
      assert GoodEntry(space, ds, i, visited);
    }
    NothingBeforeFirst(space, ds, bus);
  }

  lemma NothingBeforeFirst(space: Space, ds: seq<Device>, bus: nat)
    ensures CompleteTo(space, ds, bus, 0, 0)
  {
  }

  lemma BusIsDone(space: Space, ds: seq<Device>, visited: set<nat>, bus: nat, open: set<nat>, pending: set<nat>)
    requires NothingMissed(space, ds, visited, open + {bus}, pending)
    requires |ds| < MAX_DEVICES ==> CompleteTo(space, ds, bus, 32, 0)
    ensures NothingMissed(space, ds, visited, open, pending)
  {
    hide CompleteTo, LeadsOn;
  }

  lemma MissedLess(space: Space, ds: seq<Device>, visited: set<nat>, open: set<nat>, pending: set<nat>, index: nat)
    requires NothingMissed(space, ds, visited, open, pending + {index})
    requires index < |ds| && (|ds| < MAX_DEVICES ==> ds[index].secondary as nat in visited)
    ensures NothingMissed(space, ds, visited, open, pending)
  {
    hide CompleteTo, LeadsOn;
  }

  // ---------- The scan ----------

  ghost function Below(n: nat): (r: set<nat>)
    ensures forall b: nat :: b in r <==> b < n
  {
    if n == 0 then {} else Below(n - 1) + {n - 1}
  }

  ghost function AllBuses(): (r: set<nat>)
    ensures forall b: nat :: b in r <==> b < 256
  {
    Below(256)
  }

  lemma FewerLeft(visited: set<nat>, bus: nat)
    requires bus < 256 && bus !in visited
    ensures AllBuses() - (visited + {bus}) < AllBuses() - visited
  {
    assert bus in AllBuses() - visited && bus !in AllBuses() - (visited + {bus});
  }

  /** The scan log has each visited bus exactly once. */
  ghost predicate OncePerBus(visited: set<nat>, scans: seq<nat>) {
    && (forall b :: b in visited <==> b in scans)
    && forall i, j :: 0 <= i < j < |scans| ==> scans[i] != scans[j]
  }

  lemma LogOnce(visited: set<nat>, scans: seq<nat>, bus: nat)
    requires OncePerBus(visited, scans) && bus !in visited
    ensures OncePerBus(visited + {bus}, scans + [bus])
  {
  }

  lemma NothingPastLimit(space: Space, bus: nat, dev: nat, limit: nat)
    requires limit == if !space(bus, dev, 0).present then 0 else if space(bus, dev, 0).header >= 0x80 then 8 else 1
    ensures forall f: nat :: f >= limit ==> !Visible(space, bus, dev, f)
    ensures forall f: nat :: f < limit && dev < 32 ==> (Visible(space, bus, dev, f) <==> space(bus, dev, f).present)
  {
  }

  class Snapshot {
    const space: Space
    var devices: seq<Device>
    var visited: set<nat>
    /** The buses in the order in which their scans began. */
    ghost var scans: seq<nat>

    constructor (config: Space)
      ensures space == config && devices == [] && visited == {} && scans == []
    {
      space, devices, visited, scans := config, [], {}, [];
    }

    ghost predicate Sound()
      reads this
    {
      Good(space, devices, visited) && OncePerBus(visited, scans)
    }

    /** Entry `parent` leads to `bus`; `open` are the buses whose scans are under way, `pending` their bridges. */
    method ScanBus(bus: nat, parent: nat, ghost open: set<nat>, ghost pending: set<nat>)
      requires Sound() && EnteredBy(devices, parent, bus) && bus < 256
      requires NothingMissed(space, devices, visited, open, pending)
      modifies this
      ensures Sound() && Grown(old(devices), old(visited), devices, visited)
      ensures NothingMissed(space, devices, visited, open, pending)
      ensures |devices| < MAX_DEVICES ==> bus in visited
      decreases AllBuses() - visited, 0
    {
      hide Good, OncePerBus, NothingMissed, EnteredBy, CompleteTo, OnlyTo, AllBuses;
      if |devices| >= MAX_DEVICES || bus in visited {
        return;
      }
      BusIsNew(space, devices, visited, bus, open, pending);
      LogOnce(visited, scans, bus);
      FewerLeft(visited, bus);
      visited, scans := visited + {bus}, scans + [bus];
      ghost var marked := visited;
      var dev, stop := 0, false;
      while dev < 32 && !stop
        invariant dev <= 32 && Sound() && bus in visited
        invariant GrownOn(old(devices), marked, devices, visited, bus)
        invariant NothingMissed(space, devices, visited, open + {bus}, pending)
        invariant !stop ==> OnlyTo(devices, bus, dev, 0)
                            && (|devices| < MAX_DEVICES ==> CompleteTo(space, devices, bus, dev, 0))
        invariant stop ==> |devices| >= MAX_DEVICES
      {
        ghost var before, seen := devices, visited;
        EnteredKept(old(devices), devices, parent, bus);
        stop := ScanDevice(bus, dev, parent, open + {bus}, pending);
        GrownOnTwice(old(devices), marked, before, seen, devices, visited, bus);
        dev := dev + 1;
      }
      BusIsDone(space, devices, visited, bus, open, pending);
    }

    /** The functions of one device; true when the table is full and the scan must stop. */
    method ScanDevice(bus: nat, dev: nat, parent: nat, ghost open: set<nat>, ghost pending: set<nat>)
      returns (stop: bool)
      requires Sound() && EnteredBy(devices, parent, bus) && bus in visited && dev < 32
      requires NothingMissed(space, devices, visited, open, pending) && bus in open
      requires OnlyTo(devices, bus, dev, 0) && (|devices| < MAX_DEVICES ==> CompleteTo(space, devices, bus, dev, 0))
      modifies this
      ensures Sound() && GrownOn(old(devices), old(visited), devices, visited, bus)
      ensures NothingMissed(space, devices, visited, open, pending)
      ensures !stop ==> OnlyTo(devices, bus, dev + 1, 0)
                        && (|devices| < MAX_DEVICES ==> CompleteTo(space, devices, bus, dev + 1, 0))
      ensures stop ==> |devices| >= MAX_DEVICES
      decreases AllBuses() - visited, 2
    {
      hide Good, OncePerBus, NothingMissed, EnteredBy, CompleteTo, OnlyTo, AllBuses;
      var fn, limit := 0, 0;
      if space(bus, dev, 0).present {
        limit := if space(bus, dev, 0).header >= 0x80 then 8 else 1;
      }
      NothingPastLimit(space, bus, dev, limit);
      while fn < limit
        invariant fn <= limit && Sound() && bus in visited
        invariant GrownOn(old(devices), old(visited), devices, visited, bus)
        invariant NothingMissed(space, devices, visited, open, pending)
        invariant OnlyTo(devices, bus, dev, fn)
                  && (|devices| < MAX_DEVICES ==> CompleteTo(space, devices, bus, dev, fn))
      {
        if space(bus, dev, fn).present {
          if |devices| >= MAX_DEVICES {
            return true;
          }
          ghost var before, seen := devices, visited;
          EnteredKept(old(devices), devices, parent, bus);
          RecordFunction(bus, dev, fn, parent, open, pending);
          GrownOnTwice(old(devices), old(visited), before, seen, devices, visited, bus);
        } else {
          SkipMoves(space, devices, bus, dev, fn);
        }
        fn := fn + 1;
      }
      NextDevice(space, devices, bus, dev, fn);
      return false;
    }

    method RecordFunction(bus: nat, dev: nat, fn: nat, parent: nat, ghost open: set<nat>, ghost pending: set<nat>)
      requires Sound() && EnteredBy(devices, parent, bus) && bus in visited && |devices| < MAX_DEVICES
      requires NothingMissed(space, devices, visited, open, pending) && bus in open
      requires Visible(space, bus, dev, fn) && OnlyTo(devices, bus, dev, fn) && CompleteTo(space, devices, bus, dev, fn)
      modifies this
      ensures Sound() && GrownOn(old(devices), old(visited), devices, visited, bus)
      ensures NothingMissed(space, devices, visited, open, pending)
      ensures OnlyTo(devices, bus, dev, fn + 1)
              && (|devices| < MAX_DEVICES ==> CompleteTo(space, devices, bus, dev, fn + 1))
      decreases AllBuses() - visited, 1
    {
      hide Good, OncePerBus, NothingMissed, CompleteTo, OnlyTo, AllBuses, Visible, Describe, LeadsOn;
      var index, d := |devices|, Describe(space, bus, dev, fn, parent);
      DescribeIs(space, bus, dev, fn, parent);
      RecordIsGood(space, devices, visited, bus, dev, fn, parent);
      RecordMissesNothing(space, devices, visited, open, pending, d);
      RecordMoves(space, devices, bus, dev, fn, d);
      devices := devices + [d];
      if LeadsOn(d) {
        ghost var before, seen := devices, visited;
        ScanBus(d.secondary, index, open, pending + {index});
        MissedLess(space, devices, visited, open, pending, index);
        OnlyKept(before, seen, devices, visited, bus, dev, fn + 1);
        CompleteKept(space, before, devices, bus, dev, fn + 1);
      }
    }

    /** stage3_pci_snapshot_build: the scan from bus 0. */
    method Build()
      requires devices == [] && visited == {} && scans == []
      modifies this
      ensures Good(space, devices, visited) && OncePerBus(visited, scans) && |devices| <= 64
      ensures |devices| < 64
              ==> 0 in visited && Finished(space, devices, visited, {}) && Followed(devices, visited, {})
    {
      hide CompleteTo, Visible;
      ScanBus(0, NO_PARENT, {}, {});
    }
  }

  // ---------- What a snapshot says about configuration space ----------

  /** The function is a bridge (its header is of type 1, whether or not it has other functions) to bus `to`. */
  predicate Bridges(a: Answer, to: nat) {
    (a.header == 1 || a.header == 0x81) && a.secondary == to && 0 < to <= a.subordinate
  }

  /** An entry holds what the function it names answers; the bus numbers only if it is a bridge. */
  lemma EntryIs(space: Space, ds: seq<Device>, visited: set<nat>, i: nat)
    requires Good(space, ds, visited) && i < |ds|
    ensures var d := ds[i];
            var a := space(d.bus, d.dev, d.fn);
            && a.present && d.header == a.header && d.dev < 32 && d.fn < 8 && d.bus < 256
            && d.secondary == (if a.header == 1 || a.header == 0x81 then a.secondary else 0)
            && d.subordinate == (if a.header == 1 || a.header == 0x81 then a.subordinate else 0)
  {
    assert GoodEntry(space, ds, i, visited);
    var d := ds[i];
    HeaderType(space(d.bus, d.dev, d.fn).header);
    hide EnteredBy;
  }

  lemma HeaderType(header: u8)
    ensures IsBridge(header) <==> header == 1 || header == 0x81
  {
  }

  /** The bus of an entry is bus 0, or the entry's parent is an earlier one and bridges to it. */
  lemma ParentBridges(space: Space, ds: seq<Device>, visited: set<nat>, i: nat)
    requires Good(space, ds, visited) && i < |ds|
    ensures var d := ds[i];
            (d.bus == 0 && d.parent == 0xffff)
            || (d.parent < i
                && Bridges(space(ds[d.parent].bus, ds[d.parent].dev, ds[d.parent].fn), d.bus))
  {
    assert GoodEntry(space, ds, i, visited);
    var d := ds[i];
    if !(d.bus == 0 && d.parent == 0xffff) {
      var p := ds[..i][d.parent];
      EntryIs(space, ds, visited, d.parent);
      HeaderType(p.header);
      hide Good, GoodEntry;
    }
  }

  /** In a complete snapshot every bridge has been followed: the bus it leads to has been scanned. */
  lemma BridgesAreFollowed(space: Space, ds: seq<Device>, visited: set<nat>, i: nat, to: nat)
    requires Good(space, ds, visited) && Followed(ds, visited, {}) && i < |ds|
    requires Bridges(space(ds[i].bus, ds[i].dev, ds[i].fn), to)
    ensures to in visited
  {
    EntryIs(space, ds, visited, i);
    HeaderType(ds[i].header);
    hide Good;
    assert LeadsOn(ds[i]) && i !in {};
  }

  /** Of a bus that has been scanned every device is there, and of a device with several functions all of them. */
  lemma FunctionsAreThere(space: Space, ds: seq<Device>, bus: nat, dev: nat, fn: nat)
    requires CompleteTo(space, ds, bus, 32, 0)
    requires dev < 32 && space(bus, dev, 0).present
    requires fn == 0 || (fn < 8 && space(bus, dev, 0).header >= 0x80 && space(bus, dev, fn).present)
    ensures exists i :: 0 <= i < |ds| && ds[i].bus == bus && ds[i].dev == dev && ds[i].fn == fn
  {
    assert Visible(space, bus, dev, fn);
    assert Holds(ds, bus, dev, fn);
  }

  // ---------- What a snapshot with room to spare contains ----------

  /** A way from bus 0: on each bus a visible bridge the scan follows, leading to the next bus. */
  predicate Route(space: Space, hops: seq<(nat, nat)>, from: nat, to: nat)
    decreases |hops|
  {
    if hops == [] then from == to
    else
      var d := Describe(space, from, hops[0].0, hops[0].1, NO_PARENT);
      Visible(space, from, hops[0].0, hops[0].1) && LeadsOn(d) && Route(space, hops[1..], d.secondary, to)
  }

  /** It contains every function on every bus that can be reached from bus 0. */
  lemma {:induction false} ReachableIsComplete(space: Space, ds: seq<Device>, visited: set<nat>, hops: seq<(nat, nat)>,
                                               from: nat, to: nat)
    requires Good(space, ds, visited) && Finished(space, ds, visited, {}) && Followed(ds, visited, {})
    requires from in visited && Route(space, hops, from, to)
    ensures to in visited && CompleteTo(space, ds, to, 32, 0)
    decreases |hops|
  {
    hide Visible, CompleteTo;
    if hops != [] {
      var (dev, fn) := hops[0];
      var i := EntryFor(space, ds, from, dev, fn);
      assert GoodEntry(space, ds, i, visited);
      ReachableIsComplete(space, ds, visited, hops[1..], ds[i].secondary, to);
    }
  }

  lemma EntryFor(space: Space, ds: seq<Device>, bus: nat, dev: nat, fn: nat) returns (i: nat)
    requires CompleteTo(space, ds, bus, 32, 0) && Visible(space, bus, dev, fn)
    ensures i < |ds| && Is(ds[i], bus, dev, fn)
  {
    assert Holds(ds, bus, dev, fn);
    i :| 0 <= i < |ds| && Is(ds[i], bus, dev, fn);
  }

  /** Every entry's bus is reached from bus 0 by following parents. */
  lemma {:induction false} EntryHasRoute(space: Space, ds: seq<Device>, visited: set<nat>, i: nat)
    returns (hops: seq<(nat, nat)>)
    requires Good(space, ds, visited) && i < |ds|
    ensures Route(space, hops, 0, ds[i].bus)
    decreases i
  {
    hide Visible;
    assert GoodEntry(space, ds, i, visited);
    var d := ds[i];
    hops := [];
    if !(d.bus == 0 && d.parent == NO_PARENT) {
      var p := ds[..i][d.parent];
      assert GoodEntry(space, ds, d.parent, visited);
      var before := EntryHasRoute(space, ds, visited, d.parent);
      hops := before + [(p.dev, p.fn)];
      RouteExtends(space, before, 0, p.bus, p.dev, p.fn);
    }
  }

  lemma {:induction false} RouteExtends(space: Space, hops: seq<(nat, nat)>, from: nat, to: nat, dev: nat, fn: nat)
    requires Route(space, hops, from, to) && Visible(space, to, dev, fn)
    requires LeadsOn(Describe(space, to, dev, fn, NO_PARENT))
    ensures Route(space, hops + [(dev, fn)], from, Describe(space, to, dev, fn, NO_PARENT).secondary)
    decreases |hops|
  {
    hide Visible, LeadsOn, Describe;
    if hops == [] {
      assert [(dev, fn)][1..] == [];
      assert Route(space, [], Describe(space, to, dev, fn, NO_PARENT).secondary,
                   Describe(space, to, dev, fn, NO_PARENT).secondary);
    } else {
      assert (hops + [(dev, fn)])[1..] == hops[1..] + [(dev, fn)];
      RouteExtends(space, hops[1..], Describe(space, from, hops[0].0, hops[0].1, NO_PARENT).secondary, to, dev, fn);
    }
  }
}
