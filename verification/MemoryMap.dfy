/** The two E820 builders, and what the loader's placement rules have to do with them. */
module MemoryMap {
  import opened Words
  import opened ByteReader
  import opened ElfPlan
  import opened ElfBoot

  const BASE_LIMIT := 0x10_0000
  const TOP_RESERVED_SIZE := 0x10_0000
  const EBDA := 0x9_fc00
  const VIDEO := 0xa_0000
  const BIOS_SHADOW := 0xe_0000
  const ACPI_OFFSET := 0x8_0000
  const ACPI_LOW := 0xd_0000
  const ACPI_LOW_CAPACITY := 0x1_0000

  datatype Entry = Entry(base: int, length: int, usable: bool) {
    function End(): int {
      base + length
    }
  }

  function TopReservedBase(total: u32): u32 {
    if total <= BASE_LIMIT then total
    else if total <= BASE_LIMIT + TOP_RESERVED_SIZE then BASE_LIMIT
    else AlignDown(total - TOP_RESERVED_SIZE, PAGE)
  }

  function ExtendedUsableEnd(total: u32): u32 {
    if TopReservedBase(total) > total then total else TopReservedBase(total)
  }

  // ---------- What the maps say ----------

  /** The list behind bios_memory_e820_get_entry. */
  function BiosMap(total: u32): seq<Entry> {
    [Entry(0, EBDA, true), Entry(EBDA, BASE_LIMIT - EBDA, false)] +
    if total <= BASE_LIMIT then []
    else if TopReservedBase(total) <= BASE_LIMIT then [Entry(BASE_LIMIT, total - BASE_LIMIT, false)]
    else [Entry(BASE_LIMIT, TopReservedBase(total) - BASE_LIMIT, true),
          Entry(TopReservedBase(total), total - TopReservedBase(total), false)]
  }

  /** Memory holding ACPI tables, as the loader was told. */
  datatype Acpi = Acpi(base: u32, size: u32)

  function AcpiEnd(acpi: Acpi, total: u32): u32 {
    var end := (acpi.base + (acpi.size as int)) % TWO32;
    if end < acpi.base || end > total then total else end
  }

  /** The range the loader reserves for the tables, if they are above 1 MiB and inside memory. */
  function AcpiRange(acpi: Acpi, total: u32): Option<(u32, u32)> {
    if acpi.base < BASE_LIMIT || acpi.size == 0 || acpi.base >= total || AcpiEnd(acpi, total) <= acpi.base then None
    else Some((acpi.base, AcpiEnd(acpi, total)))
  }

  /** The list behind linux_memory_e820_get_entry. */
  function LinuxMap(total: u32, acpi: Acpi): seq<Entry> {
    if total <= BASE_LIMIT || AcpiRange(acpi, total).None? then BiosMap(total)
    else
      var (base, end) := AcpiRange(acpi, total).value;
      [Entry(0, EBDA, true), Entry(EBDA, 0x400, false), Entry(VIDEO, 0x4_0000, false),
       Entry(BIOS_SHADOW, 0x2_0000, true)]
      + (if base > BASE_LIMIT then [Entry(BASE_LIMIT, base - BASE_LIMIT, true)] else [])
      + [Entry(base, end - base, false)]
      + (if end < total then [Entry(end, total - end, true)] else [])
  }

  // ---------- The builders ----------

  function BiosEntryCount(total: u32): (r: nat)
    ensures r == |BiosMap(total)|
  {
    if total <= BASE_LIMIT then 2 else if TopReservedBase(total) > BASE_LIMIT then 4 else 3
  }

  /** Every index below the count is answered with that entry of the map, and no other index is. */
  method BiosGetEntry(total: u32, index: u32) returns (r: Option<Entry>)
    ensures r == if index < |BiosMap(total)| then Some(BiosMap(total)[index]) else None
  {
    var usableEnd, top := ExtendedUsableEnd(total), TopReservedBase(total);
    match index {
      case 0 => r := Some(Entry(0, EBDA, true));
      case 1 => r := Some(Entry(EBDA, 0x6_0400, false));
      case 2 =>
        if total <= BASE_LIMIT {
          return None;
        }
        if usableEnd <= BASE_LIMIT {
          r := Some(Entry(BASE_LIMIT, total - BASE_LIMIT, false));
        } else {
          r := Some(Entry(BASE_LIMIT, usableEnd - BASE_LIMIT, true));
        }
      case 3 =>
        if top <= BASE_LIMIT || total <= top {
          return None;
        }
        r := Some(Entry(top, total - top, false));
      case _ => r := None;
    }
  }

  method LinuxEntryCount(total: u32, acpi: Acpi) returns (count: nat)
    ensures count == |LinuxMap(total, acpi)|
  {
    var range := AcpiRange(acpi, total);
    if total <= BASE_LIMIT || range.None? {
      return BiosEntryCount(total);
    }
    count := 4;
    if range.value.0 > BASE_LIMIT {
      count := count + 1;
    }
    count := count + 1;
    if range.value.1 < total {
      count := count + 1;
    }
  }

  method LinuxGetEntry(total: u32, acpi: Acpi, index0: u32) returns (r: Option<Entry>)
    ensures r == if index0 < |LinuxMap(total, acpi)| then Some(LinuxMap(total, acpi)[index0]) else None
  {
    hide TopReservedBase, AcpiEnd, BiosMap;
    var range := AcpiRange(acpi, total);
    if total <= BASE_LIMIT || range.None? {
      r := BiosGetEntry(total, index0);
      return;
    }
    var (base, end) := range.value;
    match index0 {
      case 0 => return Some(Entry(0, EBDA, true));
      case 1 => return Some(Entry(EBDA, 0x400, false));
      case 2 => return Some(Entry(VIDEO, 0x4_0000, false));
      case 3 => return Some(Entry(BIOS_SHADOW, 0x2_0000, true));
      case _ =>
    }
    var index := index0 - 4;
    if base > BASE_LIMIT {
      if index == 0 {
        return Some(Entry(BASE_LIMIT, base - BASE_LIMIT, true));
      }
      index := index - 1;
    }
    if index == 0 {
      return Some(Entry(base, end - base, false));
    }
    index := index - 1;
    if end < total && index == 0 {
      return Some(Entry(end, total - end, true));
    }
    return None;
  }

  // ---------- The maps tile memory ----------

  /** Non-empty entries in increasing order, without gap or overlap, from `lo` to `hi`. */
  predicate Tiling(es: seq<Entry>, lo: int, hi: int)
    decreases |es|
  {
    if es == [] then lo == hi
    else es[0].base == lo && es[0].length > 0 && Tiling(es[1..], es[0].End(), hi)
  }

  lemma {:induction false} TilingConcat(x: seq<Entry>, y: seq<Entry>, lo: int, mid: int, hi: int)
    requires Tiling(x, lo, mid) && Tiling(y, mid, hi)
    ensures Tiling(x + y, lo, hi)
    decreases |x|
  {
    if x == [] {
      assert x + y == y;
    } else {
      assert (x + y)[1..] == x[1..] + y;
      TilingConcat(x[1..], y, x[0].End(), mid, hi);
    }
  }

  lemma TilingOne(e: Entry)
    requires e.length > 0
    ensures Tiling([e], e.base, e.End())
  {
    assert [e][1..] == [];
    assert Tiling([], e.End(), e.End());
  }

  lemma TilingNone(at: int)
    ensures Tiling([], at, at)
  {
  }

  lemma TilingTwo(d: Entry, e: Entry)
    requires d.length > 0 && e.length > 0 && d.End() == e.base
    ensures Tiling([d, e], d.base, e.End())
  {
    TilingOne(d);
    TilingOne(e);
    TilingConcat([d], [e], d.base, e.base, e.End());
    assert [d] + [e] == [d, e];
  }

  lemma TopBelowTotal(total: u32)
    requires total > BASE_LIMIT
    ensures BASE_LIMIT <= TopReservedBase(total) < total && ExtendedUsableEnd(total) == TopReservedBase(total)
    ensures TopReservedBase(total) > BASE_LIMIT ==> total >= TopReservedBase(total) + TOP_RESERVED_SIZE
  {
    if total > BASE_LIMIT + TOP_RESERVED_SIZE {
      hide AlignDown, MultipleOf;
      DivModAligned();
      HighestPage(BASE_LIMIT, AlignDown(total - TOP_RESERVED_SIZE, PAGE), PAGE, total - TOP_RESERVED_SIZE);
    }
  }

  lemma DivModAligned()
    ensures MultipleOf(BASE_LIMIT, PAGE)
  {
    DivModUnique(BASE_LIMIT, PAGE, 256, 0);
  }

  /** Above 1 MiB the BIOS map covers exactly the installed memory. */
  lemma BiosMapTiles(total: u32)
    requires total > BASE_LIMIT
    ensures Tiling(BiosMap(total), 0, total)
  {
    hide TopReservedBase, Tiling;
    TopBelowTotal(total);
    var low := [Entry(0, EBDA, true), Entry(EBDA, BASE_LIMIT - EBDA, false)];
    var top := TopReservedBase(total);
    TilingTwo(low[0], low[1]);
    if top <= BASE_LIMIT {
      TilingOne(Entry(BASE_LIMIT, total - BASE_LIMIT, false));
      TilingConcat(low, [Entry(BASE_LIMIT, total - BASE_LIMIT, false)], 0, BASE_LIMIT, total);
    } else {
      var d, e := Entry(BASE_LIMIT, top - BASE_LIMIT, true), Entry(top, total - top, false);
      TilingTwo(d, e);
      TilingConcat(low, [d, e], 0, BASE_LIMIT, total);
    }
  }

  lemma LowTiles()
    ensures Tiling([Entry(0, EBDA, true), Entry(EBDA, 0x400, false), Entry(VIDEO, 0x4_0000, false),
                    Entry(BIOS_SHADOW, 0x2_0000, true)],
                   0, BASE_LIMIT)
  {
    var a, b := Entry(0, EBDA, true), Entry(EBDA, 0x400, false);
    var c, d := Entry(VIDEO, 0x4_0000, false), Entry(BIOS_SHADOW, 0x2_0000, true);
    hide Tiling;
    TilingTwo(a, b);
    TilingTwo(c, d);
    TilingConcat([a, b], [c, d], 0, VIDEO, BASE_LIMIT);
    assert [a, b] + [c, d] == [a, b, c, d];
  }

  /** So does the loader's, wherever the ACPI tables are said to be. */
  lemma LinuxMapTiles(total: u32, acpi: Acpi)
    requires total > BASE_LIMIT
    ensures Tiling(LinuxMap(total, acpi), 0, total)
  {
    hide TopReservedBase, Tiling, BiosMap, AcpiEnd;
    if AcpiRange(acpi, total).None? {
      BiosMapTiles(total);
    } else {
      var (base, end) := AcpiRange(acpi, total).value;
      AcpiEndInside(acpi, total);
      var low := [Entry(0, EBDA, true), Entry(EBDA, 0x400, false), Entry(VIDEO, 0x4_0000, false),
                  Entry(BIOS_SHADOW, 0x2_0000, true)];
      var below := if base > BASE_LIMIT then [Entry(BASE_LIMIT, base - BASE_LIMIT, true)] else [];
      var above := if end < total then [Entry(end, total - end, true)] else [];
      var tables := Entry(base, end - base, false);
      LowTiles();
      if base > BASE_LIMIT {
        TilingOne(Entry(BASE_LIMIT, base - BASE_LIMIT, true));
      } else {
        TilingNone(BASE_LIMIT);
      }
      if end < total {
        TilingOne(Entry(end, total - end, true));
      } else {
        TilingNone(total);
      }
      TilingOne(tables);
      TilingConcat(low, below, 0, BASE_LIMIT, base);
      TilingConcat(low + below, [tables], 0, base, end);
      TilingConcat(low + below + [tables], above, 0, end, total);
    }
  }

  lemma AcpiEndInside(acpi: Acpi, total: u32)
    requires AcpiRange(acpi, total).Some?
    ensures BASE_LIMIT <= AcpiRange(acpi, total).value.0 < AcpiRange(acpi, total).value.1 <= total
  {
  }

  // ---------- Which memory they call usable ----------

  /** Address `a` lies in a usable entry. */
  predicate UsableAt(es: seq<Entry>, a: int) {
    exists i :: 0 <= i < |es| && es[i].usable && es[i].base <= a < es[i].End()
  }

  lemma UsableConcat(x: seq<Entry>, y: seq<Entry>, a: int)
    ensures UsableAt(x + y, a) <==> UsableAt(x, a) || UsableAt(y, a)
  {
    if UsableAt(x, a) {
      var i :| 0 <= i < |x| && x[i].usable && x[i].base <= a < x[i].End();
      assert (x + y)[i] == x[i];
    }
    if UsableAt(y, a) {
      var i :| 0 <= i < |y| && y[i].usable && y[i].base <= a < y[i].End();
      assert (x + y)[|x| + i] == y[i];
    }
  }

  lemma UsableOne(e: Entry, a: int)
    ensures UsableAt([e], a) <==> e.usable && e.base <= a < e.End()
  {
    assert [e][0] == e;
  }

  lemma UsableNone(a: int)
    ensures !UsableAt([], a)
  {
  }

  /** The top of memory: 1 MiB and the rest of a page is set apart, unless that would reach below 1 MiB. */
  lemma TopReservedExactly(total: u32)
    ensures total <= 0x10_0000 ==> TopReservedBase(total) == total
    ensures 0x10_0000 < total <= 0x20_0000 ==> TopReservedBase(total) == 0x10_0000
    ensures total > 0x20_0000 ==>
              && TopReservedBase(total) % 0x1000 == 0
              && total - 0x10_1000 < TopReservedBase(total) <= total - 0x10_0000
  {
    if total > 0x20_0000 {
      AlignDownIs(total - TOP_RESERVED_SIZE);
    }
  }

  lemma AlignDownIs(x: nat)
    ensures AlignDown(x, PAGE) % 0x1000 == 0 && x - 0x1000 < AlignDown(x, PAGE) <= x
  {
  }

  /** The BIOS calls usable the memory below the EBDA, and above 1 MiB all but the top of memory, and nothing else. */
  lemma BiosUsableExactly(total: u32, a: int)
    ensures UsableAt(BiosMap(total), a) <==>
            0 <= a < 0x9_fc00 || (total > 0x10_0000 && 0x10_0000 <= a < TopReservedBase(total))
  {
    hide TopReservedBase, UsableAt;
    TopReservedExactly(total);
    var d, e := Entry(0, EBDA, true), Entry(EBDA, BASE_LIMIT - EBDA, false);
    var top := TopReservedBase(total);
    UsableTwo(d, e, a);
    UsableNone(a);
    if total > BASE_LIMIT {
      var whole := Entry(BASE_LIMIT, total - BASE_LIMIT, false);
      var below, above := Entry(BASE_LIMIT, top - BASE_LIMIT, true), Entry(top, total - top, false);
      UsableOne(whole, a);
      UsableTwo(below, above, a);
      UsableConcat([d, e], [whole], a);
      UsableConcat([d, e], [below, above], a);
    } else {
      UsableConcat([d, e], [], a);
    }
  }

  lemma UsableTwo(d: Entry, e: Entry, a: int)
    ensures UsableAt([d, e], a) <==> (d.usable && d.base <= a < d.End()) || (e.usable && e.base <= a < e.End())
  {
    UsableOne(d, a);
    UsableOne(e, a);
    UsableConcat([d], [e], a);
    assert [d] + [e] == [d, e];
  }

  /** The loader reserves the tables' memory if they begin above 1 MiB and inside memory, cut off at its end. */
  lemma AcpiRangeExactly(acpi: Acpi, total: u32)
    ensures AcpiRange(acpi, total).Some? <==> 0x10_0000 <= acpi.base < total && acpi.size > 0
    ensures AcpiRange(acpi, total).Some? ==>
              var (base, end) := AcpiRange(acpi, total).value;
              base == acpi.base && end == if acpi.base + (acpi.size as int) <= total then acpi.base + (acpi.size as int)
                                          else total
  {
    var sum := acpi.base + (acpi.size as int);
    if sum < TWO32 {
      DivModUnique(sum, TWO32, 0, sum);
    } else {
      DivModUnique(sum, TWO32, 1, sum - TWO32);
    }
  }

  /**
   * With tables to reserve, the loader calls usable the memory below the EBDA, the shadow of the BIOS, and all memory
   * above 1 MiB but the tables; nothing else. Otherwise it says what the BIOS says.
   */
  lemma LinuxUsableExactly(total: u32, acpi: Acpi, a: int)
    ensures UsableAt(LinuxMap(total, acpi), a) <==>
            if total > 0x10_0000 && AcpiRange(acpi, total).Some? then
              var (base, end) := AcpiRange(acpi, total).value;
              0 <= a < 0x9_fc00 || (0xe_0000 <= a < total && !(base <= a < end))
            else UsableAt(BiosMap(total), a)
  {
    hide TopReservedBase, BiosMap, AcpiEnd, UsableAt;
    if total > BASE_LIMIT && AcpiRange(acpi, total).Some? {
      var (base, end) := AcpiRange(acpi, total).value;
      AcpiEndInside(acpi, total);
      var d, e := Entry(0, EBDA, true), Entry(EBDA, 0x400, false);
      var f, g := Entry(VIDEO, 0x4_0000, false), Entry(BIOS_SHADOW, 0x2_0000, true);
      var low := [d, e] + [f, g];
      var below := if base > BASE_LIMIT then [Entry(BASE_LIMIT, base - BASE_LIMIT, true)] else [];
      var above := if end < total then [Entry(end, total - end, true)] else [];
      var tables := Entry(base, end - base, false);
      UsableTwo(d, e, a);
      UsableTwo(f, g, a);
      UsableConcat([d, e], [f, g], a);
      UsableOne(Entry(BASE_LIMIT, base - BASE_LIMIT, true), a);
      UsableOne(Entry(end, total - end, true), a);
      UsableNone(a);
      UsableOne(tables, a);
      UsableConcat(low, below, a);
      UsableConcat(low + below, [tables], a);
      UsableConcat(low + below + [tables], above, a);
      assert low == [d, e, f, g];
    }
  }

  /**
   * Where the two maps disagree when there are tables to reserve: the loader also calls usable the shadow of the BIOS
   * and what the BIOS has set apart at the top of memory, but for the tables. A table that lies lower is usable memory
   * for the BIOS alone.
   */
  lemma MapsDisagreeExactly(total: u32, acpi: Acpi, a: int)
    requires total > 0x10_0000 && AcpiRange(acpi, total).Some?
    ensures var (base, end) := AcpiRange(acpi, total).value;
            var inTables, top := base <= a < end, TopReservedBase(total);
            && (UsableAt(LinuxMap(total, acpi), a) && !UsableAt(BiosMap(total), a)
                <==> (0xe_0000 <= a < 0x10_0000 || top <= a < total) && !inTables)
            && (UsableAt(BiosMap(total), a) && !UsableAt(LinuxMap(total, acpi), a) <==> inTables && a < top)
  {
    TopReservedExactly(total);
    LinuxUsableExactly(total, acpi, a);
    BiosUsableExactly(total, a);
    AcpiEndInside(acpi, total);
    hide TopReservedBase, BiosMap, LinuxMap, UsableAt, AcpiRange;
  }

  // ---------- Agreement with the loader ----------

  /** Where the firmware puts the ACPI tables. */
  function AcpiTableBase(total: u32): u32 {
    var top := TopReservedBase(total);
    if top >= BASE_LIMIT && total >= top + TOP_RESERVED_SIZE then top + ACPI_OFFSET else ACPI_LOW
  }

  function AcpiTableCapacity(total: u32): u32 {
    var top := TopReservedBase(total);
    if top >= BASE_LIMIT && total >= top + TOP_RESERVED_SIZE then TOP_RESERVED_SIZE - ACPI_OFFSET else ACPI_LOW_CAPACITY
  }

  /** The room set apart for the tables: the upper half of the reserved MiB, or 64 KiB of the BIOS area without one. */
  lemma TablesPlaced(total: u32)
    ensures total >= 0x20_0000 ==>
              && AcpiTableBase(total) == TopReservedBase(total) + 0x8_0000 && AcpiTableCapacity(total) == 0x8_0000
              && AcpiTableBase(total) + AcpiTableCapacity(total) <= total
    ensures total < 0x20_0000 ==> AcpiTableBase(total) == 0xd_0000 && AcpiTableCapacity(total) == 0x1_0000
  {
    TopReservedExactly(total);
    hide TopReservedBase;
  }

  /** None of it is usable memory for the BIOS. */
  lemma TablesAreReserved(total: u32, a: int)
    requires AcpiTableBase(total) <= a < AcpiTableBase(total) + AcpiTableCapacity(total)
    ensures !UsableAt(BiosMap(total), a)
  {
    TablesPlaced(total);
    TopReservedExactly(total);
    BiosUsableExactly(total, a);
    hide TopReservedBase, BiosMap, UsableAt, AcpiTableBase, AcpiTableCapacity;
  }

  predicate InUsable(es: seq<Entry>, lo: int, hi: int) {
    exists i :: 0 <= i < |es| && es[i].usable && es[i].base <= lo && hi <= es[i].End()
  }

  /** Memory the loader may fill: both maps call it usable, and the ACPI tables are elsewhere. */
  lemma LoadableIsUsable(total: u32, size: u32, lo: int, hi: int)
    requires LOW_MEMORY <= lo < hi <= ExtendedUsableEnd(total)
    requires size <= AcpiTableCapacity(total)
    ensures InUsable(BiosMap(total), lo, hi)
    ensures InUsable(LinuxMap(total, Acpi(AcpiTableBase(total), size)), lo, hi)
    ensures hi <= AcpiTableBase(total) || AcpiTableBase(total) + size <= lo
  {
    hide AlignDown;
    TopAboveLimit(total);
    TopBelowTotal(total);
    hide TopReservedBase, AcpiEnd;
    var top := TopReservedBase(total);
    var acpi := Acpi(AcpiTableBase(total), size);
    assert BiosMap(total)[2] == Entry(BASE_LIMIT, top - BASE_LIMIT, true);
    if AcpiRange(acpi, total).Some? {
      assert LinuxMap(total, acpi)[4] == Entry(BASE_LIMIT, acpi.base - BASE_LIMIT, true);
    }
  }

  lemma TopAboveLimit(total: u32)
    requires ExtendedUsableEnd(total) > BASE_LIMIT
    ensures total > BASE_LIMIT && TopReservedBase(total) > BASE_LIMIT
  {
  }

  /** Every kernel segment the loader accepts lies in usable memory, clear of the tables. */
  lemma SegmentsAreUsable(h: Phdr, p: Partition, cfg: Config, total: u32, size: u32)
    requires cfg.usableEnd == ExtendedUsableEnd(total) && Fits(h, p, cfg) && h.memsz > 0
    requires size <= AcpiTableCapacity(total)
    ensures InUsable(BiosMap(total), h.paddr, h.paddr + (h.memsz as int))
    ensures InUsable(LinuxMap(total, Acpi(AcpiTableBase(total), size)), h.paddr, h.paddr + (h.memsz as int))
    ensures h.paddr + (h.memsz as int) <= AcpiTableBase(total) || AcpiTableBase(total) + size <= h.paddr
  {
    hide Contains, TopReservedBase, LinuxMap, BiosMap, InUsable, AcpiTableBase, AcpiTableCapacity;
    LoadableIsUsable(total, size, h.paddr, h.paddr + (h.memsz as int));
  }

  /** And so does the initrd. */
  lemma InitrdIsUsable(sectors: u32, loadHigh: nat, cfg: Config, total: u32, size: u32)
    requires cfg.usableEnd == ExtendedUsableEnd(total) && LOW_MEMORY <= loadHigh && size <= AcpiTableCapacity(total)
    requires sectors > 0 && InitrdPlace(sectors, loadHigh, cfg).Initrd?
    ensures var i := InitrdPlace(sectors, loadHigh, cfg);
            && InUsable(BiosMap(total), i.base, i.base + i.size)
            && InUsable(LinuxMap(total, Acpi(AcpiTableBase(total), size)), i.base, i.base + i.size)
            && (i.base + i.size <= AcpiTableBase(total) || AcpiTableBase(total) + size <= i.base)
  {
    hide TopReservedBase, LinuxMap, BiosMap, InUsable, AcpiTableBase, AcpiTableCapacity;
    var i := InitrdPlace(sectors, loadHigh, cfg);
    InitrdPlaceExactly(sectors, loadHigh, cfg);
    hide InitrdPlace;
    LoadableIsUsable(total, size, i.base, i.base + i.size);
  }
}
