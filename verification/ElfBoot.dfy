/** Booting an ELF kernel: both passes over its headers, the initrd, and the deferred segments put home last. */
module ElfBoot {
  import opened Words
  import opened ByteReader
  import opened ElfPlan
  import opened ElfLoad

  // ---------- Putting deferred segments in place ----------

  ghost predicate AnyCover(hs: seq<Phdr>, a: int) {
    exists j :: 0 <= j < |hs| && Writes(hs[j], a)
  }

  /** Outside all segments, the buffer and the bounce sector memory is as it was. */
  ghost predicate Spared(m0: seq<u8>, m: seq<u8>, hs: seq<Phdr>, base: int, end: int) {
    && |m| == |m0|
    && forall a :: 0 <= a < |m0| && !InBounce(a) && !(base <= a < end) && !AnyCover(hs, a) ==> m[a] == m0[a]
  }

  ghost predicate Applied(m: seq<u8>, hs: seq<Phdr>, idx: seq<nat>, k: nat, disk: seq<u8>, p: Partition) {
    forall l :: 0 <= l < k && l < |idx| && idx[l] < |hs| ==> Loaded(m, hs[idx[l]], disk, p)
  }

  ghost predicate AllLoaded(m: seq<u8>, hs: seq<Phdr>, disk: seq<u8>, p: Partition) {
    forall j :: 0 <= j < |hs| && Loads(hs[j]) ==> Loaded(m, hs[j], disk, p)
  }

  lemma UntouchedIsSpared(m0: seq<u8>, m: seq<u8>, hs: seq<Phdr>, cfg: Config, base: nat)
    requires Untouched(m0, m, hs, |hs|, cfg, base)
    ensures Spared(m0, m, hs, base, DeferEnd(hs, |hs|, cfg, base))
  {
    hide Defers, DeferEnd, Temp;
    forall a | 0 <= a < |m0| && !InBounce(a) && !(base <= a < DeferEnd(hs, |hs|, cfg, base)) && !AnyCover(hs, a)
      ensures m[a] == m0[a]
    {
      assert !DirectCover(hs, |hs|, cfg, a);
      forall j | 0 <= j < |hs| ensures !InCopy(hs, j, cfg, base, a) {
        if Defers(hs[j], cfg) {
          TempInBuffer(hs, j, cfg, base);
        }
      }
    }
  }

  lemma SparedStep(m0: seq<u8>, m: seq<u8>, m': seq<u8>, hs: seq<Phdr>, j: nat, base: int, end: int)
    requires j < |hs| && Loads(hs[j]) && Spared(m0, m, hs, base, end)
    requires Kept(m, m', hs[j].paddr, hs[j].paddr + (hs[j].memsz as int), true)
    ensures Spared(m0, m', hs, base, end)
  {
    forall a | 0 <= a < |m0| && !AnyCover(hs, a) ensures !Writes(hs[j], a) {
    }
  }

  lemma AppliedStep(m: seq<u8>, m': seq<u8>, table: seq<Deferred>, idx: seq<nat>, k: nat, hs: seq<Phdr>, cfg: Config,
                    base: nat, disk: seq<u8>, p: Partition)
    requires Listed(table, idx, hs, |hs|, cfg, base) && k < |idx| && AllFit(hs, p, cfg) && Disjoint(hs)
    requires Applied(m, hs, idx, k, disk, p) && DirectLoaded(m, hs, |hs|, cfg, disk, p)
    requires Loaded(m', hs[idx[k]], disk, p)
    requires Kept(m, m', hs[idx[k]].paddr, hs[idx[k]].paddr + (hs[idx[k]].memsz as int), true)
    ensures Applied(m', hs, idx, k + 1, disk, p) && DirectLoaded(m', hs, |hs|, cfg, disk, p)
  {
    hide Loaded, Kept, Overlaps, Contains, Temp;
    var i := idx[k];
    forall j: nat | j < |hs| && j != i && Loads(hs[j]) && Loaded(m, hs[j], disk, p) ensures Loaded(m', hs[j], disk, p) {
      assert Fits(hs[j], p, cfg) && Apart(hs[if j < i then j else i], hs[if j < i then i else j]);
      LoadedKept(m, m', hs[i].paddr, hs[i].paddr + (hs[i].memsz as int), hs[j], disk, p);
    }
    forall l | 0 <= l < k && idx[l] < |hs| ensures Loaded(m', hs[idx[l]], disk, p) {
      assert idx[l] < idx[k];
    }
  }

  lemma EverySegmentLoaded(m: seq<u8>, table: seq<Deferred>, idx: seq<nat>, hs: seq<Phdr>, cfg: Config, base: nat,
                           disk: seq<u8>, p: Partition)
    requires Listed(table, idx, hs, |hs|, cfg, base)
    requires Applied(m, hs, idx, |idx|, disk, p) && DirectLoaded(m, hs, |hs|, cfg, disk, p)
    ensures AllLoaded(m, hs, disk, p)
  {
    hide Loaded, Overlaps, Temp;
    forall j | 0 <= j < |hs| && Loads(hs[j]) ensures Loaded(m, hs[j], disk, p) {
      if Defers(hs[j], cfg) {
        assert j in idx;
      }
    }
  }

  /** Entry `k` of the table: where it is, where it goes, and that it can be copied. */
  lemma EntryMeans(m: seq<u8>, table: seq<Deferred>, idx: seq<nat>, k: nat, hs: seq<Phdr>, cfg: Config,
                   base: nat, disk: seq<u8>, p: Partition)
    requires Listed(table, idx, hs, |hs|, cfg, base) && k < |table| && AllFit(hs, p, cfg) && Room(hs, cfg, base)
    requires AllWait(m, hs, |hs|, cfg, base, disk, p)
    requires cfg.usableEnd <= |m| && DeferEnd(hs, |hs|, cfg, base) <= |m|
    ensures idx[k] < |hs| && Loads(hs[idx[k]]) && table[k].h == hs[idx[k]]
    ensures var d := table[k];
            && d.h.filesz <= d.h.memsz && d.h.paddr + (d.h.memsz as int) <= |m| && d.temp + d.h.filesz <= |m|
            && d.h.paddr + (d.h.memsz as int) <= LoadHigh(hs, |hs|)
            && (d.h.filesz > 0 ==> d.h.paddr <= d.temp)
            && Holds(m, d.temp, disk, Place(p, d.h.off), d.h.filesz)
  {
    hide Holds, Overlaps, Contains, Temp, Room, DeferEnd, Place, LoadHigh;
    var j := idx[k];
    assert Fits(hs[j], p, cfg) && Waits(m, hs, j, cfg, base, disk, p);
    TempInBuffer(hs, j, cfg, base);
    if hs[j].filesz > 0 {
      TempAbove(hs, j, cfg, base);
    }
  }

  method ApplyDeferred(m: Machine, table: seq<Deferred>, ghost p: Partition, cfg: Config, ghost idx: seq<nat>,
                       ghost hs: seq<Phdr>, ghost base: nat)
    requires Listed(table, idx, hs, |hs|, cfg, base) && AllFit(hs, p, cfg) && Room(hs, cfg, base)
    requires cfg.usableEnd <= |m.ram| && DeferEnd(hs, |hs|, cfg, base) <= |m.ram|
    requires AllWait(m.ram, hs, |hs|, cfg, base, m.disk, p)
    requires Disjoint(hs) ==> DirectLoaded(m.ram, hs, |hs|, cfg, m.disk, p)
    modifies m`ram
    ensures Spared(old(m.ram), m.ram, hs, base, base) && |m.ram| == |old(m.ram)|
    ensures Disjoint(hs) ==> AllLoaded(m.ram, hs, m.disk, p)
  {
    hide Listed, AllFit, Room, AllWait, DirectLoaded, Applied, Spared, Loaded, Holds, Kept, Place, DeferEnd, LoadHigh,
      Disjoint, AllLoaded, Loads;
    ApplyStart(m.ram, hs, idx, base, m.disk, p);
    for k := 0 to |table|
      invariant |m.ram| == |old(m.ram)| && Spared(old(m.ram), m.ram, hs, base, base)
      invariant AllWait(m.ram, hs, |hs|, cfg, base, m.disk, p)
      invariant Disjoint(hs) ==> DirectLoaded(m.ram, hs, |hs|, cfg, m.disk, p) && Applied(m.ram, hs, idx, k, m.disk, p)
    {
      ghost var before := m.ram;
      EntryMeans(m.ram, table, idx, k, hs, cfg, base, m.disk, p);
      SameLength(table, idx, hs, cfg, base);
      ApplyOne(m, table[k], p, cfg);
      SparedStep(old(m.ram), before, m.ram, hs, idx[k], base, base);
      WaitsSurvive(before, m.ram, hs, |hs|, table[k].h.paddr, table[k].h.paddr + (table[k].h.memsz as int), cfg, base,
                   m.disk, p);
      if Disjoint(hs) {
        AppliedStep(before, m.ram, table, idx, k, hs, cfg, base, m.disk, p);
      }
    }
    SameLength(table, idx, hs, cfg, base);
    if Disjoint(hs) {
      EverySegmentLoaded(m.ram, table, idx, hs, cfg, base, m.disk, p);
    }
  }

  lemma ApplyStart(m: seq<u8>, hs: seq<Phdr>, idx: seq<nat>, base: nat, disk: seq<u8>, p: Partition)
    ensures Spared(m, m, hs, base, base) && Applied(m, hs, idx, 0, disk, p)
  {
  }

  lemma SameLength(table: seq<Deferred>, idx: seq<nat>, hs: seq<Phdr>, cfg: Config, base: nat)
    requires Listed(table, idx, hs, |hs|, cfg, base)
    ensures |table| == |idx|
  {
  }

  // ---------- The initrd ----------

  datatype Initrd = NoInitrd | Initrd(base: nat, size: nat)

  /** linux_load_initrd's place for `sectors` sectors, if there is one: as high as a page boundary allows. */
  function InitrdPlace(sectors: u32, loadHigh: nat, cfg: Config): Initrd {
    if (sectors as int) > cfg.usableEnd / SECTOR then NoInitrd
    else
      var size := SECTOR * (sectors as int);
      if size == 0 || size > (cfg.usableEnd - LOW_MEMORY) % TWO32 then NoInitrd
      else
        var base := AlignDown(cfg.usableEnd - size, PAGE);
        if base < LOW_MEMORY || base < loadHigh || base + size > cfg.usableEnd then NoInitrd else Initrd(base, size)
  }

  /** A place is found exactly when some page boundary above the kernel leaves enough room. */
  lemma InitrdPlaceExactly(sectors: u32, loadHigh: nat, cfg: Config)
    requires LOW_MEMORY <= loadHigh && sectors > 0
    ensures InitrdPlace(sectors, loadHigh, cfg) != NoInitrd <==>
            exists b: nat :: InitrdCouldGo(b, sectors, loadHigh, cfg)
    ensures InitrdPlace(sectors, loadHigh, cfg).Initrd? ==>
              InitrdCouldGo(InitrdPlace(sectors, loadHigh, cfg).base, sectors, loadHigh, cfg)
  {
    hide MultipleOf, AlignDown;
    var size := SECTOR * (sectors as int);
    if InitrdPlace(sectors, loadHigh, cfg).Initrd? {
      assert InitrdCouldGo(InitrdPlace(sectors, loadHigh, cfg).base, sectors, loadHigh, cfg);
    }
    if b: nat :| InitrdCouldGo(b, sectors, loadHigh, cfg) {
      var down := AlignDown(cfg.usableEnd - size, PAGE);
      HighestPage(b, down, PAGE, cfg.usableEnd - size);
      DivModUnique(cfg.usableEnd - LOW_MEMORY, TWO32, 0, cfg.usableEnd - LOW_MEMORY);
    }
  }

  predicate InitrdCouldGo(b: nat, sectors: u32, loadHigh: nat, cfg: Config) {
    MultipleOf(b, PAGE) && loadHigh <= b && b + SECTOR * (sectors as int) <= cfg.usableEnd
  }

  lemma HighestPage(b: nat, down: nat, align: nat, limit: nat)
    requires align > 0 && MultipleOf(b, align) && MultipleOf(down, align) && b <= limit < down + align
    ensures b <= down
  {
    MulBound(b / align - down / align, align);
  }

  lemma WholeSectors(base: nat, sectors: nat)
    requires MultipleOf(base, PAGE)
    ensures !UsesBounce(0, base, SECTOR * sectors)
  {
    DivModUnique(SECTOR * sectors, SECTOR, sectors, 0);
  }

  /** The addresses of the initrd; none without one. */
  function Lo(i: Initrd): nat {
    if i.Initrd? then i.base else 0
  }

  function Hi(i: Initrd): nat {
    if i.Initrd? then i.base + i.size else 0
  }

  method LoadInitrd(m: Machine, part: Partition, loadHigh: nat, cfg: Config) returns (r: Initrd)
    requires WellPlaced(part) && LOW_MEMORY <= loadHigh && LOW_MEMORY <= |m.ram| && cfg.usableEnd <= |m.ram|
    modifies m
    ensures |m.ram| == |old(m.ram)| && old(m.log) <= m.log && Inside(m.log, |old(m.log)|, part)
    ensures r.Initrd?
            ==> r == InitrdPlace(part.sectors, loadHigh, cfg) && Holds(m.ram, r.base, m.disk, Place(part, 0), r.size)
    ensures Kept(old(m.ram), m.ram, loadHigh, cfg.usableEnd, true)
    ensures var w := InitrdPlace(part.sectors, loadHigh, cfg); Kept(old(m.ram), m.ram, Lo(w), Hi(w), true)
    ensures m.Healthy(part) ==> r == InitrdPlace(part.sectors, loadHigh, cfg)
  {
    hide MultipleOf, AlignDown, Holds, Kept, Inside, Place, UsesBounce, Contains, WellPlaced;
    r := InitrdPlace(part.sectors, loadHigh, cfg);
    NothingRead(m.ram, 0, m.disk, 0, true, 0);
    InsideStart(m.log, part);
    KeptSelf(m.ram, loadHigh, cfg.usableEnd);
    KeptSelf(m.ram, Lo(r), Hi(r));
    if r.Initrd? {
      WholeSectors(r.base, part.sectors);
      ContainsExactly(part, 0, r.size);
      var ok := m.ReadBytes(part, 0, r.base, r.size);
      KeptWider(old(m.ram), m.ram, r.base, r.base + r.size, loadHigh, cfg.usableEnd, false);
      KeptWider(old(m.ram), m.ram, r.base, r.base + r.size, r.base, r.base + r.size, false);
      if !ok {
        r := NoInitrd;
      }
    }
  }

  lemma KeptSelf(m: seq<u8>, lo: int, hi: int)
    ensures Kept(m, m, lo, hi, true)
  {
  }

  // ---------- The buffer ----------

  /** Where the deferred copies go: nowhere (0) if there is nothing to copy, else just below `limit`. */
  function DeferBase(total: nat, limit: nat, loadHigh: nat): Option<nat> {
    if total == 0 then Some(0)
    else if total > limit || limit - total < loadHigh then None
    else
      var base := AlignDown(limit - total, PAGE);
      if base < loadHigh then None else Some(base)
  }

  predicate BufferCouldGo(b: nat, total: nat, limit: nat, loadHigh: nat) {
    MultipleOf(b, PAGE) && loadHigh <= b && b + total <= limit
  }

  /** The loader gives up only if no page above the kernel leaves room for the copies. */
  lemma DeferBaseExactly(total: nat, limit: nat, loadHigh: nat)
    requires total > 0
    ensures DeferBase(total, limit, loadHigh).Some? <==> exists b: nat :: BufferCouldGo(b, total, limit, loadHigh)
    ensures DeferBase(total, limit, loadHigh).Some? ==>
              BufferCouldGo(DeferBase(total, limit, loadHigh).value, total, limit, loadHigh)
  {
    hide MultipleOf, AlignDown;
    if DeferBase(total, limit, loadHigh).Some? {
      assert BufferCouldGo(DeferBase(total, limit, loadHigh).value, total, limit, loadHigh);
    }
    if b: nat :| BufferCouldGo(b, total, limit, loadHigh) {
      HighestPage(b, AlignDown(limit - total, PAGE), PAGE, limit - total);
    }
  }

  // ---------- The entry point ----------

  /** The segment holds the virtual address `entry`. */
  predicate EntryIn(h: Phdr, entry: u32) {
    h.kind == 1 && h.vaddr <= entry < h.vaddr + (h.memsz as int)
  }

  /** Execution begins at `at`: in the first segment that holds `entry`, else at `entry` itself. */
  ghost predicate EntersAt(hs: seq<Phdr>, entry: u32, at: u32) {
    && (forall i :: 0 <= i < |hs| && EntryIn(hs[i], entry) && (forall j :: 0 <= j < i ==> !EntryIn(hs[j], entry))
                    ==> at == hs[i].paddr + (entry - hs[i].vaddr))
    && ((forall i :: 0 <= i < |hs| ==> !EntryIn(hs[i], entry)) ==> at == entry)
  }

  ghost predicate HasEntry(hs: seq<Phdr>, entry: u32, cfg: Config) {
    (exists i :: 0 <= i < |hs| && EntryIn(hs[i], entry)) || 0x10_0000 <= entry < cfg.usableEnd
  }

  method FindEntry(entry: u32, hs: seq<Phdr>, p: Partition, cfg: Config) returns (r: Option<u32>)
    requires AllFit(hs, p, cfg)
    ensures r.Some? ==> EntersAt(hs, entry, r.value) && 0x10_0000 <= r.value < cfg.usableEnd
    ensures r.Some? <==> HasEntry(hs, entry, cfg)
  {
    hide Contains;
    for i := 0 to |hs|
      invariant forall j :: 0 <= j < i ==> !EntryIn(hs[j], entry)
    {
      if Loads(hs[i]) && entry >= hs[i].vaddr && entry - hs[i].vaddr < hs[i].memsz {
        assert Fits(hs[i], p, cfg);
        return Some(hs[i].paddr + (entry - hs[i].vaddr));
      }
    }
    return if LOW_MEMORY <= entry < cfg.usableEnd then Some(entry) else None;
  }

  // ---------- Booting ----------

  datatype Booted = Booted(entry: u32, initrd: Initrd, buffer: nat)

  function InitrdLimit(initrd: Initrd, cfg: Config): nat {
    if initrd.Initrd? then initrd.base else cfg.usableEnd
  }

  lemma SparedJoin(m0: seq<u8>, m1: seq<u8>, m2: seq<u8>, hs: seq<Phdr>, lo: int, hi: int, base: int, end: int)
    requires Spared(m0, m1, hs, lo, hi) && Spared(m1, m2, hs, base, end) && (base >= end || (lo <= base && end <= hi))
    ensures Spared(m0, m2, hs, lo, hi)
  {
    hide AnyCover;
  }

  lemma KeptIsSpared(m0: seq<u8>, m: seq<u8>, hs: seq<Phdr>, lo: int, hi: int)
    requires Kept(m0, m, lo, hi, true)
    ensures Spared(m0, m, hs, lo, hi)
  {
    hide AnyCover;
  }

  /** What lies above the kernel and outside the buffer stays. */
  lemma InitrdSurvives(m: seq<u8>, m': seq<u8>, hs: seq<Phdr>, base: int, end: int, at: nat, size: nat, disk: seq<u8>,
                       from: nat)
    requires Spared(m, m', hs, base, end) && Holds(m, at, disk, from, size)
    requires LoadHigh(hs, |hs|) <= at && (base >= end || end <= at)
    ensures Holds(m', at, disk, from, size)
  {
    if size > 0 {
      forall a | at <= a < at + size ensures m'[a] == m[a] {
        assert !AnyCover(hs, a);
      }
      assert m'[at..at + size] == m[at..at + size];
    }
  }

  /** The buffer chosen after pass one suits pass two. */
  lemma BufferFits(hs: seq<Phdr>, cfg: Config, total: nat, limit: nat)
    requires total == DeferEnd(hs, |hs|, cfg, 0) && DeferBase(total, limit, LoadHigh(hs, |hs|)).Some?
    ensures var base := DeferBase(total, limit, LoadHigh(hs, |hs|)).value;
            && Room(hs, cfg, base) && DeferEnd(hs, |hs|, cfg, base) == base + total
            && (if total == 0 then base == 0 else LoadHigh(hs, |hs|) <= base && base + total <= limit)
  {
    hide DeferEnd, LoadHigh, AlignDown, MultipleOf;
    var base := DeferBase(total, limit, LoadHigh(hs, |hs|)).value;
    AlignedForCopies(base);
    if total > 0 {
      DeferBaseExactly(total, limit, LoadHigh(hs, |hs|));
    }
    assert MultipleOf(base, DEFER_ALIGN);
    DeferEndShifts(hs, |hs|, cfg, base);
  }

  lemma AlignedForCopies(base: nat)
    ensures base == 0 || MultipleOf(base, PAGE) ==> MultipleOf(base, DEFER_ALIGN)
  {
    DivModUnique(0, DEFER_ALIGN, 0, 0);
    DivModUnique(PAGE, DEFER_ALIGN, 256, 0);
    hide MultipleOf;
    if MultipleOf(base, PAGE) {
      MultipleOfMultiple(base, DEFER_ALIGN, PAGE);
    }
  }

  /** The 32-bit total of pass one does not wrap; DisjointTotalFits shows this of non-overlapping segments. */
  ghost predicate TotalFits(hs: seq<Phdr>, p: Partition, cfg: Config) {
    AllFit(hs, p, cfg) && DeferCount(hs, |hs|, cfg) <= DEFER_MAX ==> DeferEnd(hs, |hs|, cfg, 0) + DEFER_ALIGN < TWO32
  }

  lemma DisjointIsEnough(hs: seq<Phdr>, p: Partition, cfg: Config)
    requires Disjoint(hs)
    ensures TotalFits(hs, p, cfg)
  {
    hide DeferEnd, DeferCount, AllFit, Disjoint;
    if AllFit(hs, p, cfg) && DeferCount(hs, |hs|, cfg) <= DEFER_MAX {
      DisjointTotalFits(hs, cfg, p);
    }
  }

  // ---------- The runtime ----------

  predicate InRuntime(cfg: Config, a: int) {
    cfg.runtimeBase <= a < cfg.runtimeBase + (cfg.runtimeSize as int)
  }

  /** [lo, hi) does not reach into the runtime. */
  predicate Clear(cfg: Config, lo: int, hi: int) {
    hi <= lo || cfg.runtimeSize == 0 || hi <= cfg.runtimeBase || cfg.runtimeBase + (cfg.runtimeSize as int) <= lo
  }

  lemma ClearIs(cfg: Config, lo: int, hi: int)
    ensures Clear(cfg, lo, hi) <==> forall a :: lo <= a < hi ==> !InRuntime(cfg, a)
  {
    if !Clear(cfg, lo, hi) {
      assert InRuntime(cfg, if lo <= cfg.runtimeBase then cfg.runtimeBase else lo);
    }
  }

  /** The runtime (but for a bounce sector inside it) is the same in both images. */
  ghost predicate RuntimeKept(m: seq<u8>, m': seq<u8>, cfg: Config) {
    |m'| == |m| && forall a :: 0 <= a < |m| && InRuntime(cfg, a) && !InBounce(a) ==> m'[a] == m[a]
  }

  /** A segment that touches the runtime is deferred. */
  lemma DirectMissesRuntime(h: Phdr, p: Partition, cfg: Config, a: int)
    requires Fits(h, p, cfg) && Writes(h, a) && !Defers(h, cfg)
    ensures !InRuntime(cfg, a)
  {
    hide Contains;
  }

  /** No temporary home of the first `n` headers reaches into the runtime. */
  predicate CopiesClear(hs: seq<Phdr>, n: nat, cfg: Config, base: nat)
    requires n <= |hs|
    decreases n
  {
    n == 0 ||
    (&& (Defers(hs[n - 1], cfg)
         ==> Clear(cfg, Temp(hs, n - 1, cfg, base), Temp(hs, n - 1, cfg, base) + hs[n - 1].filesz))
     && CopiesClear(hs, n - 1, cfg, base))
  }

  /** The place on the disk of the byte that waits at `a`, if one does. */
  function Source(hs: seq<Phdr>, n: nat, cfg: Config, base: nat, p: Partition, a: nat): Option<nat>
    requires n <= |hs|
    decreases n
  {
    if n == 0 then None
    else if InCopy(hs, n - 1, cfg, base, a) then Some(Place(p, hs[n - 1].off) + (a - Temp(hs, n - 1, cfg, base)))
    else Source(hs, n - 1, cfg, base, p, a)
  }

  lemma {:induction false} SourceCopied(hs: seq<Phdr>, n: nat, cfg: Config, base: nat, p: Partition, a: nat)
    requires n <= |hs|
    ensures Source(hs, n, cfg, base, p, a).Some? <==> Copied(hs, n, cfg, base, a)
    decreases n
  {
    hide Place, InCopy;
    if n > 0 {
      SourceCopied(hs, n - 1, cfg, base, p, a);
    }
  }

  lemma {:induction false} SourceIs(m: seq<u8>, hs: seq<Phdr>, n: nat, cfg: Config, base: nat, disk: seq<u8>,
                                    p: Partition, a: nat)
    requires n <= |hs| && AllWait(m, hs, n, cfg, base, disk, p)
    ensures var s := Source(hs, n, cfg, base, p, a); s.Some? ==> a < |m| && s.value < |disk| && m[a] == disk[s.value]
    decreases n
  {
    hide Defers, Place, Temp;
    if n > 0 {
      SourceIs(m, hs, n - 1, cfg, base, disk, p, a);
      if InCopy(hs, n - 1, cfg, base, a) {
        assert Waits(m, hs, n - 1, cfg, base, disk, p);
        var t, len := Temp(hs, n - 1, cfg, base), hs[n - 1].filesz;
        var at := Place(p, hs[n - 1].off);
        assert m[t..t + len][a - t] == disk[at..at + len][a - t];
      }
    }
  }

  lemma {:induction false} CopiesClearIs(hs: seq<Phdr>, n: nat, cfg: Config, base: nat, p: Partition)
    requires n <= |hs|
    ensures CopiesClear(hs, n, cfg, base)
            <==> forall a: nat :: InRuntime(cfg, a) ==> Source(hs, n, cfg, base, p, a) == None
    decreases n
  {
    hide Defers, Temp, Place, InRuntime, Clear;
    if n > 0 {
      CopiesClearIs(hs, n - 1, cfg, base, p);
      ClearIs(cfg, Temp(hs, n - 1, cfg, base), Temp(hs, n - 1, cfg, base) + hs[n - 1].filesz);
      forall a: nat | InRuntime(cfg, a)
        ensures Source(hs, n, cfg, base, p, a) == None <==>
                !InCopy(hs, n - 1, cfg, base, a) && Source(hs, n - 1, cfg, base, p, a) == None
      {
      }
    }
  }

  /** Loading and putting in place, once the buffer is chosen. */
  method LoadAll(m: Machine, p: Partition, hs: seq<Phdr>, cfg: Config, base: nat)
    returns (ok: bool, ghost pending: seq<u8>)
    requires WellPlaced(p) && AllFit(hs, p, cfg) && Room(hs, cfg, base)
    requires cfg.usableEnd <= |m.ram| && LOW_MEMORY <= |m.ram| && DeferEnd(hs, |hs|, cfg, base) <= |m.ram|
    modifies m
    ensures |m.ram| == |old(m.ram)| && Spared(old(m.ram), m.ram, hs, base, DeferEnd(hs, |hs|, cfg, base))
    ensures ok && Disjoint(hs) ==> AllLoaded(m.ram, hs, m.disk, p)
    ensures m.Healthy(p) ==> ok
    ensures Untouched(old(m.ram), pending, hs, |hs|, cfg, base)
    ensures ok ==> AllWait(pending, hs, |hs|, cfg, base, m.disk, p) && Spared(pending, m.ram, hs, base, base)
  {
    hide WellPlaced, AllFit, Room, Progress, Untouched, Listed, DeferEnd, Disjoint, AllLoaded, Spared, Inside,
      DirectLoaded, AllWait;
    var table;
    ghost var idx;
    ok, table, idx := LoadSegments(m, p, hs, cfg, base);
    pending := m.ram;
    UntouchedIsSpared(old(m.ram), m.ram, hs, cfg, base);
    if ok {
      ProgressAll(old(m.ram), m.ram, hs, cfg, base, m.disk, p);
      ApplyDeferred(m, table, p, cfg, idx, hs, base);
      SparedJoin(old(m.ram), pending, m.ram, hs, base, DeferEnd(hs, |hs|, cfg, base), base, base);
    }
  }

  lemma ProgressAll(m0: seq<u8>, m: seq<u8>, hs: seq<Phdr>, cfg: Config, base: nat, disk: seq<u8>, p: Partition)
    requires Progress(m0, m, hs, |hs|, cfg, base, disk, p)
    ensures AllWait(m, hs, |hs|, cfg, base, disk, p) && (Disjoint(hs) ==> DirectLoaded(m, hs, |hs|, cfg, disk, p))
  {
  }

  /** What the initrd looks like in memory. */
  ghost predicate InitrdLoaded(m: seq<u8>, i: Initrd, part: Option<Partition>, hs: seq<Phdr>, cfg: Config,
                               disk: seq<u8>) {
    i.Initrd? ==>
      && part.Some? && i == InitrdPlace(part.value.sectors, LoadHigh(hs, |hs|), cfg)
      && Holds(m, i.base, disk, Place(part.value, 0), i.size)
  }

  function Wanted(part: Option<Partition>, hs: seq<Phdr>, cfg: Config): Initrd {
    if part.Some? then InitrdPlace(part.value.sectors, LoadHigh(hs, |hs|), cfg) else NoInitrd
  }

  // ---------- Survival of the runtime ----------

  /** What a boot is asked to load: resolved headers, where the kernel and the initrd are, and the configuration. */
  datatype Job = Job(hs: seq<Phdr>, p: Partition, part: Option<Partition>, cfg: Config) {
    function Initrd(): Initrd {
      Wanted(part, hs, cfg)
    }

    /** The buffer that goes with the initrd `i`. */
    function BufferBelow(i: Initrd): Option<nat> {
      DeferBase(DeferEnd(hs, |hs|, cfg, 0), InitrdLimit(i, cfg), LoadHigh(hs, |hs|))
    }

    function Buffer(): Option<nat> {
      BufferBelow(Initrd())
    }
  }

  /** Initrd and deferred copies are placed clear of the runtime. */
  predicate Places(job: Job) {
    && Clear(job.cfg, Lo(job.Initrd()), Hi(job.Initrd()))
    && (job.Buffer().Some? ==> CopiesClear(job.hs, |job.hs|, job.cfg, job.Buffer().value))
  }

  function DiskByte(disk: seq<u8>, at: nat): u8 {
    if at < |disk| then disk[at] else 0
  }

  /** Where the byte comes from that stands at `a` in the runtime before the final moves; None if it is the old one. */
  function Origin(job: Job, a: nat): Option<nat>
    requires job.Buffer().Some?
  {
    if job.part.Some? && Lo(job.Initrd()) <= a < Hi(job.Initrd())
    then Some(Place(job.part.value, 0) + (a - Lo(job.Initrd())))
    else Source(job.hs, |job.hs|, job.cfg, job.Buffer().value, job.p, a)
  }

  function RuntimeByte(m0: seq<u8>, disk: seq<u8>, job: Job, a: nat): u8
    requires job.Buffer().Some? && a < |m0|
  {
    match Origin(job, a)
    case Some(at) => DiskByte(disk, at)
    case None => m0[a]
  }

  /** The runtime, byte for byte, just before the final moves. */
  ghost predicate Leaves(m0: seq<u8>, disk: seq<u8>, m: seq<u8>, job: Job)
    requires job.Buffer().Some?
  {
    && |m| == |m0|
    && forall a: nat :: a < |m0| && InRuntime(job.cfg, a) && !InBounce(a) ==> m[a] == RuntimeByte(m0, disk, job, a)
  }

  lemma RuntimeNotDirect(hs: seq<Phdr>, p: Partition, cfg: Config, a: int)
    requires AllFit(hs, p, cfg) && InRuntime(cfg, a)
    ensures !DirectCover(hs, |hs|, cfg, a)
  {
    hide Defers, Fits, InRuntime;
    forall j | 0 <= j < |hs| && Writes(hs[j], a) ensures Defers(hs[j], cfg) {
      if !Defers(hs[j], cfg) {
        DirectMissesRuntime(hs[j], p, cfg, a);
      }
    }
  }

  /** Whether or not the initrd could be read, a runtime clear of its place and of the copies stays. */
  lemma RuntimeSurvives(m0: seq<u8>, m1: seq<u8>, m2: seq<u8>, hs: seq<Phdr>, p: Partition, cfg: Config,
                        lo: int, hi: int, base: nat, disk: seq<u8>)
    requires AllFit(hs, p, cfg) && Kept(m0, m1, lo, hi, true) && Untouched(m1, m2, hs, |hs|, cfg, base)
    requires AllWait(m2, hs, |hs|, cfg, base, disk, p)
    requires Clear(cfg, lo, hi) && CopiesClear(hs, |hs|, cfg, base)
    ensures RuntimeKept(m0, m2, cfg)
  {
    hide AllFit, DirectCover, Copied, CopiesClear, AllWait, Source, InRuntime, Clear;
    ClearIs(cfg, lo, hi);
    CopiesClearIs(hs, |hs|, cfg, base, p);
    forall a: nat | a < |m0| && InRuntime(cfg, a) && !InBounce(a) ensures m2[a] == m0[a] {
      SourceCopied(hs, |hs|, cfg, base, p, a);
      RuntimeNotDirect(hs, p, cfg, a);
    }
  }

  /** With the initrd read, every byte of the runtime is known. */
  lemma RuntimeKnown(m0: seq<u8>, m1: seq<u8>, m2: seq<u8>, disk: seq<u8>, job: Job)
    requires AllFit(job.hs, job.p, job.cfg) && job.Buffer().Some?
    requires Kept(m0, m1, Lo(job.Initrd()), Hi(job.Initrd()), true)
    requires Untouched(m1, m2, job.hs, |job.hs|, job.cfg, job.Buffer().value)
    requires AllWait(m2, job.hs, |job.hs|, job.cfg, job.Buffer().value, disk, job.p)
    requires InitrdLoaded(m2, job.Initrd(), job.part, job.hs, job.cfg, disk)
    ensures Leaves(m0, disk, m2, job)
  {
    hide AllFit, DirectCover, Copied, AllWait, Source, InRuntime, Place, Wanted, InitrdPlace, DeferBase, DeferEnd,
      LoadHigh;
    var lo, hi := Lo(job.Initrd()), Hi(job.Initrd());
    forall a: nat | a < |m0| && InRuntime(job.cfg, a) && !InBounce(a) ensures m2[a] == RuntimeByte(m0, disk, job, a) {
      SourceCopied(job.hs, |job.hs|, job.cfg, job.Buffer().value, job.p, a);
      SourceIs(m2, job.hs, |job.hs|, job.cfg, job.Buffer().value, disk, job.p, a);
      RuntimeNotDirect(job.hs, job.p, job.cfg, a);
      if lo <= a < hi {
        var at := Place(job.part.value, 0);
        assert m2[lo..hi][a - lo] == disk[at..at + (hi - lo)][a - lo];
      }
    }
  }

  lemma PlacesIs(job: Job)
    requires job.Buffer().Some?
    ensures Places(job) <==> forall a: nat :: InRuntime(job.cfg, a) ==> Origin(job, a) == None
  {
    hide Clear, InRuntime, CopiesClear, Source, Place, InitrdPlace, DeferBase, DeferEnd, LoadHigh;
    var lo, hi := Lo(job.Initrd()), Hi(job.Initrd());
    ClearIs(job.cfg, lo, hi);
    CopiesClearIs(job.hs, |job.hs|, job.cfg, job.Buffer().value, job.p);
    if Clear(job.cfg, lo, hi) {
      forall a: nat | InRuntime(job.cfg, a)
        ensures Origin(job, a) == Source(job.hs, |job.hs|, job.cfg, job.Buffer().value, job.p, a)
      {
      }
    } else {
      var a :| lo <= a < hi && InRuntime(job.cfg, a);
      assert Origin(job, a).Some?;
    }
  }

  /** What is written over the runtime lies above 1 MiB and in usable memory. */
  lemma OriginAbove(job: Job, a: nat)
    requires AllFit(job.hs, job.p, job.cfg) && job.Buffer().Some? && Origin(job, a).Some?
    ensures LOW_MEMORY <= a < job.cfg.usableEnd && !InBounce(a)
  {
    hide DeferEnd, LoadHigh, DeferBase, Defers, AllFit, Temp, Source, AlignDown;
    var w := job.Initrd();
    if !(job.part.Some? && Lo(w) <= a < Hi(w)) {
      var base, total := job.Buffer().value, DeferEnd(job.hs, |job.hs|, job.cfg, 0);
      SourceCopied(job.hs, |job.hs|, job.cfg, base, job.p, a);
      var j :| 0 <= j < |job.hs| && InCopy(job.hs, j, job.cfg, base, a);
      BufferFits(job.hs, job.cfg, total, InitrdLimit(w, job.cfg));
      TempAbove(job.hs, j, job.cfg, base);
      TempInBuffer(job.hs, j, job.cfg, base);
    }
  }

  /**
   * The runtime survives until the final moves, whatever memory and disk hold, if and only if initrd and copies are
   * placed clear of it.
   */
  lemma RuntimeSurvivesIff(job: Job, n: nat)
    requires AllFit(job.hs, job.p, job.cfg) && job.Buffer().Some? && job.cfg.usableEnd <= n
    ensures (forall m0, disk, m :: |m0| == n && Leaves(m0, disk, m, job) ==> RuntimeKept(m0, m, job.cfg))
            <==> Places(job)
  {
    hide Places, Origin, InRuntime, AllFit, DeferBase;
    PlacesIs(job);
    if !Places(job) {
      var a: nat :| InRuntime(job.cfg, a) && Origin(job, a).Some?;
      OriginAbove(job, a);
      var m0: seq<u8> := seq(n, _ => 0);
      var disk: seq<u8> := seq(Origin(job, a).value + 1, _ => 1);
      var m: seq<u8> := seq(n, i requires 0 <= i < n => RuntimeByte(m0, disk, job, i));
      assert Leaves(m0, disk, m, job) && m[a] != m0[a];
    }
  }

  lemma {:induction false} FirstCopy(hs: seq<Phdr>, n: nat, cfg: Config, base: nat) returns (j: nat)
    requires n <= |hs| && MultipleOf(base, DEFER_ALIGN) && DeferEnd(hs, n, cfg, base) > base
    ensures j < n && Defers(hs[j], cfg) && hs[j].filesz > 0 && Temp(hs, j, cfg, base) == base
    decreases n
  {
    hide Defers, MultipleOf, AlignUp;
    if DeferEnd(hs, n - 1, cfg, base) > base {
      j := FirstCopy(hs, n - 1, cfg, base);
    } else {
      j := n - 1;
      AlignUpLeast(base, DEFER_ALIGN, base);
    }
  }

  /**
   * For a runtime that does not wrap the test on the copies is one on the whole buffer: a segment is deferred because
   * it reaches into the runtime, so a runtime that meets the buffer covers its first byte.
   */
  lemma CopiesClearExactly(hs: seq<Phdr>, cfg: Config, p: Partition, base: nat)
    requires AllFit(hs, p, cfg) && Room(hs, cfg, base) && MultipleOf(base, DEFER_ALIGN)
    requires cfg.runtimeBase + (cfg.runtimeSize as int) < TWO32
    ensures CopiesClear(hs, |hs|, cfg, base) <==> Clear(cfg, base, DeferEnd(hs, |hs|, cfg, base))
  {
    hide DeferEnd, CopiesClear, InRuntime, LoadHigh, Temp, MultipleOf, Room, Fits, Defers, Clear, Source, InCopy,
      AllFit;
    var end := DeferEnd(hs, |hs|, cfg, base);
    ClearIs(cfg, base, end);
    CopiesClearIs(hs, |hs|, cfg, base, p);
    if Clear(cfg, base, end) {
      forall a: nat | InRuntime(cfg, a) ensures Source(hs, |hs|, cfg, base, p, a) == None {
        SourceCopied(hs, |hs|, cfg, base, p, a);
        CopyInBuffer(hs, cfg, base, a);
      }
    } else {
      EmptyIsClear(cfg, base, end);
      var j := FirstCopy(hs, |hs|, cfg, base);
      FirstCopyInRuntime(hs, j, cfg, p, base, end);
      SourceCopied(hs, |hs|, cfg, base, p, base);
    }
  }

  lemma EmptyIsClear(cfg: Config, lo: int, hi: int)
    ensures hi <= lo ==> Clear(cfg, lo, hi)
  {
  }

  lemma CopyInBuffer(hs: seq<Phdr>, cfg: Config, base: nat, a: nat)
    ensures Copied(hs, |hs|, cfg, base, a) ==> base <= a < DeferEnd(hs, |hs|, cfg, base)
  {
    hide Defers, DeferEnd, Temp;
    if Copied(hs, |hs|, cfg, base, a) {
      var j :| 0 <= j < |hs| && InCopy(hs, j, cfg, base, a);
      TempInBuffer(hs, j, cfg, base);
    }
  }

  lemma FirstCopyInRuntime(hs: seq<Phdr>, j: nat, cfg: Config, p: Partition, base: nat, end: nat)
    requires AllFit(hs, p, cfg) && Room(hs, cfg, base) && cfg.runtimeBase + (cfg.runtimeSize as int) < TWO32
    requires j < |hs| && Defers(hs[j], cfg) && hs[j].filesz > 0 && Temp(hs, j, cfg, base) == base
    requires !Clear(cfg, base, end)
    ensures InRuntime(cfg, base) && InCopy(hs, j, cfg, base, base)
  {
    hide DeferEnd, LoadHigh, AlignUp, Room, Temp, Contains;
    TempAbove(hs, j, cfg, base);
    assert Fits(hs[j], p, cfg) && hs[j].paddr + (hs[j].memsz as int) <= LoadHigh(hs, |hs|);
  }

  /**
   * An initrd of 2560 sectors below 3 MiB lies over a runtime at 2 MiB: before the final moves all of the runtime is
   * initrd.
   */
  lemma InitrdOverRuntime(job: Job, m0: seq<u8>, disk: seq<u8>, m: seq<u8>)
    requires job.cfg == Config(0x30_0000, 0x20_0000, 0x4_0000) && LoadHigh(job.hs, |job.hs|) == 0x18_0000
    requires job.part.Some? && job.part.value.sectors == 2560 && job.Buffer().Some?
    requires 0x30_0000 <= |m0| && Leaves(m0, disk, m, job)
    ensures job.Initrd() == Initrd(0x1c_0000, 0x14_0000) && !Places(job)
    ensures forall a :: 0x20_0000 <= a < 0x24_0000
                        ==> m[a] == DiskByte(disk, Place(job.part.value, 0) + (a - 0x1c_0000))
  {
    DivModUnique(0x1c_0000, PAGE, 0x1c0, 0);
    DivModUnique(0x30_0000, SECTOR, 0x1800, 0);
    hide Source, DeferBase, CopiesClear, LoadHigh, DeferEnd, Place;
    assert job.Initrd() == Initrd(0x1c_0000, 0x14_0000);
    forall a | 0x20_0000 <= a < 0x24_0000
      ensures m[a] == DiskByte(disk, Place(job.part.value, 0) + (a - 0x1c_0000))
    {
      assert m[a] == RuntimeByte(m0, disk, job, a);
    }
  }

  /** The initrd, if a partition holds one and it can be read. */
  method FetchInitrd(m: Machine, part: Option<Partition>, hs: seq<Phdr>, loadHigh: nat, cfg: Config) returns (i: Initrd)
    requires (part.Some? ==> WellPlaced(part.value)) && loadHigh == LoadHigh(hs, |hs|)
    requires cfg.usableEnd <= |m.ram| && LOW_MEMORY <= |m.ram|
    modifies m
    ensures |m.ram| == |old(m.ram)| && Spared(old(m.ram), m.ram, hs, loadHigh, cfg.usableEnd)
    ensures Kept(old(m.ram), m.ram, Lo(Wanted(part, hs, cfg)), Hi(Wanted(part, hs, cfg)), true)
    ensures InitrdLoaded(m.ram, i, part, hs, cfg, m.disk)
    ensures i.Initrd? ==> loadHigh <= i.base <= cfg.usableEnd
    ensures i == Wanted(part, hs, cfg) || i == NoInitrd
    ensures (part.Some? ==> m.Healthy(part.value)) ==> i == Wanted(part, hs, cfg)
  {
    hide WellPlaced, Spared, Inside, LoadHigh, Holds, Kept, InitrdPlace, Place;
    i := NoInitrd;
    KeptSelf(m.ram, loadHigh, cfg.usableEnd);
    KeptSelf(m.ram, 0, 0);
    if part.Some? {
      i := LoadInitrd(m, part.value, loadHigh, cfg);
      InitrdBelowEnd(part.value, loadHigh, cfg);
    }
    KeptIsSpared(old(m.ram), m.ram, hs, loadHigh, cfg.usableEnd);
  }

  lemma SparedNothing(m0: seq<u8>, m: seq<u8>, hs: seq<Phdr>, lo: int, hi: int)
    requires Spared(m0, m, hs, lo, lo)
    ensures Spared(m0, m, hs, hi, hi)
  {
    hide AnyCover;
  }

  /** After pass one: initrd, buffer, pass two and the final moves; `pending` is memory just before the moves. */
  method BootPlanned(m: Machine, p: Partition, hs: seq<Phdr>, loadHigh: nat, total: nat, initrdPart: Option<Partition>,
                     cfg: Config)
    returns (r: Option<(Initrd, nat)>, ghost pending: seq<u8>)
    requires WellPlaced(p) && (initrdPart.Some? ==> WellPlaced(initrdPart.value)) && AllFit(hs, p, cfg)
    requires cfg.usableEnd <= |m.ram| && LOW_MEMORY <= |m.ram|
    requires loadHigh == LoadHigh(hs, |hs|) && total == DeferEnd(hs, |hs|, cfg, 0)
    modifies m
    ensures Spared(old(m.ram), m.ram, hs, loadHigh, cfg.usableEnd)
    ensures r.Some? && Disjoint(hs) ==> AllLoaded(m.ram, hs, m.disk, p)
    ensures r.Some? ==> InitrdLoaded(m.ram, r.value.0, initrdPart, hs, cfg, m.disk)
    ensures r.Some? ==> InitrdLoaded(pending, r.value.0, initrdPart, hs, cfg, m.disk)
    ensures r.Some? ==> AllWait(pending, hs, |hs|, cfg, r.value.1, m.disk, p) && Spared(pending, m.ram, hs, 0, 0)
    ensures var job := Job(hs, p, initrdPart, cfg);
            r.Some? ==>
              && job.BufferBelow(r.value.0) == Some(r.value.1) && (r.value.0 == job.Initrd() || r.value.0 == NoInitrd)
              && (r.value.0 == job.Initrd() ==> Leaves(old(m.ram), m.disk, pending, job))
              && (Clear(cfg, Lo(job.Initrd()), Hi(job.Initrd())) && CopiesClear(hs, |hs|, cfg, r.value.1) ==>
                    RuntimeKept(old(m.ram), pending, cfg))
    ensures m.Healthy(p) && (initrdPart.Some? ==> m.Healthy(initrdPart.value)) ==>
              (r.Some? <==> DeferBase(total, InitrdLimit(Wanted(initrdPart, hs, cfg), cfg), loadHigh).Some?)
  {
    hide WellPlaced, AllFit, Room, DeferEnd, Disjoint, AllLoaded, Spared, LoadHigh, Holds, InitrdPlace, DeferBase,
      Place, Wanted;
    var initrd := FetchInitrd(m, initrdPart, hs, loadHigh, cfg);
    pending := m.ram;
    var base := DeferBase(total, InitrdLimit(initrd, cfg), loadHigh);
    if base.None? {
      return None, pending;
    }
    BufferFits(hs, cfg, total, InitrdLimit(initrd, cfg));
    ghost var before := m.ram;
    var ok;
    ok, pending := LoadAll(m, p, hs, cfg, base.value);
    SparedJoin(old(m.ram), before, m.ram, hs, loadHigh, cfg.usableEnd, base.value, base.value + total);
    if !ok {
      return None, pending;
    }
    SparedNothing(pending, m.ram, hs, base.value, 0);
    UntouchedIsSpared(before, pending, hs, cfg, base.value);
    if initrd.Initrd? {
      InitrdSurvives(before, m.ram, hs, base.value, base.value + total, initrd.base, initrd.size, m.disk,
                     Place(initrdPart.value, 0));
      InitrdSurvives(before, pending, hs, base.value, base.value + total, initrd.base, initrd.size, m.disk,
                     Place(initrdPart.value, 0));
    }
    ghost var job := Job(hs, p, initrdPart, cfg);
    if Clear(cfg, Lo(job.Initrd()), Hi(job.Initrd())) && CopiesClear(hs, |hs|, cfg, base.value) {
      RuntimeSurvives(old(m.ram), before, pending, hs, p, cfg, Lo(job.Initrd()), Hi(job.Initrd()), base.value, m.disk);
    }
    if initrd == job.Initrd() {
      RuntimeKnown(old(m.ram), before, pending, m.disk, job);
    }
    return Some((initrd, base.value)), pending;
  }

  /** When a healthy drive makes the boot succeed. */
  ghost predicate CanBoot(headers: seq<Phdr>, entry: u32, initrdPart: Option<Partition>, p: Partition, cfg: Config) {
    var hs := AllResolved(headers);
    && AllAcceptable(headers, |headers|, p, cfg) && DeferCount(hs, |hs|, cfg) <= 8
    && HasEntry(hs, entry, cfg)
    && DeferBase(DeferEnd(hs, |hs|, cfg, 0), InitrdLimit(Wanted(initrdPart, hs, cfg), cfg), LoadHigh(hs, |hs|)).Some?
  }

  method Boot(m: Machine, p: Partition, headers: seq<Phdr>, entry: u32, initrdPart: Option<Partition>, cfg: Config)
    returns (r: Option<Booted>, ghost pending: seq<u8>)
    requires WellPlaced(p) && (initrdPart.Some? ==> WellPlaced(initrdPart.value))
    requires cfg.usableEnd <= |m.ram| && LOW_MEMORY <= |m.ram|
    requires TotalFits(AllResolved(headers), p, cfg)
    modifies m
    ensures var hs := AllResolved(headers);
            && Spared(old(m.ram), m.ram, hs, LoadHigh(hs, |hs|), cfg.usableEnd)
            && (r.Some? && Disjoint(hs) ==> AllLoaded(m.ram, hs, m.disk, p))
            && (r.Some? ==> InitrdLoaded(m.ram, r.value.initrd, initrdPart, hs, cfg, m.disk))
    ensures var hs := AllResolved(headers);
            var job := Job(hs, p, initrdPart, cfg);
            r.Some? ==>
              && job.BufferBelow(r.value.initrd) == Some(r.value.buffer)
              && (r.value.initrd == job.Initrd() || r.value.initrd == NoInitrd)
              && (r.value.initrd == job.Initrd() ==> Leaves(old(m.ram), m.disk, pending, job))
              && (Clear(cfg, Lo(job.Initrd()), Hi(job.Initrd())) && CopiesClear(hs, |hs|, cfg, r.value.buffer) ==>
                    RuntimeKept(old(m.ram), pending, cfg))
    ensures var hs := AllResolved(headers);
            r.Some? ==>
              && InitrdLoaded(pending, r.value.initrd, initrdPart, hs, cfg, m.disk)
              && AllWait(pending, hs, |hs|, cfg, r.value.buffer, m.disk, p) && Spared(pending, m.ram, hs, 0, 0)
    ensures r.Some? ==> AllAcceptable(headers, |headers|, p, cfg)
    ensures r.Some? ==>
              EntersAt(AllResolved(headers), entry, r.value.entry) && 0x10_0000 <= r.value.entry < cfg.usableEnd
    ensures m.Healthy(p) && (initrdPart.Some? ==> m.Healthy(initrdPart.value)) ==>
              (r.Some? <==> CanBoot(headers, entry, initrdPart, p, cfg))
  {
    hide WellPlaced, AllFit, DeferEnd, Disjoint, AllLoaded, Spared, AllAcceptable, DeferCount, HasEntry, LoadHigh,
      InitrdLoaded, DeferBase, EntersAt, Wanted;
    ghost var goal := AllResolved(headers);
    SparedSelf(m.ram, goal, LoadHigh(goal, |goal|), cfg.usableEnd);
    pending := m.ram;
    var plan := CheckLoads(headers, p, cfg);
    if plan.None? {
      return None, pending;
    }
    var hs, loadHigh, total := plan.value.hs, plan.value.loadHigh, plan.value.total;
    var at := FindEntry(entry, hs, p, cfg);
    if at.None? {
      return None, pending;
    }
    var done;
    done, pending := BootPlanned(m, p, hs, loadHigh, total, initrdPart, cfg);
    if done.None? {
      return None, pending;
    }
    return Some(Booted(at.value, done.value.0, done.value.1)), pending;
  }

  lemma SparedSelf(m: seq<u8>, hs: seq<Phdr>, lo: int, hi: int)
    ensures Spared(m, m, hs, lo, hi)
  {
  }

  lemma InitrdBelowEnd(part: Partition, loadHigh: nat, cfg: Config)
    ensures var i := InitrdPlace(part.sectors, loadHigh, cfg); i.Initrd? ==> loadHigh <= i.base <= cfg.usableEnd
  {
    hide AlignDown;
  }
}
