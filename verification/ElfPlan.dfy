/** First pass over an ELF kernel's program headers, and the layout it fixes for the second. */
module ElfPlan {
  import opened Words
  import opened ByteReader

  const PT_LOAD := 1
  const KERNEL_OFFSET := 0xc000_0000
  const DEFER_MAX := 8
  const DEFER_ALIGN := 16
  const PAGE := 0x1000

  datatype Phdr = Phdr(kind: u32, off: u32, vaddr: u32, paddr: u32, filesz: u32, memsz: u32)

  /** Usable memory ends at `usableEnd`; [runtimeBase, runtimeBase + runtimeSize) must survive until the end. */
  datatype Config = Config(usableEnd: u32, runtimeBase: u32, runtimeSize: u32)

  function Resolve(paddr: u32, vaddr: u32): Option<u32> {
    if paddr >= LOW_MEMORY then Some(paddr)
    else if vaddr >= KERNEL_OFFSET then
      if vaddr - KERNEL_OFFSET >= LOW_MEMORY then Some(vaddr - KERNEL_OFFSET) else None
    else if vaddr >= LOW_MEMORY then Some(vaddr)
    else None
  }

  /** The 32-bit overlap test; an address range that wraps counts as overlapping. */
  predicate Overlaps(aBase: u32, aSize: u32, bBase: u32, bSize: u32) {
    if aSize == 0 || bSize == 0 then false
    else
      var aEnd := (aBase + (aSize as int)) % TWO32;
      var bEnd := (bBase + (bSize as int)) % TWO32;
      if aEnd < aBase || bEnd < bBase then true else aBase < bEnd && bBase < aEnd
  }

  /** The test finds a shared address if there is one, and also fires for a range that reaches 4 GiB. */
  lemma OverlapsExactly(aBase: u32, aSize: u32, bBase: u32, bSize: u32)
    ensures Overlaps(aBase, aSize, bBase, bSize) <==>
            && aSize > 0 && bSize > 0
            && (aBase + (aSize as int) >= TWO32 || bBase + (bSize as int) >= TWO32
                || exists a: int :: SharedAddress(a, aBase, aSize, bBase, bSize))
  {
    if aBase + (aSize as int) < TWO32 && bBase + (bSize as int) < TWO32 && Overlaps(aBase, aSize, bBase, bSize) {
      var a: int := if aBase <= bBase then bBase else aBase;
      assert SharedAddress(a, aBase, aSize, bBase, bSize);
    }
  }

  predicate SharedAddress(a: int, aBase: u32, aSize: u32, bBase: u32, bSize: u32) {
    aBase <= a < aBase + (aSize as int) && bBase <= a < bBase + (bSize as int)
  }

  predicate Loads(h: Phdr) {
    h.kind == PT_LOAD
  }

  predicate Defers(h: Phdr, cfg: Config) {
    Loads(h) && Overlaps(h.paddr, h.memsz, cfg.runtimeBase, cfg.runtimeSize)
  }

  /** The header with its physical address filled in, as pass one rewrites it. */
  function Resolved(h: Phdr): Phdr {
    match Resolve(h.paddr, h.vaddr)
    case Some(a) => if Loads(h) then h.(paddr := a) else h
    case None => h
  }

  function AllResolved(hs: seq<Phdr>): (r: seq<Phdr>)
    ensures |r| == |hs| && forall i :: 0 <= i < |hs| ==> r[i] == Resolved(hs[i])
  {
    seq(|hs|, i requires 0 <= i < |hs| => Resolved(hs[i]))
  }

  /** A resolved segment the loader accepts: above 1 MiB, in usable memory, and its file bytes exist. */
  predicate Fits(h: Phdr, p: Partition, cfg: Config) {
    && LOW_MEMORY <= h.paddr < cfg.usableEnd && h.filesz <= h.memsz
    && h.memsz <= cfg.usableEnd - h.paddr && Contains(p, h.off, h.filesz)
  }

  predicate Acceptable(h: Phdr, p: Partition, cfg: Config) {
    Loads(h) ==> Resolve(h.paddr, h.vaddr).Some? && Fits(Resolved(h), p, cfg)
  }

  ghost predicate AllFit(hs: seq<Phdr>, p: Partition, cfg: Config) {
    forall i :: 0 <= i < |hs| && Loads(hs[i]) ==> Fits(hs[i], p, cfg)
  }

  // ---------- Layout of the deferred copies ----------

  /** Where the cursor stands after the first `n` headers when it starts at `base`. */
  function DeferEnd(hs: seq<Phdr>, n: nat, cfg: Config, base: nat): (r: nat)
    requires n <= |hs|
    ensures r >= base
    decreases n
  {
    if n == 0 then base
    else if Defers(hs[n - 1], cfg) then AlignUp(DeferEnd(hs, n - 1, cfg, base), DEFER_ALIGN) + hs[n - 1].filesz
    else DeferEnd(hs, n - 1, cfg, base)
  }

  function DeferCount(hs: seq<Phdr>, n: nat, cfg: Config): nat
    requires n <= |hs|
    decreases n
  {
    if n == 0 then 0 else DeferCount(hs, n - 1, cfg) + if Defers(hs[n - 1], cfg) then 1 else 0
  }

  /** The temporary home of header `j`. */
  function Temp(hs: seq<Phdr>, j: nat, cfg: Config, base: nat): nat
    requires j < |hs|
  {
    AlignUp(DeferEnd(hs, j, cfg, base), DEFER_ALIGN)
  }

  /** Pass two lays the copies out exactly as pass one counted them. */
  lemma {:induction false} DeferEndShifts(hs: seq<Phdr>, n: nat, cfg: Config, base: nat)
    requires n <= |hs| && MultipleOf(base, DEFER_ALIGN)
    ensures DeferEnd(hs, n, cfg, base) == base + DeferEnd(hs, n, cfg, 0)
    decreases n
  {
    hide AlignUp, MultipleOf, Defers;
    if n > 0 {
      DeferEndShifts(hs, n - 1, cfg, base);
      AlignUpShift(base, DeferEnd(hs, n - 1, cfg, 0), DEFER_ALIGN);
    }
  }

  lemma {:induction false} DeferEndGrows(hs: seq<Phdr>, i: nat, n: nat, cfg: Config, base: nat)
    requires i <= n <= |hs|
    ensures DeferEnd(hs, i, cfg, base) <= DeferEnd(hs, n, cfg, base)
    decreases n
  {
    hide AlignUp, Defers;
    if i < n {
      DeferEndGrows(hs, i, n - 1, cfg, base);
    }
  }

  /** The copies lie between the buffer's start and end, one after the other. */
  lemma TempsApart(hs: seq<Phdr>, i: nat, j: nat, cfg: Config, base: nat)
    requires i < j < |hs| && Defers(hs[i], cfg)
    ensures base <= Temp(hs, i, cfg, base)
    ensures Temp(hs, i, cfg, base) + hs[i].filesz <= DeferEnd(hs, j, cfg, base) <= Temp(hs, j, cfg, base)
  {
    hide AlignUp, Defers;
    DeferEndGrows(hs, i + 1, j, cfg, base);
  }

  lemma TempInBuffer(hs: seq<Phdr>, j: nat, cfg: Config, base: nat)
    requires j < |hs| && Defers(hs[j], cfg)
    ensures base <= Temp(hs, j, cfg, base)
    ensures Temp(hs, j, cfg, base) + hs[j].filesz == DeferEnd(hs, j + 1, cfg, base) <= DeferEnd(hs, |hs|, cfg, base)
  {
    hide AlignUp, Defers;
    DeferEndGrows(hs, j + 1, |hs|, cfg, base);
  }

  // ---------- Disjoint segments never overflow the count ----------

  predicate Apart(g: Phdr, h: Phdr) {
    g.paddr + (g.memsz as int) <= h.paddr || h.paddr + (h.memsz as int) <= g.paddr
  }

  ghost predicate Disjoint(hs: seq<Phdr>) {
    forall i, j :: 0 <= i < j < |hs| && Loads(hs[i]) && Loads(hs[j]) ==> Apart(hs[i], hs[j])
  }

  function Bytes(lo: int, hi: int): (r: set<int>)
    ensures forall a :: a in r <==> lo <= a < hi
    ensures lo <= hi ==> |r| == hi - lo
    decreases hi - lo
  {
    if lo >= hi then {} else Bytes(lo, hi - 1) + {hi - 1}
  }

  /** The file bytes of the deferred segments among the first `n`, at their final place. */
  function FinalBytes(hs: seq<Phdr>, n: nat, cfg: Config): set<int>
    requires n <= |hs|
    decreases n
  {
    if n == 0 then {}
    else if Defers(hs[n - 1], cfg) then
      FinalBytes(hs, n - 1, cfg) + Bytes(hs[n - 1].paddr, hs[n - 1].paddr + (hs[n - 1].filesz as int))
    else FinalBytes(hs, n - 1, cfg)
  }

  lemma {:induction false} FinalBytesAre(hs: seq<Phdr>, n: nat, cfg: Config, p: Partition)
    requires n <= |hs| && AllFit(hs, p, cfg)
    ensures FinalBytes(hs, n, cfg) <= Bytes(LOW_MEMORY, cfg.usableEnd)
    ensures forall a :: a in FinalBytes(hs, n, cfg) ==>
              exists i :: 0 <= i < n && Loads(hs[i]) && hs[i].paddr <= a < hs[i].paddr + (hs[i].memsz as int)
    decreases n
  {
    hide Contains, Overlaps;
    if n > 0 {
      FinalBytesAre(hs, n - 1, cfg, p);
    }
  }

  lemma {:induction false} DeferredBytesCount(hs: seq<Phdr>, n: nat, cfg: Config, p: Partition)
    requires n <= |hs| && AllFit(hs, p, cfg) && Disjoint(hs)
    ensures DeferEnd(hs, n, cfg, 0) <= |FinalBytes(hs, n, cfg)| + (DEFER_ALIGN - 1) * DeferCount(hs, n, cfg)
    decreases n
  {
    hide Contains, Overlaps, AlignUp, Bytes;
    if n > 0 {
      DeferredBytesCount(hs, n - 1, cfg, p);
      if Defers(hs[n - 1], cfg) {
        var h := hs[n - 1];
        var old_, new_ := FinalBytes(hs, n - 1, cfg), Bytes(h.paddr, h.paddr + (h.filesz as int));
        FinalBytesAre(hs, n - 1, cfg, p);
        assert old_ !! new_;
      }
    }
  }

  /** Pass one's total stays below 4 GiB whenever the segments do not overlap, whatever their sizes. */
  lemma DisjointTotalFits(hs: seq<Phdr>, cfg: Config, p: Partition)
    requires AllFit(hs, p, cfg) && Disjoint(hs) && DeferCount(hs, |hs|, cfg) <= DEFER_MAX
    ensures DeferEnd(hs, |hs|, cfg, 0) + DEFER_ALIGN < TWO32
  {
    hide DeferEnd, DeferCount, FinalBytes, Bytes;
    DeferredBytesCount(hs, |hs|, cfg, p);
    FinalBytesAre(hs, |hs|, cfg, p);
    SubsetCount(FinalBytes(hs, |hs|, cfg), Bytes(LOW_MEMORY, cfg.usableEnd));
  }

  lemma SubsetCount(x: set<int>, y: set<int>)
    requires x <= y
    ensures |x| <= |y|
  {
    assert y == x + (y - x);
  }

  // ---------- The first pass ----------

  /** linux_align_up on 32-bit words. */
  function AlignUp32(value: u32, align: nat): u32
    requires 0 < align < TWO32
  {
    AlignDown((value + align - 1) % TWO32, align)
  }

  lemma AlignUp32Is(value: u32, align: nat)
    requires 0 < align < TWO32 && value + align <= TWO32
    ensures AlignUp32(value, align) == AlignUp(value, align)
  {
    AlignUpLeast(value, align, AlignDown(value + align - 1, align));
  }

  /** The high-water mark of the segments among the first `n`. */
  function LoadHigh(hs: seq<Phdr>, n: nat): (r: nat)
    requires n <= |hs|
    ensures r >= LOW_MEMORY && forall i :: 0 <= i < n && Loads(hs[i]) ==> hs[i].paddr + (hs[i].memsz as int) <= r
    decreases n
  {
    if n == 0 then LOW_MEMORY
    else
      var r := LoadHigh(hs, n - 1);
      var h := hs[n - 1];
      if Loads(h) && h.paddr + (h.memsz as int) > r then h.paddr + (h.memsz as int) else r
  }

  lemma {:induction false} LoadHighUsable(hs: seq<Phdr>, n: nat, p: Partition, cfg: Config)
    requires n <= |hs| && AllFit(hs, p, cfg)
    ensures LoadHigh(hs, n) == LOW_MEMORY || LoadHigh(hs, n) <= cfg.usableEnd
    decreases n
  {
    hide Contains;
    if n > 0 {
      LoadHighUsable(hs, n - 1, p, cfg);
    }
  }

  lemma {:induction false} DeferCountGrows(hs: seq<Phdr>, i: nat, n: nat, cfg: Config)
    requires i <= n <= |hs|
    ensures DeferCount(hs, i, cfg) <= DeferCount(hs, n, cfg)
    decreases n
  {
    hide Defers;
    if i < n {
      DeferCountGrows(hs, i, n - 1, cfg);
    }
  }

  ghost predicate AllAcceptable(hs: seq<Phdr>, n: nat, p: Partition, cfg: Config)
    requires n <= |hs|
  {
    forall i :: 0 <= i < n ==> Acceptable(hs[i], p, cfg)
  }

  /** What is left to keep track of after the first pass. */
  datatype Plan = Plan(hs: seq<Phdr>, loadHigh: nat, total: u32)

  /** The sum of the deferred sizes, in 32-bit arithmetic. */
  function AddDeferred(total: u32, h: Phdr): u32 {
    (AlignUp32(total, DEFER_ALIGN) + (h.filesz as int)) % TWO32
  }

  lemma AddDeferredIs(hs: seq<Phdr>, n: nat, cfg: Config, total: u32)
    requires n < |hs| && Defers(hs[n], cfg)
    requires DeferEnd(hs, n, cfg, 0) + DEFER_ALIGN < TWO32 ==> total == DeferEnd(hs, n, cfg, 0)
    ensures DeferEnd(hs, n + 1, cfg, 0) + DEFER_ALIGN < TWO32
            ==> AddDeferred(total, hs[n]) == DeferEnd(hs, n + 1, cfg, 0)
  {
    hide AlignUp, AlignUp32, Defers;
    if DeferEnd(hs, n + 1, cfg, 0) + DEFER_ALIGN < TWO32 {
      AlignUp32Is(total, DEFER_ALIGN);
    }
  }

  /** State of the first pass after `n` headers; `goal` are the headers as it will leave them. */
  ghost predicate Checked(headers: seq<Phdr>, n: nat, hs: seq<Phdr>, high: nat, total: u32, count: nat, p: Partition,
                          cfg: Config) {
    var goal := AllResolved(headers);
    && n <= |headers| == |hs| && hs[..n] == goal[..n] && hs[n..] == headers[n..]
    && AllAcceptable(headers, n, p, cfg)
    && high == LoadHigh(goal, n) && count == DeferCount(goal, n, cfg) <= DEFER_MAX
    && (DeferEnd(goal, n, cfg, 0) + DEFER_ALIGN < TWO32 ==> total == DeferEnd(goal, n, cfg, 0))
  }

  lemma CheckedStart(headers: seq<Phdr>, p: Partition, cfg: Config)
    ensures Checked(headers, 0, headers, LOW_MEMORY, 0, 0, p, cfg)
  {
  }

  lemma CheckedOther(headers: seq<Phdr>, n: nat, hs: seq<Phdr>, high: nat, total: u32, count: nat, p: Partition,
                     cfg: Config)
    requires n < |headers| && Checked(headers, n, hs, high, total, count, p, cfg) && !Loads(hs[n])
    ensures Checked(headers, n + 1, hs, high, total, count, p, cfg)
  {
    hide Resolve, Overlaps, Fits, AlignUp;
    assert hs[n] == hs[n..][0] == headers[n];
  }

  /** One PT_LOAD header: its address is rewritten and the running values move on. */
  lemma CheckedLoad(headers: seq<Phdr>, n: nat, hs: seq<Phdr>, high: nat, total: u32, count: nat, p: Partition,
                    cfg: Config)
    requires n < |headers| && Checked(headers, n, hs, high, total, count, p, cfg)
    requires Loads(hs[n]) && Acceptable(hs[n], p, cfg) && (Defers(Resolved(hs[n]), cfg) ==> count < DEFER_MAX)
    ensures var h := Resolved(hs[n]);
            var end := h.paddr + (h.memsz as int);
            Checked(headers, n + 1, hs[n := h], if end > high then end else high,
                    if Defers(h, cfg) then AddDeferred(total, h) else total,
                    if Defers(h, cfg) then count + 1 else count, p, cfg)
  {
    hide Resolve, Overlaps, Fits, AlignUp, AddDeferred;
    assert hs[n] == hs[n..][0] == headers[n];
    var goal := AllResolved(headers);
    if Defers(goal[n], cfg) {
      AddDeferredIs(goal, n, cfg, total);
    }
  }

  lemma CheckedStops(headers: seq<Phdr>, n: nat, hs: seq<Phdr>, high: nat, total: u32, count: nat, p: Partition,
                     cfg: Config)
    requires n < |headers| && Checked(headers, n, hs, high, total, count, p, cfg)
    requires !Acceptable(hs[n], p, cfg) || (Defers(Resolved(hs[n]), cfg) && count == DEFER_MAX)
    ensures !AllAcceptable(headers, |headers|, p, cfg) || DeferCount(AllResolved(headers), |headers|, cfg) > DEFER_MAX
  {
    hide Acceptable, Resolve, Overlaps;
    assert hs[n] == hs[n..][0] == headers[n];
    DeferCountGrows(AllResolved(headers), n + 1, |headers|, cfg);
  }

  lemma CheckedAll(headers: seq<Phdr>, hs: seq<Phdr>, high: nat, total: u32, count: nat, p: Partition, cfg: Config)
    requires Checked(headers, |headers|, hs, high, total, count, p, cfg)
    ensures hs == AllResolved(headers) && AllFit(hs, p, cfg) && AllAcceptable(headers, |headers|, p, cfg)
    ensures high == LoadHigh(hs, |headers|) && DeferCount(hs, |headers|, cfg) <= DEFER_MAX
    ensures DeferEnd(hs, |headers|, cfg, 0) + DEFER_ALIGN < TWO32 ==> total == DeferEnd(hs, |headers|, cfg, 0)
  {
    hide Fits, Resolve, Overlaps, DeferEnd, LoadHigh, DeferCount;
    var goal := AllResolved(headers);
    assert hs == hs[..|headers|] == goal[..|headers|] == goal;
  }

  /** Accepts the headers exactly when all segments are acceptable and no more than eight must wait. */
  method CheckLoads(headers: seq<Phdr>, p: Partition, cfg: Config) returns (plan: Option<Plan>)
    ensures plan.Some? <==>
            AllAcceptable(headers, |headers|, p, cfg) && DeferCount(AllResolved(headers), |headers|, cfg) <= 8
    ensures plan.Some? ==>
              && plan.value.hs == AllResolved(headers) && AllFit(plan.value.hs, p, cfg)
              && plan.value.loadHigh == LoadHigh(plan.value.hs, |headers|)
              && (DeferEnd(plan.value.hs, |headers|, cfg, 0) + DEFER_ALIGN < TWO32 ==>
                    plan.value.total == DeferEnd(plan.value.hs, |headers|, cfg, 0))
  {
    hide Checked, AllAcceptable, AllFit, Fits, Overlaps, Resolve, AddDeferred, DeferEnd, LoadHigh, DeferCount;
    var hs, high, total, count := headers, LOW_MEMORY, 0, 0;
    CheckedStart(headers, p, cfg);
    for i := 0 to |headers|
      invariant |hs| == |headers| && 0 <= count <= DEFER_MAX && high >= 0
      invariant Checked(headers, i, hs, high, total, count, p, cfg)
    {
      if hs[i].kind != PT_LOAD {
        CheckedOther(headers, i, hs, high, total, count, p, cfg);
        continue;
      }
      var at := Resolve(hs[i].paddr, hs[i].vaddr);
      if at.None? || !Fits(hs[i].(paddr := at.value), p, cfg) {
        CheckedStops(headers, i, hs, high, total, count, p, cfg);
        return None;
      }
      var h := hs[i].(paddr := at.value);
      if Defers(h, cfg) && count >= DEFER_MAX {
        CheckedStops(headers, i, hs, high, total, count, p, cfg);
        return None;
      }
      CheckedLoad(headers, i, hs, high, total, count, p, cfg);
      hs := hs[i := h];
      if h.paddr + (h.memsz as int) > high {
        high := h.paddr + (h.memsz as int);
      }
      if Defers(h, cfg) {
        total, count := AddDeferred(total, h), count + 1;
      }
    }
    CheckedAll(headers, hs, high, total, count, p, cfg);
    return Some(Plan(hs, high, total));
  }
}
