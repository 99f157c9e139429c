/** Second pass over the program headers: reading, deferring, and putting deferred segments in place at the end. */
module ElfLoad {
  import opened Words
  import opened ByteReader
  import opened ElfPlan

  // ---------- What a loaded segment looks like ----------

  ghost predicate Blank(m: seq<u8>, lo: int, hi: int) {
    forall a :: lo <= a < hi && 0 <= a < |m| ==> m[a] == 0
  }

  /** The segment's memory is its file bytes, then zeros. */
  ghost predicate Loaded(m: seq<u8>, h: Phdr, disk: seq<u8>, p: Partition) {
    && Holds(m, h.paddr, disk, Place(p, h.off), h.filesz)
    && Blank(m, h.paddr + (h.filesz as int), h.paddr + (h.memsz as int))
  }

  /** The file bytes of header `j` wait at their temporary home. */
  ghost predicate Waits(m: seq<u8>, hs: seq<Phdr>, j: nat, cfg: Config, base: nat, disk: seq<u8>, p: Partition)
    requires j < |hs|
  {
    Holds(m, Temp(hs, j, cfg, base), disk, Place(p, hs[j].off), hs[j].filesz)
  }

  lemma HoldsKept(m: seq<u8>, m': seq<u8>, lo: int, hi: int, dest: nat, disk: seq<u8>, at: nat, len: nat)
    requires Kept(m, m', lo, hi, true) && Holds(m, dest, disk, at, len)
    requires len > 0 ==> LOW_MEMORY <= dest && (dest + len <= lo || hi <= dest)
    ensures Holds(m', dest, disk, at, len)
  {
    if len > 0 {
      assert m'[dest..dest + len] == m[dest..dest + len];
    }
  }

  lemma LoadedKept(m: seq<u8>, m': seq<u8>, lo: int, hi: int, h: Phdr, disk: seq<u8>, p: Partition)
    requires Kept(m, m', lo, hi, true) && Loaded(m, h, disk, p) && LOW_MEMORY <= h.paddr && h.filesz <= h.memsz
    requires h.paddr + (h.memsz as int) <= lo || hi <= h.paddr
    ensures Loaded(m', h, disk, p)
  {
    hide Holds, Place;
    HoldsKept(m, m', lo, hi, h.paddr, disk, Place(p, h.off), h.filesz);
  }

  lemma ZeroTail(m: seq<u8>, h: Phdr, disk: seq<u8>, p: Partition)
    requires h.filesz <= h.memsz && h.paddr + (h.memsz as int) <= |m|
    requires Holds(m, h.paddr, disk, Place(p, h.off), h.filesz)
    ensures var m' := Splice(m, h.paddr + (h.filesz as int), Zeros(h.memsz - h.filesz));
            Loaded(m', h, disk, p) && Kept(m, m', h.paddr, h.paddr + (h.memsz as int), true)
  {
    var lo := h.paddr + (h.filesz as int);
    var m' := Splice(m, lo, Zeros(h.memsz - h.filesz));
    SpliceKeeps(m, lo, Zeros(h.memsz - h.filesz));
    assert m'[h.paddr..lo] == m[h.paddr..lo];
  }

  /** Moving the file bytes home and clearing the tail. */
  lemma MovedHome(m: seq<u8>, h: Phdr, temp: nat, disk: seq<u8>, p: Partition)
    requires h.filesz <= h.memsz && h.paddr + (h.memsz as int) <= |m| && temp + h.filesz <= |m|
    requires Holds(m, temp, disk, Place(p, h.off), h.filesz)
    ensures var m1 := Splice(m, h.paddr, m[temp..temp + h.filesz]);
            Holds(m1, h.paddr, disk, Place(p, h.off), h.filesz)
            && Kept(m, m1, h.paddr, h.paddr + (h.memsz as int), true)
  {
    var bytes := m[temp..temp + h.filesz];
    SpliceKeeps(m, h.paddr, bytes);
  }

  lemma KeptTwice(m: seq<u8>, m': seq<u8>, m'': seq<u8>, lo: int, hi: int)
    requires Kept(m, m', lo, hi, true) && Kept(m', m'', lo, hi, true)
    ensures Kept(m, m'', lo, hi, true)
  {
  }

  lemma KeptWider(m: seq<u8>, m': seq<u8>, lo: int, hi: int, lo': int, hi': int, bounced: bool)
    requires Kept(m, m', lo, hi, bounced) && lo' <= lo && hi <= hi'
    ensures Kept(m, m', lo', hi', true) && |m'| == |m|
  {
  }

  // ---------- One segment ----------

  method LoadDirect(m: Machine, p: Partition, h: Phdr, cfg: Config) returns (ok: bool)
    requires WellPlaced(p) && Fits(h, p, cfg) && cfg.usableEnd <= |m.ram|
    modifies m
    ensures |m.ram| == |old(m.ram)| && old(m.log) <= m.log && Inside(m.log, |old(m.log)|, p)
    ensures Kept(old(m.ram), m.ram, h.paddr, h.paddr + (h.memsz as int), true)
    ensures ok ==> Loaded(m.ram, h, m.disk, p)
    ensures m.Healthy(p) ==> ok
  {
    hide Holds, Kept, Inside, Contains, Splice, Place, UsesBounce, Loaded, WellPlaced;
    var lo, hi: int := h.paddr, h.paddr + (h.memsz as int);
    ok := m.ReadBytes(p, h.off, h.paddr, h.filesz);
    KeptWider(old(m.ram), m.ram, lo, lo + h.filesz, lo, hi, UsesBounce(h.off, h.paddr, h.filesz));
    if ok {
      ghost var before := m.ram;
      ZeroTail(m.ram, h, m.disk, p);
      m.Zero(h.paddr + (h.filesz as int), h.memsz - h.filesz);
      KeptTwice(old(m.ram), before, m.ram, lo, hi);
    }
  }

  datatype Deferred = Deferred(temp: nat, h: Phdr)

  /** linux_apply_deferred_segments for one entry. */
  method ApplyOne(m: Machine, d: Deferred, ghost p: Partition, cfg: Config)
    requires d.h.filesz <= d.h.memsz && d.h.paddr + (d.h.memsz as int) <= |m.ram| && d.temp + d.h.filesz <= |m.ram|
    requires d.h.filesz > 0 ==> d.h.paddr <= d.temp
    requires Holds(m.ram, d.temp, m.disk, Place(p, d.h.off), d.h.filesz)
    modifies m`ram
    ensures Loaded(m.ram, d.h, m.disk, p) && |m.ram| == |old(m.ram)|
    ensures Kept(old(m.ram), m.ram, d.h.paddr, d.h.paddr + (d.h.memsz as int), true)
  {
    hide Holds, Kept, Splice, Place, Loaded;
    var lo: int, hi := d.h.paddr, d.h.paddr + (d.h.memsz as int);
    MovedHome(m.ram, d.h, d.temp, m.disk, p);
    m.Copy(d.h.paddr, d.temp, d.h.filesz);
    ghost var before := m.ram;
    ZeroTail(m.ram, d.h, m.disk, p);
    m.Zero(d.h.paddr + (d.h.filesz as int), d.h.memsz - d.h.filesz);
    KeptTwice(old(m.ram), before, m.ram, lo, hi);
  }

  // ---------- All segments ----------

  predicate Writes(h: Phdr, a: int) {
    Loads(h) && h.paddr <= a < h.paddr + (h.memsz as int)
  }

  /** Address `a` belongs to a segment among the first `n` that is loaded straight into place. */
  ghost predicate DirectCover(hs: seq<Phdr>, n: nat, cfg: Config, a: int)
    requires n <= |hs|
  {
    exists j :: 0 <= j < n && Writes(hs[j], a) && !Defers(hs[j], cfg)
  }

  /** The buffer for deferred copies starts above every segment, unless there is nothing to copy. */
  predicate Room(hs: seq<Phdr>, cfg: Config, base: nat) {
    LoadHigh(hs, |hs|) <= base || (base == 0 && DeferEnd(hs, |hs|, cfg, 0) == 0)
  }

  lemma TempAbove(hs: seq<Phdr>, j: nat, cfg: Config, base: nat)
    requires j < |hs| && Defers(hs[j], cfg) && Room(hs, cfg, base) && hs[j].filesz > 0
    ensures LOW_MEMORY <= LoadHigh(hs, |hs|) <= base <= Temp(hs, j, cfg, base)
  {
    hide Defers, DeferEnd, AlignUp, LoadHigh, Temp;
    TempInBuffer(hs, j, cfg, base);
  }

  ghost predicate AllWait(m: seq<u8>, hs: seq<Phdr>, n: nat, cfg: Config, base: nat, disk: seq<u8>, p: Partition)
    requires n <= |hs|
  {
    forall j :: 0 <= j < n && Defers(hs[j], cfg) ==> Waits(m, hs, j, cfg, base, disk, p)
  }

  ghost predicate DirectLoaded(m: seq<u8>, hs: seq<Phdr>, n: nat, cfg: Config, disk: seq<u8>, p: Partition)
    requires n <= |hs|
  {
    forall j :: 0 <= j < n && Loads(hs[j]) && !Defers(hs[j], cfg) ==> Loaded(m, hs[j], disk, p)
  }

  /** Address `a` belongs to the temporary home of header `j`. */
  predicate InCopy(hs: seq<Phdr>, j: nat, cfg: Config, base: nat, a: int)
    requires j < |hs|
  {
    Defers(hs[j], cfg) && Temp(hs, j, cfg, base) <= a < Temp(hs, j, cfg, base) + hs[j].filesz
  }

  ghost predicate Copied(hs: seq<Phdr>, n: nat, cfg: Config, base: nat, a: int)
    requires n <= |hs|
  {
    exists j :: 0 <= j < n && InCopy(hs, j, cfg, base, a)
  }

  /** Nothing else changes: in particular a deferred segment's destination is left alone. */
  ghost predicate Untouched(m0: seq<u8>, m: seq<u8>, hs: seq<Phdr>, n: nat, cfg: Config, base: nat)
    requires n <= |hs|
  {
    && |m| == |m0|
    && forall a :: 0 <= a < |m0| && !InBounce(a) && !Copied(hs, n, cfg, base, a) && !DirectCover(hs, n, cfg, a)
         ==> m[a] == m0[a]
  }

  // Storing segment `n` straight into place

  lemma WaitsSurvive(m: seq<u8>, m': seq<u8>, hs: seq<Phdr>, n: nat, lo: int, hi: int, cfg: Config, base: nat,
                     disk: seq<u8>, p: Partition)
    requires n <= |hs| && AllWait(m, hs, n, cfg, base, disk, p) && Kept(m, m', lo, hi, true) && Room(hs, cfg, base)
    requires hi <= LoadHigh(hs, |hs|)
    ensures AllWait(m', hs, n, cfg, base, disk, p)
  {
    hide Kept, Holds, LoadHigh, Room, Defers, Temp, Place;
    forall j | 0 <= j < n && Defers(hs[j], cfg) ensures Waits(m', hs, j, cfg, base, disk, p) {
      if hs[j].filesz > 0 {
        TempAbove(hs, j, cfg, base);
      }
      assert Waits(m, hs, j, cfg, base, disk, p);
      HoldsKept(m, m', lo, hi, Temp(hs, j, cfg, base), disk, Place(p, hs[j].off), hs[j].filesz);
    }
  }

  lemma DirectStep(m: seq<u8>, m': seq<u8>, hs: seq<Phdr>, n: nat, cfg: Config, disk: seq<u8>, p: Partition)
    requires n < |hs| && Loads(hs[n]) && AllFit(hs, p, cfg) && Disjoint(hs)
    requires DirectLoaded(m, hs, n, cfg, disk, p) && Loaded(m', hs[n], disk, p)
    requires Kept(m, m', hs[n].paddr, hs[n].paddr + (hs[n].memsz as int), true)
    ensures DirectLoaded(m', hs, n + 1, cfg, disk, p)
  {
    hide Kept, Loaded, Defers, Contains;
    forall j | 0 <= j < n && Loads(hs[j]) && !Defers(hs[j], cfg) ensures Loaded(m', hs[j], disk, p) {
      assert Apart(hs[j], hs[n]) && Fits(hs[j], p, cfg);
      LoadedKept(m, m', hs[n].paddr, hs[n].paddr + (hs[n].memsz as int), hs[j], disk, p);
    }
  }

  lemma UntouchedStep(m0: seq<u8>, m: seq<u8>, m': seq<u8>, hs: seq<Phdr>, n: nat, cfg: Config, base: nat)
    requires n < |hs| && Loads(hs[n]) && !Defers(hs[n], cfg) && Untouched(m0, m, hs, n, cfg, base)
    requires Kept(m, m', hs[n].paddr, hs[n].paddr + (hs[n].memsz as int), true)
    ensures Untouched(m0, m', hs, n + 1, cfg, base)
  {
    hide InCopy, Defers;
    forall a | 0 <= a < |m0| && !InBounce(a) && !Copied(hs, n + 1, cfg, base, a) && !DirectCover(hs, n + 1, cfg, a)
      ensures m'[a] == m0[a]
    {
      assert !Writes(hs[n], a);
      CoverGrows(hs, n, n + 1, cfg, base, a);
    }
  }

  lemma CoverGrows(hs: seq<Phdr>, n: nat, n': nat, cfg: Config, base: nat, a: int)
    requires n <= n' <= |hs|
    ensures DirectCover(hs, n, cfg, a) ==> DirectCover(hs, n', cfg, a)
    ensures Copied(hs, n, cfg, base, a) ==> Copied(hs, n', cfg, base, a)
  {
    hide InCopy, Defers;
  }

  // Parking segment `n` in the buffer

  lemma ParkedStep(m: seq<u8>, m': seq<u8>, hs: seq<Phdr>, n: nat, cfg: Config, base: nat, disk: seq<u8>, p: Partition)
    requires n < |hs| && Defers(hs[n], cfg) && Room(hs, cfg, base)
    requires AllWait(m, hs, n, cfg, base, disk, p) && Waits(m', hs, n, cfg, base, disk, p)
    requires Kept(m, m', Temp(hs, n, cfg, base), Temp(hs, n, cfg, base) + hs[n].filesz, true)
    ensures AllWait(m', hs, n + 1, cfg, base, disk, p)
  {
    hide Kept, Holds, LoadHigh, Room, Defers, Temp, Place, DeferEnd;
    forall j | 0 <= j < n && Defers(hs[j], cfg) ensures Waits(m', hs, j, cfg, base, disk, p) {
      if hs[j].filesz > 0 {
        TempAbove(hs, j, cfg, base);
      }
      TempsApart(hs, j, n, cfg, base);
      assert Waits(m, hs, j, cfg, base, disk, p);
      HoldsKept(m, m', Temp(hs, n, cfg, base), Temp(hs, n, cfg, base) + hs[n].filesz,
                Temp(hs, j, cfg, base), disk, Place(p, hs[j].off), hs[j].filesz);
    }
  }

  /** Writing to the buffer, or nothing at all, leaves every segment alone. */
  lemma BufferMissesSegments(hs: seq<Phdr>, j: nat, n: nat, cfg: Config, base: nat)
    requires j < |hs| && n < |hs| && Loads(hs[j]) && Defers(hs[n], cfg) && Room(hs, cfg, base)
             && LOW_MEMORY <= hs[j].paddr
    ensures hs[j].paddr + (hs[j].memsz as int) <= Temp(hs, n, cfg, base)
            || Temp(hs, n, cfg, base) + hs[n].filesz <= hs[j].paddr
  {
    hide AlignUp, Defers;
    if LoadHigh(hs, |hs|) > base {
      TempInBuffer(hs, n, cfg, 0);
    }
  }

  lemma DirectSurvives(m: seq<u8>, m': seq<u8>, hs: seq<Phdr>, n: nat, cfg: Config, base: nat, disk: seq<u8>,
                       p: Partition)
    requires n < |hs| && Defers(hs[n], cfg) && Room(hs, cfg, base) && AllFit(hs, p, cfg)
    requires DirectLoaded(m, hs, n, cfg, disk, p)
    requires Kept(m, m', Temp(hs, n, cfg, base), Temp(hs, n, cfg, base) + hs[n].filesz, true)
    ensures DirectLoaded(m', hs, n + 1, cfg, disk, p)
  {
    hide Kept, Loaded, Defers, Contains, Temp, Room;
    forall j | 0 <= j < n && Loads(hs[j]) && !Defers(hs[j], cfg) ensures Loaded(m', hs[j], disk, p) {
      assert Fits(hs[j], p, cfg);
      BufferMissesSegments(hs, j, n, cfg, base);
      LoadedKept(m, m', Temp(hs, n, cfg, base), Temp(hs, n, cfg, base) + hs[n].filesz, hs[j], disk, p);
    }
  }

  lemma UntouchedParked(m0: seq<u8>, m: seq<u8>, m': seq<u8>, hs: seq<Phdr>, n: nat, cfg: Config, base: nat)
    requires n < |hs| && Defers(hs[n], cfg) && Untouched(m0, m, hs, n, cfg, base)
    requires Kept(m, m', Temp(hs, n, cfg, base), Temp(hs, n, cfg, base) + hs[n].filesz, true)
    ensures Untouched(m0, m', hs, n + 1, cfg, base)
  {
    hide Defers, Temp;
    forall a | 0 <= a < |m0| && !InBounce(a) && !Copied(hs, n + 1, cfg, base, a) && !DirectCover(hs, n + 1, cfg, a)
      ensures m'[a] == m0[a]
    {
      assert !InCopy(hs, n, cfg, base, a);
      CoverGrows(hs, n, n + 1, cfg, base, a);
    }
  }

  // ---------- The loop ----------

  /** The state after `n` headers. */
  ghost predicate Progress(m0: seq<u8>, m: seq<u8>, hs: seq<Phdr>, n: nat, cfg: Config, base: nat, disk: seq<u8>,
                           p: Partition)
    requires n <= |hs|
  {
    && AllWait(m, hs, n, cfg, base, disk, p)
    && (Disjoint(hs) ==> DirectLoaded(m, hs, n, cfg, disk, p))
    && Untouched(m0, m, hs, n, cfg, base)
  }

  lemma ProgressStart(m: seq<u8>, hs: seq<Phdr>, cfg: Config, base: nat, disk: seq<u8>, p: Partition)
    ensures Progress(m, m, hs, 0, cfg, base, disk, p)
  {
  }

  lemma ProgressSkip(m0: seq<u8>, m: seq<u8>, hs: seq<Phdr>, n: nat, cfg: Config, base: nat, disk: seq<u8>,
                     p: Partition)
    requires n < |hs| && Progress(m0, m, hs, n, cfg, base, disk, p) && !Loads(hs[n])
    ensures Progress(m0, m, hs, n + 1, cfg, base, disk, p)
    ensures DeferEnd(hs, n + 1, cfg, base) == DeferEnd(hs, n, cfg, base)
  {
    UntouchedMore(m0, m, hs, n, n + 1, cfg, base);
    hide Overlaps, Loaded, Waits, Untouched;
  }

  lemma ProgressDirect(m0: seq<u8>, m: seq<u8>, m': seq<u8>, hs: seq<Phdr>, n: nat, cfg: Config, base: nat,
                       disk: seq<u8>, p: Partition)
    requires n < |hs| && Loads(hs[n]) && !Defers(hs[n], cfg) && Progress(m0, m, hs, n, cfg, base, disk, p)
    requires AllFit(hs, p, cfg) && Room(hs, cfg, base)
    requires Kept(m, m', hs[n].paddr, hs[n].paddr + (hs[n].memsz as int), true) && Loaded(m', hs[n], disk, p)
    ensures Progress(m0, m', hs, n + 1, cfg, base, disk, p)
            && DeferEnd(hs, n + 1, cfg, base) == DeferEnd(hs, n, cfg, base)
  {
    hide Defers, Kept, Loaded, Waits, Untouched, Room, DirectLoaded, AllFit, Disjoint;
    assert hs[n].paddr + (hs[n].memsz as int) <= LoadHigh(hs, |hs|);
    WaitsSurvive(m, m', hs, n, hs[n].paddr, hs[n].paddr + (hs[n].memsz as int), cfg, base, disk, p);
    if Disjoint(hs) {
      DirectStep(m, m', hs, n, cfg, disk, p);
    }
    UntouchedStep(m0, m, m', hs, n, cfg, base);
  }

  lemma ProgressParked(m0: seq<u8>, m: seq<u8>, m': seq<u8>, hs: seq<Phdr>, n: nat, cfg: Config, base: nat,
                       disk: seq<u8>, p: Partition)
    requires n < |hs| && Defers(hs[n], cfg) && Progress(m0, m, hs, n, cfg, base, disk, p)
    requires AllFit(hs, p, cfg) && Room(hs, cfg, base)
    requires Waits(m', hs, n, cfg, base, disk, p)
    requires Kept(m, m', Temp(hs, n, cfg, base), Temp(hs, n, cfg, base) + hs[n].filesz, true)
    ensures Progress(m0, m', hs, n + 1, cfg, base, disk, p)
    ensures DeferEnd(hs, n + 1, cfg, base) == Temp(hs, n, cfg, base) + hs[n].filesz
  {
    hide Defers, Kept, Loaded, Waits, Untouched, Room, DirectLoaded, AllFit, Disjoint, AllWait, AlignUp;
    ParkedStep(m, m', hs, n, cfg, base, disk, p);
    if Disjoint(hs) {
      DirectSurvives(m, m', hs, n, cfg, base, disk, p);
    }
    UntouchedParked(m0, m, m', hs, n, cfg, base);
  }

  lemma UntouchedMore(m0: seq<u8>, m: seq<u8>, hs: seq<Phdr>, n: nat, n': nat, cfg: Config, base: nat)
    requires n <= n' <= |hs| && Untouched(m0, m, hs, n, cfg, base)
    ensures Untouched(m0, m, hs, n', cfg, base) && |m| == |m0|
  {
    hide Copied, DirectCover;
    forall a | 0 <= a < |m0| && !InBounce(a) && !Copied(hs, n', cfg, base, a) && !DirectCover(hs, n', cfg, a)
      ensures m[a] == m0[a]
    {
      CoverGrows(hs, n, n', cfg, base, a);
    }
  }

  lemma TempAvoidsBounce(hs: seq<Phdr>, n: nat, cfg: Config, base: nat)
    requires n < |hs| && Defers(hs[n], cfg) && Room(hs, cfg, base)
    ensures AvoidsBounce(Temp(hs, n, cfg, base), hs[n].filesz)
    ensures Temp(hs, n, cfg, base) + hs[n].filesz == DeferEnd(hs, n + 1, cfg, base) <= DeferEnd(hs, |hs|, cfg, base)
  {
    hide AlignUp, Defers;
    TempInBuffer(hs, n, cfg, base);
    if LoadHigh(hs, |hs|) > base {
      TempInBuffer(hs, n, cfg, 0);
    }
  }

  /** The entries of the deferred table are the headers that wait, in order. */
  ghost predicate Listed(table: seq<Deferred>, idx: seq<nat>, hs: seq<Phdr>, n: nat, cfg: Config, base: nat)
    requires n <= |hs|
  {
    && |table| == |idx| == DeferCount(hs, n, cfg)
    && (forall k :: 0 <= k < |idx| ==>
          idx[k] < n && Defers(hs[idx[k]], cfg) && table[k] == Deferred(Temp(hs, idx[k], cfg, base), hs[idx[k]]))
    && (forall k, l :: 0 <= k < l < |idx| ==> idx[k] < idx[l])
    && (forall j :: 0 <= j < n && Defers(hs[j], cfg) ==> j in idx)
  }

  lemma ListedSkip(table: seq<Deferred>, idx: seq<nat>, hs: seq<Phdr>, n: nat, cfg: Config, base: nat)
    requires n < |hs| && Listed(table, idx, hs, n, cfg, base) && !Defers(hs[n], cfg)
    ensures Listed(table, idx, hs, n + 1, cfg, base)
  {
    hide Defers, Temp;
  }

  lemma ListedAdd(table: seq<Deferred>, idx: seq<nat>, hs: seq<Phdr>, n: nat, cfg: Config, base: nat)
    requires n < |hs| && Listed(table, idx, hs, n, cfg, base) && Defers(hs[n], cfg)
    ensures Listed(table + [Deferred(Temp(hs, n, cfg, base), hs[n])], idx + [n], hs, n + 1, cfg, base)
  {
    hide Defers, Temp;
    forall j | 0 <= j < n + 1 && Defers(hs[j], cfg) ensures j in idx + [n] {
      if j < n {
        assert j in idx;
      }
    }
  }

  /** One PT_LOAD header of the second pass. */
  method LoadOne(m: Machine, p: Partition, hs: seq<Phdr>, n: nat, cfg: Config, base: nat, cursor: nat,
                 ghost m0: seq<u8>)
    returns (ok: bool, cursor': nat)
    requires WellPlaced(p) && AllFit(hs, p, cfg) && Room(hs, cfg, base)
    requires cfg.usableEnd <= |m.ram| && LOW_MEMORY <= |m.ram| && DeferEnd(hs, |hs|, cfg, base) <= |m.ram|
    requires n < |hs| && Loads(hs[n]) && cursor == DeferEnd(hs, n, cfg, base)
    requires Progress(m0, m.ram, hs, n, cfg, base, m.disk, p)
    modifies m
    ensures |m.ram| == |old(m.ram)| && old(m.log) <= m.log && Inside(m.log, |old(m.log)|, p)
    ensures cursor' == DeferEnd(hs, n + 1, cfg, base)
    ensures ok ==> Progress(m0, m.ram, hs, n + 1, cfg, base, m.disk, p)
    ensures Untouched(m0, m.ram, hs, n + 1, cfg, base)
    ensures m.Healthy(p) ==> ok
  {
    hide Holds, Kept, Inside, Contains, Place, UsesBounce, AvoidsBounce, Loaded, WellPlaced, Progress, Untouched,
      Overlaps, DeferEnd, Room, AlignUp;
    var h := hs[n];
    assert Fits(h, p, cfg);
    cursor' := cursor;
    ghost var before := m.ram;
    ProgressMeans(m0, m.ram, hs, n, cfg, base, m.disk, p);
    if Defers(h, cfg) {
      var temp := AlignUp(cursor, DEFER_ALIGN);
      cursor' := temp + h.filesz;
      TempAvoidsBounce(hs, n, cfg, base);
      ok := m.ReadBytes(p, h.off, temp, h.filesz);
      KeptWider(before, m.ram, temp, cursor', temp, cursor', UsesBounce(h.off, temp, h.filesz));
      if ok {
        assert Waits(m.ram, hs, n, cfg, base, m.disk, p);
        ProgressParked(m0, before, m.ram, hs, n, cfg, base, m.disk, p);
      }
      DeferEndOrder(hs, n, cfg, base);
      UntouchedParked(m0, before, m.ram, hs, n, cfg, base);
    } else {
      ok := LoadDirect(m, p, h, cfg);
      DeferEndSame(hs, n, cfg, base);
      if ok {
        ProgressDirect(m0, before, m.ram, hs, n, cfg, base, m.disk, p);
      }
      UntouchedStep(m0, before, m.ram, hs, n, cfg, base);
    }
  }

  lemma DeferEndOrder(hs: seq<Phdr>, n: nat, cfg: Config, base: nat)
    requires n < |hs| && Defers(hs[n], cfg)
    ensures base <= DeferEnd(hs, n, cfg, base) <= Temp(hs, n, cfg, base)
    ensures DeferEnd(hs, n + 1, cfg, base) == Temp(hs, n, cfg, base) + hs[n].filesz
  {
    hide AlignUp;
  }

  lemma DeferEndSame(hs: seq<Phdr>, n: nat, cfg: Config, base: nat)
    requires n < |hs| && !Defers(hs[n], cfg)
    ensures DeferEnd(hs, n + 1, cfg, base) == DeferEnd(hs, n, cfg, base)
  {
  }

  lemma ProgressMeans(m0: seq<u8>, m: seq<u8>, hs: seq<Phdr>, n: nat, cfg: Config, base: nat, disk: seq<u8>,
                      p: Partition)
    requires n <= |hs| && Progress(m0, m, hs, n, cfg, base, disk, p)
    ensures Untouched(m0, m, hs, n, cfg, base) && |m| == |m0|
  {
  }

  /** The second pass. */
  method LoadSegments(m: Machine, p: Partition, hs: seq<Phdr>, cfg: Config, base: nat)
    returns (ok: bool, table: seq<Deferred>, ghost idx: seq<nat>)
    requires WellPlaced(p) && AllFit(hs, p, cfg) && Room(hs, cfg, base)
    requires cfg.usableEnd <= |m.ram| && LOW_MEMORY <= |m.ram| && DeferEnd(hs, |hs|, cfg, base) <= |m.ram|
    modifies m
    ensures |m.ram| == |old(m.ram)| && old(m.log) <= m.log && Inside(m.log, |old(m.log)|, p)
    ensures ok ==> Progress(old(m.ram), m.ram, hs, |hs|, cfg, base, m.disk, p)
                   && Listed(table, idx, hs, |hs|, cfg, base)
    ensures Untouched(old(m.ram), m.ram, hs, |hs|, cfg, base)
    ensures m.Healthy(p) ==> ok
  {
    hide Inside, WellPlaced, Progress, Untouched, Overlaps, DeferEnd, Room, AllFit, Listed, AlignUp, Defers;
    table, idx := [], [];
    var cursor := base;
    ProgressStart(m.ram, hs, cfg, base, m.disk, p);
    InsideStart(m.log, p);
    ListedStart(hs, cfg, base);
    for i := 0 to |hs|
      invariant |m.ram| == |old(m.ram)| && old(m.log) <= m.log && Inside(m.log, |old(m.log)|, p)
      invariant cursor == DeferEnd(hs, i, cfg, base)
      invariant Progress(old(m.ram), m.ram, hs, i, cfg, base, m.disk, p) && Listed(table, idx, hs, i, cfg, base)
    {
      if hs[i].kind != PT_LOAD {
        ProgressSkip(old(m.ram), m.ram, hs, i, cfg, base, m.disk, p);
        NotLoadedNotDeferred(hs[i], cfg);
        ListedSkip(table, idx, hs, i, cfg, base);
        continue;
      }
      ghost var requests := m.log;
      var temp := AlignUp(cursor, DEFER_ALIGN);
      ok, cursor := LoadOne(m, p, hs, i, cfg, base, cursor, old(m.ram));
      InsideJoin(old(m.log), requests, m.log, p);
      if !ok {
        UntouchedMore(old(m.ram), m.ram, hs, i + 1, |hs|, cfg, base);
        return;
      }
      if Defers(hs[i], cfg) {
        ListedAdd(table, idx, hs, i, cfg, base);
        table, idx := table + [Deferred(temp, hs[i])], idx + [i];
      } else {
        ListedSkip(table, idx, hs, i, cfg, base);
      }
    }
    ok := true;
    ProgressMeans(old(m.ram), m.ram, hs, |hs|, cfg, base, m.disk, p);
  }

  lemma ListedStart(hs: seq<Phdr>, cfg: Config, base: nat)
    ensures Listed([], [], hs, 0, cfg, base) && DeferEnd(hs, 0, cfg, base) == base
  {
  }

  lemma NotLoadedNotDeferred(h: Phdr, cfg: Config)
    requires !Loads(h)
    ensures !Defers(h, cfg)
  {
  }
}
