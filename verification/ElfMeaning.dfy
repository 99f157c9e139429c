/** What loading a kernel comes to, address by address and byte by byte. */
module ElfMeaning {
  import opened Words
  import opened ByteReader
  import opened ElfPlan
  import opened ElfLoad
  import opened ElfBoot

  // ---------- Which address a segment is loaded at ----------

  /**
   * A physical address above 1 MiB is taken as it is. Otherwise the virtual address is, less 3 GiB for a kernel that
   * lives there, and it has to be above 1 MiB then.
   */
  predicate LoadsAt(h: Phdr, a: int) {
    && h.kind == 1 && a >= 0x10_0000
    && if h.paddr >= 0x10_0000 then a == h.paddr
       else a == if h.vaddr >= 0xc000_0000 then h.vaddr - 0xc000_0000 else h.vaddr
  }

  lemma LoadsAtResolved(h: Phdr, a: u32)
    requires h.kind == 1
    ensures LoadsAt(h, a) <==> Resolve(h.paddr, h.vaddr) == Some(a)
    ensures LoadsAt(h, a) ==> Loads(h) && Resolved(h) == h.(paddr := a)
  {
  }

  /** A kernel linked at 3 GiB + 1 MiB without physical addresses goes to 1 MiB; a PT_PHDR header is no segment. */
  lemma UsualKernel()
    ensures LoadsAt(Phdr(1, 0x1000, 0xc010_0000, 0, 0x2000, 0x3000), 0x10_0000)
    ensures forall a: int :: !LoadsAt(Phdr(6, 0x34, 0xc010_0000, 0x10_0000, 0x100, 0x100), a)
  {
  }

  /** A segment is accepted if its memory is usable, and its file bytes fit its memory and are in the partition. */
  predicate CanLoad(h: Phdr, a: u32, p: Partition, cfg: Config) {
    && LoadsAt(h, a) && a < cfg.usableEnd && a + (h.memsz as int) <= cfg.usableEnd && h.filesz <= h.memsz
    && (h.filesz == 0 || h.off + (h.filesz as int) <= 512 * (p.sectors as int))
    && h.off + (h.filesz as int) <= 0x1_0000_0000
  }

  lemma AcceptedIff(h: Phdr, p: Partition, cfg: Config)
    ensures Acceptable(h, p, cfg) <==> h.kind != 1 || exists a: u32 :: CanLoad(h, a, p, cfg)
  {
    ContainsExactly(p, h.off, h.filesz);
    hide Contains;
    if h.kind == 1 {
      match Resolve(h.paddr, h.vaddr)
      case Some(a) =>
        LoadsAtResolved(h, a);
        assert Acceptable(h, p, cfg) ==> CanLoad(h, a, p, cfg);
      case None =>
        forall a: u32 ensures !LoadsAt(h, a) {
          LoadsAtResolved(h, a);
        }
    }
  }

  /** Byte `b` of a loaded segment: from the file as long as that lasts, then 0. */
  lemma SegmentBytes(m: seq<u8>, headers: seq<Phdr>, disk: seq<u8>, p: Partition, cfg: Config, i: nat, a: u32, b: nat)
    requires AllAcceptable(headers, |headers|, p, cfg) && AllLoaded(m, AllResolved(headers), disk, p)
    requires cfg.usableEnd <= |m| && i < |headers| && LoadsAt(headers[i], a) && b < headers[i].memsz
    ensures a + b < |m|
    ensures if b < headers[i].filesz then
              512 * (p.start as int) + headers[i].off + b < |disk|
              && m[a + b] == disk[512 * (p.start as int) + headers[i].off + b]
            else m[a + b] == 0
  {
    var h := headers[i];
    LoadsAtResolved(h, a);
    var r := AllResolved(headers)[i];
    assert r == h.(paddr := a) && Acceptable(h, p, cfg) && Loaded(m, r, disk, p);
    hide AllLoaded, AllAcceptable, Resolve, Contains;
    if b < h.filesz {
      var at := Place(p, h.off);
      assert m[a..a + h.filesz][b] == disk[at..at + h.filesz][b];
    }
  }

  predicate InSegment(h: Phdr, a: int) {
    h.kind == 1 && h.paddr <= a < h.paddr + (h.memsz as int)
  }

  /** Segments that are not empty do not overlap if and only if no address is in two of them. */
  lemma DisjointIff(hs: seq<Phdr>)
    requires forall i :: 0 <= i < |hs| && hs[i].kind == 1 ==> hs[i].memsz > 0
    ensures Disjoint(hs) <==>
            forall a: int, i, j :: 0 <= i < j < |hs| ==> !(InSegment(hs[i], a) && InSegment(hs[j], a))
  {
    if !Disjoint(hs) {
      var i, j :| 0 <= i < j < |hs| && Loads(hs[i]) && Loads(hs[j]) && !Apart(hs[i], hs[j]);
      var a: int := if hs[i].paddr <= hs[j].paddr then hs[j].paddr else hs[i].paddr;
      assert InSegment(hs[i], a) && InSegment(hs[j], a);
    }
  }

  // ---------- Where initrd and deferred copies go ----------

  /** The initrd is placed on the highest page boundary that leaves room for all its sectors. */
  lemma InitrdIsHighest(sectors: u32, loadHigh: nat, cfg: Config)
    requires InitrdPlace(sectors, loadHigh, cfg).Initrd?
    ensures var i := InitrdPlace(sectors, loadHigh, cfg);
            && i.size == 512 * (sectors as int) && i.base % 0x1000 == 0 && 0x10_0000 <= i.base && loadHigh <= i.base
            && i.base + i.size <= cfg.usableEnd < i.base + i.size + 0x1000
  {
    hide AlignDown;
  }

  /** So is the buffer for deferred copies, below the initrd. */
  lemma BufferIsHighest(total: nat, limit: nat, loadHigh: nat)
    requires total > 0 && DeferBase(total, limit, loadHigh).Some?
    ensures var b := DeferBase(total, limit, loadHigh).value;
            b % 0x1000 == 0 && loadHigh <= b && b + total <= limit < b + total + 0x1000
  {
    hide AlignDown;
  }

  /** Each copy begins at the first multiple of 16 behind the one before it. */
  lemma CopiesAreDense(hs: seq<Phdr>, j: nat, cfg: Config, base: nat)
    requires j < |hs|
    ensures var t, before := Temp(hs, j, cfg, base), DeferEnd(hs, j, cfg, base);
            && t % 16 == 0 && before <= t < before + 16
            && DeferEnd(hs, j + 1, cfg, base) == (if Defers(hs[j], cfg) then t + hs[j].filesz else before)
    ensures DeferEnd(hs, 0, cfg, base) == base
  {
    hide AlignUp, Defers;
  }

  /** A segment waits if and only if it would touch the runtime (or one of the two ranges reaches 4 GiB). */
  lemma DefersIff(h: Phdr, cfg: Config)
    ensures Defers(h, cfg) <==>
            && h.kind == 1 && h.memsz > 0 && cfg.runtimeSize > 0
            && (h.paddr + (h.memsz as int) >= 0x1_0000_0000
                || cfg.runtimeBase + (cfg.runtimeSize as int) >= 0x1_0000_0000
                || (h.paddr < cfg.runtimeBase + (cfg.runtimeSize as int)
                    && cfg.runtimeBase < h.paddr + (h.memsz as int)))
  {
    OverlapsExactly(h.paddr, h.memsz, cfg.runtimeBase, cfg.runtimeSize);
    hide Overlaps;
    if h.paddr < cfg.runtimeBase + (cfg.runtimeSize as int) && cfg.runtimeBase < h.paddr + (h.memsz as int)
       && h.memsz > 0 && cfg.runtimeSize > 0 {
      var a: int := if h.paddr <= cfg.runtimeBase then cfg.runtimeBase else h.paddr;
      assert SharedAddress(a, h.paddr, h.memsz, cfg.runtimeBase, cfg.runtimeSize);
    }
  }
}
