/** Reading bytes of a partition through a drive that only delivers whole sectors. */
module ByteReader {
  import opened Words

  const SECTOR := 512
  const BOUNCE := 0x8_0000
  const LOW_MEMORY := 0x10_0000
  const MAX_DIRECT_SECTORS := 2048

  datatype Partition = Partition(start: u32, sectors: u32)

  /** The partition lies on a drive whose sectors have 32-bit numbers. */
  predicate WellPlaced(p: Partition) {
    p.start + (p.sectors as int) <= TWO32
  }

  predicate Contains(p: Partition, offset: u32, len: u32) {
    if len == 0 then true
    else
      var end := (offset + (len as int) - 1) % TWO32;
      end >= offset && end / SECTOR < p.sectors
  }

  /** The 32-bit test is exact: it accepts just the byte ranges inside the partition and below 4 GiB. */
  lemma ContainsExactly(p: Partition, offset: u32, len: u32)
    ensures Contains(p, offset, len) <==>
            len == 0 || (offset + (len as int) <= TWO32 && offset + (len as int) <= SECTOR * (p.sectors as int))
  {
    var end: int := offset + (len as int) - 1;
    if len != 0 && end >= TWO32 {
      DivModUnique(end, TWO32, 1, end - TWO32);
    }
  }

  function Splice(m: seq<u8>, at: nat, bytes: seq<u8>): (r: seq<u8>)
    requires at + |bytes| <= |m|
    ensures |r| == |m|
  {
    m[..at] + bytes + m[at + |bytes|..]
  }

  lemma SpliceAt(m: seq<u8>, at: nat, bytes: seq<u8>, a: nat)
    requires at + |bytes| <= |m| && a < |m|
    ensures Splice(m, at, bytes)[a] == if at <= a < at + |bytes| then bytes[a - at] else m[a]
  {
  }

  predicate InBounce(a: int) {
    0x8_0000 <= a < 0x8_0200
  }

  /** Only [lo, hi) and, if it was used, the bounce sector may differ. */
  ghost predicate Kept(m: seq<u8>, m': seq<u8>, lo: int, hi: int, bounced: bool) {
    |m'| == |m| && forall a :: 0 <= a < |m| && !(lo <= a < hi) && !(bounced && InBounce(a)) ==> m'[a] == m[a]
  }

  lemma SpliceKeeps(m: seq<u8>, at: nat, bytes: seq<u8>)
    requires at + |bytes| <= |m|
    ensures Kept(m, Splice(m, at, bytes), at, at + |bytes|, false)
    ensures Splice(m, at, bytes)[at..at + |bytes|] == bytes
  {
  }

  /** The bounce sector is used unless offset, destination and length are all whole sectors. */
  predicate UsesBounce(offset: nat, dest: nat, len: nat) {
    !(offset % 512 == 0 && dest % 512 == 0 && len % 512 == 0)
  }

  predicate AvoidsBounce(dest: nat, len: nat) {
    dest + len <= BOUNCE || BOUNCE + SECTOR <= dest
  }

  /** All requests from the n-th on stay inside the partition, and none is for more than 2048 sectors. */
  ghost predicate Inside(log: seq<(nat, nat)>, from: nat, p: Partition) {
    forall i :: from <= i < |log| ==>
                  && p.start as int <= log[i].0 && log[i].0 + log[i].1 <= p.start + (p.sectors as int)
                  && 1 <= log[i].1 <= 2048
  }

  /** Where a byte of the partition is on the disk. */
  function Place(p: Partition, offset: nat): nat {
    512 * (p.start as int) + offset
  }

  /** The bytes read are in place. */
  ghost predicate Holds(m: seq<u8>, dest: nat, disk: seq<u8>, at: nat, len: nat) {
    len > 0 ==> dest + len <= |m| && at + len <= |disk| && m[dest..dest + len] == disk[at..at + len]
  }

  lemma HoldsJoin(m: seq<u8>, m': seq<u8>, dest: nat, disk: seq<u8>, at: nat, done: nat, chunk: nat, bounced: bool)
    requires dest + done + chunk <= |m|
    requires Holds(m, dest, disk, at, done) && Holds(m', dest + done, disk, at + done, chunk)
    requires Kept(m, m', dest + done, dest + done + chunk, bounced) && (bounced ==> AvoidsBounce(dest, done))
    ensures Holds(m', dest, disk, at, done + chunk)
  {
    if done > 0 && chunk > 0 {
      assert m'[dest..dest + (done + chunk)] == m'[dest..dest + done] + m'[dest + done..dest + done + chunk];
      assert m'[dest..dest + done] == m[dest..dest + done];
      assert disk[at..at + (done + chunk)] == disk[at..at + done] + disk[at + done..at + done + chunk];
    } else if chunk == 0 {
      if done > 0 {
        assert m'[dest..dest + done] == m[dest..dest + done];
      }
    }
  }

  lemma KeptJoin(m: seq<u8>, m': seq<u8>, m'': seq<u8>, lo: int, mid: int, hi: int, bounced: bool, again: bool)
    requires lo <= mid <= hi && Kept(m, m', lo, mid, bounced) && Kept(m', m'', mid, hi, again) && (again ==> bounced)
    ensures Kept(m, m'', lo, hi, bounced)
  {
  }

  /** A whole-sector chunk lands as the disk has it. */
  lemma DirectChunk(m: seq<u8>, dest: nat, disk: seq<u8>, p: Partition, offset: nat, count: nat)
    requires offset % SECTOR == 0 && dest + SECTOR * count <= |m|
    requires SECTOR * (p.start + offset / SECTOR + count) <= |disk|
    ensures var lba := p.start + offset / SECTOR;
            var m' := Splice(m, dest, disk[SECTOR * lba..SECTOR * (lba + count)]);
            Holds(m', dest, disk, Place(p, offset), SECTOR * count) && Kept(m, m', dest, dest + SECTOR * count, false)
  {
    var lba := p.start + offset / SECTOR;
    var bytes := disk[SECTOR * lba..SECTOR * (lba + count)];
    SpliceKeeps(m, dest, bytes);
    assert SECTOR * lba == Place(p, offset);
  }

  /** Part of a sector, copied out of the bounce sector, lands as the disk has it. */
  lemma BouncedChunk(m: seq<u8>, dest: nat, disk: seq<u8>, p: Partition, offset: nat, chunk: nat)
    requires BOUNCE + SECTOR <= |m| && dest + chunk <= |m| && 0 < chunk && offset % SECTOR + chunk <= SECTOR
    requires AvoidsBounce(dest, chunk) && SECTOR * (p.start + offset / SECTOR + 1) <= |disk|
    ensures var lba, off := p.start + offset / SECTOR, offset % SECTOR;
            var m1 := Splice(m, BOUNCE, disk[SECTOR * lba..SECTOR * (lba + 1)]);
            var m2 := Splice(m1, dest, m1[BOUNCE + off..BOUNCE + off + chunk]);
            Holds(m2, dest, disk, Place(p, offset), chunk) && Kept(m, m2, dest, dest + chunk, true)
  {
    hide Splice, AvoidsBounce;
    var lba, off := p.start + offset / SECTOR, offset % SECTOR;
    var sector := disk[SECTOR * lba..SECTOR * (lba + 1)];
    var m1 := Splice(m, BOUNCE, sector);
    SpliceKeeps(m, BOUNCE, sector);
    SlicesNest(m1, BOUNCE, BOUNCE + SECTOR, off, off + chunk);
    SpliceKeeps(m1, dest, sector[off..off + chunk]);
    SlicesNest(disk, SECTOR * lba, SECTOR * (lba + 1), off, off + chunk);
  }

  lemma SlicesNest(s: seq<u8>, lo: nat, hi: nat, from: nat, to: nat)
    requires lo <= hi <= |s| && from <= to <= hi - lo
    ensures s[lo..hi][from..to] == s[lo + from..lo + to]
  {
    forall i | 0 <= i < to - from ensures s[lo..hi][from..to][i] == s[lo + from..lo + to][i] {
    }
  }

  lemma SpliceNothing(m: seq<u8>, at: nat)
    requires at <= |m|
    ensures Splice(m, at, []) == m
  {
  }

  lemma CopyStep(m: seq<u8>, dst: nat, src: nat, i: nat)
    requires src + i < |m| && dst + i < |m| && (dst <= src || src + i < dst)
    ensures var m' := Splice(m, dst, m[src..src + i]);
            m'[dst + i := m'[src + i]] == Splice(m, dst, m[src..src + i + 1])
  {
    var m' := Splice(m, dst, m[src..src + i]);
    SpliceAt(m, dst, m[src..src + i], src + i);
  }

  class Machine {
    var ram: seq<u8>
    const disk: seq<u8>
    /** How many sectors the drive delivers for the n-th read request before it gives up. */
    const delivered: (nat, nat, nat) -> nat
    /** The requests made so far, as (first sector, count). */
    var log: seq<(nat, nat)>

    constructor (memory: seq<u8>, image: seq<u8>, drive: (nat, nat, nat) -> nat)
      ensures ram == memory && disk == image && delivered == drive && log == []
    {
      ram, disk, delivered, log := memory, image, drive, [];
    }

    /** A drive that never gives up and holds the whole partition. */
    ghost predicate Healthy(p: Partition) {
      && SECTOR * (p.start + (p.sectors as int)) <= |disk|
      && forall n: nat, lba: nat, count: nat :: delivered(n, lba, count) >= count
    }

    lemma HealthyReads(p: Partition, n: nat, lba: nat, count: nat)
      requires Healthy(p) && lba + count <= p.start + (p.sectors as int)
      ensures delivered(n, lba, count) >= count && SECTOR * (lba + count) <= |disk|
    {
    }

    /** One request to the drive: all sectors, or a failure after some of them. */
    method ReadSectors(lba: nat, count: nat, dest: nat) returns (ok: bool)
      requires dest + SECTOR * count <= |ram|
      modifies this
      ensures log == old(log) + [(lba, count)] && |ram| == |old(ram)|
      ensures ok ==> SECTOR * (lba + count) <= |disk|
                     && ram == Splice(old(ram), dest, disk[SECTOR * lba..SECTOR * (lba + count)])
      ensures !ok ==> Kept(old(ram), ram, dest, dest + SECTOR * count, false)
      ensures !ok ==> delivered(|old(log)|, lba, count) < count || |disk| < SECTOR * (lba + count)
    {
      var n := delivered(|log|, lba, count);
      log := log + [(lba, count)];
      ok := n >= count && SECTOR * (lba + count) <= |disk|;
      var got := if ok then count else if n < count && SECTOR * (lba + n) <= |disk| then n else 0;
      if got > 0 {
        ram := Splice(ram, dest, disk[SECTOR * lba..SECTOR * (lba + got)]);
      }
    }

    method Copy(dst: nat, src: nat, len: nat)
      requires dst + len <= |ram| && src + len <= |ram| && (dst <= src || src + len <= dst)
      modifies this`ram
      ensures ram == Splice(old(ram), dst, old(ram)[src..src + len])
    {
      hide Splice;
      SpliceNothing(ram, dst);
      assert ram[src..src] == [];
      for i := 0 to len
        invariant ram == Splice(old(ram), dst, old(ram)[src..src + i])
      {
        CopyStep(old(ram), dst, src, i);
        ram := ram[dst + i := ram[src + i]];
      }
    }

    method Zero(dst: nat, len: nat)
      requires dst + len <= |ram|
      modifies this`ram
      ensures ram == Splice(old(ram), dst, Zeros(len))
    {
      for i := 0 to len
        invariant ram == Splice(old(ram), dst, Zeros(i))
      {
        ram := ram[dst + i := 0];
      }
    }

    /** One round of the reader's loop: a run of whole sectors, or a piece of one through the bounce sector. */
    method ReadChunk(p: Partition, offset: nat, dest: nat, len: nat) returns (ok: bool, chunk: nat)
      requires WellPlaced(p) && len > 0 && offset + len <= SECTOR * (p.sectors as int)
      requires dest + len <= |ram| && LOW_MEMORY <= |ram|
      requires UsesBounce(offset, dest, len) ==> AvoidsBounce(dest, len)
      modifies this
      ensures 0 < chunk <= len && |ram| == |old(ram)|
      ensures ok ==> Holds(ram, dest, disk, Place(p, offset), chunk)
      ensures Kept(old(ram), ram, dest, dest + chunk, UsesBounce(offset, dest, len))
      ensures ok ==> (UsesBounce(offset + chunk, dest + chunk, len - chunk) ==> UsesBounce(offset, dest, len))
      ensures old(log) <= log && Inside(log, |old(log)|, p)
      ensures Healthy(p) ==> ok
    {
      hide Splice, Kept, Holds, Place, Inside, AvoidsBounce, UsesBounce, Healthy;
      var lba, off := p.start + offset / SECTOR, offset % SECTOR;
      if off == 0 && dest % SECTOR == 0 && len >= SECTOR {
        var count := len / SECTOR;
        if count > MAX_DIRECT_SECTORS {
          count := MAX_DIRECT_SECTORS;
        }
        chunk := SECTOR * count;
        DirectArithmetic(p, offset, dest, len, count);
        ok := ReadSectors(lba, count, dest);
        InsideOne(old(log), lba, count, p);
        if ok {
          DirectChunk(old(ram), dest, disk, p, offset, count);
        }
        KeptEither(old(ram), ram, dest, dest + chunk, UsesBounce(offset, dest, len));
        if Healthy(p) {
          HealthyReads(p, |old(log)|, lba, count);
        }
      } else {
        chunk := if SECTOR - off > len then len else SECTOR - off;
        BounceArithmetic(p, offset, dest, len);
        AvoidsLess(dest, len, len - chunk);
        ok := ReadSectors(lba, 1, BOUNCE);
        InsideOne(old(log), lba, 1, p);
        if ok {
          Copy(dest, BOUNCE + off, chunk);
          BouncedChunk(old(ram), dest, disk, p, offset, chunk);
        } else {
          KeptInBounce(old(ram), ram, dest, dest + chunk);
        }
        if Healthy(p) {
          HealthyReads(p, |old(log)|, lba, 1);
        }
      }
    }

    /** linux_read_partition_bytes: any offset, alignment and length. */
    method ReadBytes(p: Partition, offset0: u32, dest0: nat, len0: u32) returns (ok: bool)
      requires WellPlaced(p) && dest0 + len0 <= |ram| && LOW_MEMORY <= |ram|
      requires UsesBounce(offset0, dest0, len0) ==> AvoidsBounce(dest0, len0)
      modifies this
      ensures |ram| == |old(ram)| && old(log) <= log && Inside(log, |old(log)|, p)
      ensures ok ==> Contains(p, offset0, len0) && Holds(ram, dest0, disk, Place(p, offset0), len0)
      ensures Kept(old(ram), ram, dest0, dest0 + len0, UsesBounce(offset0, dest0, len0))
      ensures !Contains(p, offset0, len0) ==> ram == old(ram) && log == old(log)
      ensures Contains(p, offset0, len0) && Healthy(p) ==> ok
    {
      hide Place, Contains, UsesBounce, AvoidsBounce, Holds, Kept, Inside, Healthy;
      NothingRead(ram, dest0, disk, Place(p, offset0), UsesBounce(offset0, dest0, len0), dest0 + len0);
      InsideStart(log, p);
      if !Contains(p, offset0, len0) {
        return false;
      }
      ContainsExactly(p, offset0, len0);
      var offset: nat, dest: nat, len: nat := offset0, dest0, len0;
      ghost var bounced := UsesBounce(offset0, dest0, len0);
      while len != 0
        invariant len <= len0 && offset == offset0 + (len0 - len) && dest == dest0 + (len0 - len)
        invariant |ram| == |old(ram)|
        invariant Holds(ram, dest0, disk, Place(p, offset0), len0 - len)
        invariant Kept(old(ram), ram, dest0, dest, bounced)
        invariant UsesBounce(offset, dest, len) ==> bounced
        invariant old(log) <= log && Inside(log, |old(log)|, p)
      {
        ghost var before, requests := ram, log;
        var chunk;
        AvoidsLess(dest0, len0, len);
        ok, chunk := ReadChunk(p, offset, dest, len);
        InsideJoin(old(log), requests, log, p);
        KeptJoin(old(ram), before, ram, dest0, dest, dest + chunk, bounced, UsesBounce(offset, dest, len));
        if !ok {
          KeptMore(old(ram), ram, dest0, dest + chunk, dest0 + len0, bounced);
          return;
        }
        PlaceMoves(p, offset0, len0 - len);
        HoldsJoin(before, ram, dest0, disk, Place(p, offset0), len0 - len, chunk, UsesBounce(offset, dest, len));
        offset, dest, len := offset + chunk, dest + chunk, len - chunk;
      }
      ok := true;
    }
  }

  function Zeros(len: nat): (r: seq<u8>)
    ensures |r| == len
  {
    seq(len, _ => 0)
  }

  lemma NothingRead(m: seq<u8>, dest: nat, disk: seq<u8>, at: nat, bounced: bool, hi: nat)
    ensures Holds(m, dest, disk, at, 0) && Kept(m, m, dest, dest, bounced) && Kept(m, m, dest, hi, bounced)
  {
  }

  lemma InsideStart(log: seq<(nat, nat)>, p: Partition)
    ensures Inside(log, |log|, p)
  {
  }

  lemma InsideJoin(x: seq<(nat, nat)>, y: seq<(nat, nat)>, z: seq<(nat, nat)>, p: Partition)
    requires x <= y <= z && Inside(y, |x|, p) && Inside(z, |y|, p)
    ensures x <= z && Inside(z, |x|, p)
  {
  }

  lemma InsideOne(log: seq<(nat, nat)>, lba: nat, count: nat, p: Partition)
    requires p.start as int <= lba && lba + count <= p.start + (p.sectors as int) && 1 <= count <= 2048
    ensures log <= log + [(lba, count)] && Inside(log + [(lba, count)], |log|, p)
  {
  }

  lemma KeptEither(m: seq<u8>, m': seq<u8>, lo: int, hi: int, bounced: bool)
    requires Kept(m, m', lo, hi, false)
    ensures Kept(m, m', lo, hi, bounced) && |m'| == |m|
  {
  }

  lemma KeptInBounce(m: seq<u8>, m': seq<u8>, lo: int, hi: int)
    requires Kept(m, m', BOUNCE, BOUNCE + SECTOR, false)
    ensures Kept(m, m', lo, hi, true) && |m'| == |m|
  {
  }

  lemma DirectArithmetic(p: Partition, offset: nat, dest: nat, len: nat, count: nat)
    requires offset % SECTOR == 0 && dest % SECTOR == 0 && 0 < count <= len / SECTOR
    requires offset + len <= SECTOR * (p.sectors as int)
    ensures 0 < SECTOR * count <= len && p.start + offset / SECTOR + count <= p.start + (p.sectors as int)
    ensures UsesBounce(offset + SECTOR * count, dest + SECTOR * count, len - SECTOR * count)
            ==> UsesBounce(offset, dest, len)
  {
  }

  lemma BounceArithmetic(p: Partition, offset: nat, dest: nat, len: nat)
    requires !(offset % SECTOR == 0 && dest % SECTOR == 0 && len >= SECTOR) && len > 0
    requires offset + len <= SECTOR * (p.sectors as int)
    ensures UsesBounce(offset, dest, len) && p.start + offset / SECTOR + 1 <= p.start + (p.sectors as int)
  {
  }

  lemma PlaceMoves(p: Partition, offset: nat, d: nat)
    ensures Place(p, offset + d) == Place(p, offset) + d
  {
  }

  lemma KeptMore(m: seq<u8>, m': seq<u8>, lo: int, mid: int, hi: int, bounced: bool)
    requires mid <= hi && Kept(m, m', lo, mid, bounced)
    ensures Kept(m, m', lo, hi, bounced)
  {
  }

  lemma AvoidsLess(dest: nat, whole: nat, left: nat)
    requires left <= whole
    ensures AvoidsBounce(dest, whole) ==> AvoidsBounce(dest + (whole - left), left) && AvoidsBounce(dest, whole - left)
  {
  }
}
