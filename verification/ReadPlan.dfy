/** How a read of many sectors is cut into requests, and how a USB request becomes a chain of transfer descriptors. */
module ReadPlan {
  import opened Words

  const SECTOR := 512
  const MAX_TD := 256
  const MAX_IDE := 256
  const PTR_TERM: u32 := 1
  const PTR_DEPTH := 4
  const TD_SIZE := 32

  // ---------- Chains of transfer descriptors ----------

  datatype Td = Td(link: nat, token: nat, buffer: nat)

  /** uhci_token for the 7-bit addresses USB has. */
  function Token(pid: u8, addr: nat, ep: nat, toggle: bool, len: nat): nat
    requires addr < 128 && len <= 0x500
  {
    var maxLen := if len == 0 then 0x7ff else len - 1;
    pid + 0x100 * addr + 0x8000 * (ep % 16) + (if toggle then 0x8_0000 else 0) + 0x20_0000 * maxLen
  }

  function TokenLen(token: nat): nat {
    (token / 0x20_0000 + 1) % 0x800
  }

  predicate TokenToggle(token: nat) {
    token / 0x8_0000 % 2 == 1
  }

  lemma TokenUpper(t: nat, low: nat, toggle: bool, m: nat)
    requires low < 0x8_0000 && m < 0x800 && t == low + (if toggle then 0x8_0000 else 0) + 0x20_0000 * m
    ensures t < TWO32 && TokenLen(t) == (m + 1) % 0x800 && TokenToggle(t) == toggle
  {
    TokenParts(t, low, if toggle then 1 else 0, m);
  }

  lemma TokenParts(t: nat, low: nat, g: nat, m: nat)
    requires low < 0x8_0000 && g < 2 && m < 0x800 && t == low + 0x8_0000 * g + 0x20_0000 * m
    ensures t < TWO32 && t / 0x20_0000 == m && t / 0x8_0000 == 4 * m + g && t / 0x8_0000 % 2 == g
  {
    DivModUnique(t, 0x20_0000, m, low + 0x8_0000 * g);
    DivModUnique(t, 0x8_0000, 4 * m + g, low);
    DivModUnique(4 * m + g, 2, 2 * m, g);
  }

  lemma TokenLower(t: nat, pid: u8, addr: nat, e: nat, high: nat)
    requires addr < 128 && e < 16 && t == pid + 0x100 * addr + 0x8000 * e + 0x8_0000 * high
    ensures t % 0x100 == pid && t / 0x100 % 128 == addr && t / 0x8000 % 16 == e
  {
    DivModUnique(t, 0x8000, 16 * high + e, pid + 0x100 * addr);
    DivModUnique(t, 0x100, 0x800 * high + 0x80 * e + addr, pid);
    DivModUnique(0x800 * high + 0x80 * e + addr, 128, 16 * high + e, addr);
    DivModUnique(16 * high + e, 16, high, e);
  }

  /** The fields packed into a token do not disturb each other. */
  lemma TokenFields(pid: u8, addr: nat, ep: nat, toggle: bool, len: nat)
    requires addr < 128 && len <= 0x500
    ensures var t := Token(pid, addr, ep, toggle, len);
            && t < TWO32 && TokenLen(t) == len && TokenToggle(t) == toggle
            && t % 0x100 == pid && t / 0x100 % 128 == addr && t / 0x8000 % 16 == ep % 16
  {
    hide TokenLen, TokenToggle;
    var m := if len == 0 then 0x7ff else len - 1;
    TokenUpper(Token(pid, addr, ep, toggle, len), pid + 0x100 * addr + 0x8000 * (ep % 16), toggle, m);
    TokenLower(Token(pid, addr, ep, toggle, len), pid, addr, ep % 16, 4 * m + if toggle then 1 else 0);
  }

  /** A bulk endpoint: where it is and the largest packet it takes. */
  datatype Pipe = Pipe(base: nat, pid: u8, addr: nat, ep: nat, mps: nat)

  predicate UsablePipe(p: Pipe) {
    p.addr < 128 && p.mps <= 0x500
  }

  function Physical(p: Pipe, index: nat): nat {
    p.base + TD_SIZE * index
  }

  function Packet(p: Pipe, len: nat): nat {
    if len > p.mps then p.mps else len
  }

  /** The chain for `len` bytes at `data`, whose first descriptor is number `index` and starts with `toggle`. */
  function Chain(p: Pipe, data: nat, len: nat, toggle: bool, index: nat): seq<Td>
    requires UsablePipe(p) && p.mps > 0
    decreases len
  {
    if len == 0 then []
    else
      var n := Packet(p, len);
      var link := if n < len then Physical(p, index + 1) + PTR_DEPTH else PTR_TERM;
      [Td(link, Token(p.pid, p.addr, p.ep, toggle, n), data)] + Chain(p, data + n, len - n, !toggle, index + 1)
  }

  /** The token goes to the endpoint of the pipe, with this toggle. */
  predicate Addressed(t: nat, p: Pipe, toggle: bool) {
    && t % 0x100 == p.pid && t / 0x100 % 128 == p.addr && t / 0x8000 % 16 == p.ep % 16
    && (t / 0x8_0000 % 2 == 1 <==> toggle)
  }

  /**
   * Packets back to back over the buffer, all but the last of them full, alternating toggles, each descriptor linked
   * to the next, depth first, and the last one to none.
   */
  predicate SoundChain(tds: seq<Td>, p: Pipe, data: nat, len: nat, toggle: bool, index: nat)
    decreases |tds|
  {
    if tds == [] then len == 0
    else
      var n := TokenLen(tds[0].token);
      && 0 < n <= len && n <= p.mps && tds[0].buffer == data && Addressed(tds[0].token, p, toggle)
      && (if |tds| == 1 then tds[0].link == 1 else n == p.mps && tds[0].link == p.base + 32 * (index + 1) + 4)
      && SoundChain(tds[1..], p, data + n, len - n, !toggle, index + 1)
  }

  lemma {:induction false} ChainIsSound(p: Pipe, data: nat, len: nat, toggle: bool, index: nat)
    requires UsablePipe(p) && p.mps > 0
    ensures SoundChain(Chain(p, data, len, toggle, index), p, data, len, toggle, index)
    ensures Chain(p, data, len, toggle, index) == [] <==> len == 0
    decreases len
  {
    hide Token, TokenLen;
    if len > 0 {
      var n := Packet(p, len);
      TokenFields(p.pid, p.addr, p.ep, toggle, n);
      ChainIsSound(p, data + n, len - n, !toggle, index + 1);
    }
  }

  /** The number of descriptors: one per packet, the last one perhaps short. */
  lemma {:induction false} ChainLength(p: Pipe, data: nat, len: nat, toggle: bool, index: nat)
    requires UsablePipe(p) && p.mps > 0
    ensures var n := |Chain(p, data, len, toggle, index)|; len <= n * p.mps && (n > 0 ==> (n - 1) * p.mps < len)
    decreases len
  {
    hide Token, Physical;
    if len > 0 {
      var k := Packet(p, len);
      ChainLength(p, data + k, len - k, !toggle, index + 1);
      var n := |Chain(p, data + k, len - k, !toggle, index + 1)|;
      assert (n + 1) * p.mps == n * p.mps + p.mps;
      if n == 0 {
        assert 0 * p.mps == 0;
      } else {
        assert n * p.mps == (n - 1) * p.mps + p.mps;
      }
    }
  }

  /** The loop of uhci_bulk: fills the descriptors and keeps the stored toggle in step. */
  class Endpoint {
    const pipe: Pipe
    var toggle: bool
    const tds: array<Td>

    constructor (p: Pipe)
      requires UsablePipe(p)
      ensures pipe == p && !toggle && fresh(tds) && tds.Length == MAX_TD
    {
      pipe, toggle := p, false;
      tds := new Td[MAX_TD](_ => Td(0, 0, 0));
    }

    method Bulk(data: nat, len: nat) returns (ok: bool, count: nat)
      requires UsablePipe(pipe) && tds.Length == MAX_TD
      modifies this, tds
      ensures pipe.mps > 0 ==> (ok <==> |Chain(pipe, data, len, old(toggle), 0)| <= 256)
      ensures pipe.mps == 0 ==> (ok <==> len == 0)
      ensures ok && pipe.mps > 0 ==> count == |Chain(pipe, data, len, old(toggle), 0)|
                                     && tds[..count] == Chain(pipe, data, len, old(toggle), 0)
      ensures count <= 256 && (toggle <==> old(toggle) != (count % 2 == 1))
    {
      hide Token, Physical, Chain;
      count := 0;
      var offset := 0;
      while offset < len
        invariant offset <= len && count <= MAX_TD && (toggle <==> old(toggle) != (count % 2 == 1))
        invariant pipe.mps == 0 ==> offset == 0
        invariant pipe.mps > 0 ==>
                    Chain(pipe, data, len, old(toggle), 0) ==
                      tds[..count] + Chain(pipe, data + offset, len - offset, toggle, count)
        decreases len - offset, MAX_TD - count
      {
        var chunk := Packet(pipe, len - offset);
        if pipe.mps > 0 {
          ChainStep(pipe, data + offset, len - offset, toggle, count);
        }
        if count >= MAX_TD {
          return false, count;
        }
        var link := if offset + chunk < len then Physical(pipe, count + 1) + PTR_DEPTH else PTR_TERM;
        ghost var before := tds[..count];
        tds[count] := Td(link, Token(pipe.pid, pipe.addr, pipe.ep, toggle, chunk), data + offset);
        assert tds[..count + 1] == before + [tds[count]];
        toggle := !toggle;
        offset, count := offset + chunk, count + 1;
      }
      if pipe.mps > 0 {
        ChainEnds(pipe, data + len, toggle, count);
      }
      return true, count;
    }
  }

  lemma ChainStep(p: Pipe, data: nat, len: nat, toggle: bool, index: nat)
    requires UsablePipe(p) && p.mps > 0 && len > 0
    ensures var n := Packet(p, len);
            var link := if n < len then Physical(p, index + 1) + PTR_DEPTH else PTR_TERM;
            Chain(p, data, len, toggle, index) ==
            [Td(link, Token(p.pid, p.addr, p.ep, toggle, n), data)] + Chain(p, data + n, len - n, !toggle, index + 1)
  {
    hide Token, Physical;
  }

  lemma ChainEnds(p: Pipe, data: nat, toggle: bool, index: nat)
    requires UsablePipe(p) && p.mps > 0
    ensures Chain(p, data, 0, toggle, index) == []
  {
  }

  // ---------- Requests ----------

  function MaxUsbSectors(mps: nat): (r: nat)
    ensures 1 <= r <= 127
  {
    var m := mps * MAX_TD / SECTOR;
    if m == 0 then 1 else if m > 127 then 127 else m
  }

  /** Half the packet size in sectors, at least 1 and at most 127: 256 packets are that many bytes. */
  lemma MaxUsbSectorsIs(mps: nat)
    ensures mps < 2 ==> MaxUsbSectors(mps) == 1
    ensures 2 <= mps < 256 ==> MaxUsbSectors(mps) == mps / 2
    ensures mps >= 254 ==> MaxUsbSectors(mps) == 127
  {
    DivModUnique(mps * MAX_TD, SECTOR, mps / 2, mps % 2 * MAX_TD);
  }

  /**
   * Every request the planner can make needs no more descriptors than there are, exactly for packets of 2 bytes or
   * more.
   */
  lemma RequestsFitChains(p: Pipe, data: nat, toggle: bool)
    requires UsablePipe(p) && p.mps > 0
    ensures p.mps >= 2 <==>
            forall sectors: nat :: 1 <= sectors <= MaxUsbSectors(p.mps)
              ==> |Chain(p, data, 512 * sectors, toggle, 0)| <= 256
  {
    hide Chain;
    if p.mps >= 2 {
      forall sectors: nat | 1 <= sectors <= MaxUsbSectors(p.mps)
        ensures |Chain(p, data, SECTOR * sectors, toggle, 0)| <= MAX_TD {
        RequestFits(p, data, sectors, toggle);
      }
    } else {
      ChainLength(p, data, SECTOR * 1, toggle, 0);
      assert 1 <= MaxUsbSectors(p.mps) && |Chain(p, data, SECTOR * 1, toggle, 0)| > MAX_TD;
    }
  }

  lemma RequestFits(p: Pipe, data: nat, sectors: nat, toggle: bool)
    requires UsablePipe(p) && p.mps >= 2 && 1 <= sectors <= MaxUsbSectors(p.mps)
    ensures |Chain(p, data, SECTOR * sectors, toggle, 0)| <= MAX_TD
  {
    hide Chain;
    var n := |Chain(p, data, SECTOR * sectors, toggle, 0)|;
    ChainLength(p, data, SECTOR * sectors, toggle, 0);
    assert SECTOR * sectors <= MAX_TD * p.mps;
    if n > MAX_TD {
      MulMonotone(MAX_TD, n - 1, p.mps);
    }
  }

  lemma MulMonotone(a: nat, b: nat, c: nat)
    requires a <= b
    ensures a * c <= b * c
  {
    assert b * c == a * c + (b - a) * c;
  }

  datatype Request = Request(lba: nat, count: nat, dest: nat)

  /** The requests for `count` sectors at no more than `limit` each. */
  function Requests(lba: nat, count: nat, dest: nat, limit: nat): seq<Request>
    requires limit > 0
    decreases count
  {
    if count == 0 then []
    else
      var n := if count > limit then limit else count;
      [Request(lba, n, dest)] + Requests(lba + n, count - n, dest + SECTOR * n, limit)
  }

  /** Every sector once, in order, each at its place in the destination, and as many in each request as allowed. */
  predicate SoundPlan(rs: seq<Request>, lba: nat, count: nat, dest: nat, limit: nat)
    decreases |rs|
  {
    if rs == [] then count == 0
    else
      && rs[0].lba == lba && 0 < rs[0].count <= limit && rs[0].count <= count && rs[0].dest == dest
      && (rs[0].count == limit || |rs| == 1)
      && SoundPlan(rs[1..], lba + rs[0].count, count - rs[0].count, dest + 512 * rs[0].count, limit)
  }

  lemma {:induction false} RequestsAreSound(lba: nat, count: nat, dest: nat, limit: nat)
    requires limit > 0
    ensures SoundPlan(Requests(lba, count, dest, limit), lba, count, dest, limit)
    decreases count
  {
    if count > 0 {
      var n := if count > limit then limit else count;
      RequestsAreSound(lba + n, count - n, dest + SECTOR * n, limit);
    }
  }

  /** Read as a whole, a sound plan puts sector `lba + i` at byte `512 i`. */
  lemma {:induction false} PlanPlacesEverySector(rs: seq<Request>, lba: nat, count: nat, dest: nat, limit: nat, i: nat)
    returns (k: nat)
    requires SoundPlan(rs, lba, count, dest, limit) && i < count
    ensures k < |rs| && rs[k].lba <= lba + i < rs[k].lba + rs[k].count
    ensures rs[k].dest + 512 * (lba + i - rs[k].lba) == dest + 512 * i
    decreases |rs|
  {
    var n := rs[0].count;
    if i < n {
      k := 0;
    } else {
      var k' := PlanPlacesEverySector(rs[1..], lba + n, count - n, dest + SECTOR * n, limit, i - n);
      k := k' + 1;
    }
  }

  datatype Kind = NoDisk | Ide | Usb

  /** The selected drive; `works` says whether the n-th request succeeds. */
  class Disk {
    const kind: Kind
    const present: bool
    const totalSectors: nat
    const dma: bool
    const mps: nat
    const works: nat -> bool
    /** Requests made so far. */
    var log: seq<Request>

    constructor (k: Kind, there: bool, total: nat, useDma: bool, packet: nat, oracle: nat -> bool)
      ensures kind == k && present == there && totalSectors == total && dma == useDma && mps == packet
              && works == oracle && log == []
    {
      kind, present, totalSectors, dma, mps, works, log := k, there, total, useDma, packet, oracle, [];
    }

    /** The most sectors one request may ask for. */
    function Limit(): (r: nat)
      ensures r > 0
    {
      match kind
      case Usb => MaxUsbSectors(mps)
      case _ => if dma then 255 else MAX_IDE
    }

    /** An IDE drive takes 256 sectors, or 255 by DMA; a USB drive what its descriptors hold. */
    lemma LimitIs()
      ensures kind == Ide ==> Limit() == if dma then 255 else 256
      ensures kind == Usb ==> Limit() == MaxUsbSectors(mps)
    {
      hide MaxUsbSectors;
    }

    method Transfer(r: Request) returns (ok: bool)
      modifies this
      ensures log == old(log) + [r] && ok == works(|old(log)|)
    {
      ok := works(|log|);
      log := log + [r];
    }

    /** How many of the `left` sectors the next request takes. */
    method NextChunk(left: nat) returns (chunk: nat)
      requires kind != NoDisk
      ensures chunk == if left > Limit() then Limit() else left
    {
      hide MaxUsbSectors;
      chunk := left;
      if kind == Ide {
        if chunk > MAX_IDE {
          chunk := MAX_IDE;
        }
        if dma && chunk == MAX_IDE {
          chunk := 255;
        }
      } else {
        var most := MaxUsbSectors(mps);
        if chunk > most {
          chunk := most;
        }
      }
    }

    /**
     * bios_hdd_read_sectors: a range that is empty or not on the drive is refused. Otherwise, on success exactly the
     * planned requests were made, and a failure stops at the failing one.
     */
    method ReadSectors(lba: nat, count: nat, dest: nat) returns (ok: bool)
      modifies this
      ensures !present || count == 0 || lba + count > totalSectors || kind == NoDisk ==> !ok && log == old(log)
      ensures old(log) <= log <= old(log) + Requests(lba, count, dest, Limit())
      ensures ok ==> log == old(log) + Requests(lba, count, dest, Limit())
      ensures present && 0 < count && lba + count <= totalSectors && kind != NoDisk ==>
                ok || (|log| > |old(log)| && !works(|log| - 1))
      ensures forall i :: |old(log)| <= i < |log| - 1 ==> works(i)
    {
      hide MaxUsbSectors, Requests, Limit;
      if !present || count == 0 || lba + count > totalSectors {
        return false;
      }
      if kind == NoDisk {
        return false;
      }
      ghost var goal := log + Requests(lba, count, dest, Limit());
      var i := 0;
      while i < count
        invariant i <= count && old(log) <= log
        invariant forall k :: |old(log)| <= k < |log| ==> works(k)
        invariant log + Requests(lba + i, count - i, dest + SECTOR * i, Limit()) == goal
      {
        var chunk := NextChunk(count - i);
        RequestsStep(lba + i, count - i, dest + SECTOR * i, Limit());
        ok := Transfer(Request(lba + i, chunk, dest + SECTOR * i));
        if !ok {
          return;
        }
        i := i + chunk;
      }
      RequestsDone(lba + count, dest + SECTOR * count, Limit());
      return true;
    }
  }

  lemma RequestsStep(lba: nat, count: nat, dest: nat, limit: nat)
    requires limit > 0 && count > 0
    ensures var n := if count > limit then limit else count;
            Requests(lba, count, dest, limit) ==
              [Request(lba, n, dest)] + Requests(lba + n, count - n, dest + SECTOR * n, limit)
  {
  }

  lemma RequestsDone(lba: nat, dest: nat, limit: nat)
    requires limit > 0
    ensures Requests(lba, 0, dest, limit) == []
  {
  }
}
