/** What the heap service's stores do to the linked blocks: values of memory before and after, no state yet. */
module HeapSplice {
  import opened Words
  import opened HeapLayout
  import opened HeapLinks

  // ---------- Walking the free list ----------

  /** The chain reaches the first free block at or after index `i`. */
  lemma {:induction false} FirstFree(l: Layout, i: nat) returns (j: nat)
    requires i <= |l| && Chain(l[i..], 0) != 0
    ensures i <= j < |l| && l[j].free && l[j].addr == Chain(l[i..], 0)
    ensures forall n :: i <= n < j ==> !l[n].free
    decreases |l| - i
  {
    assert l[i..] != [] && l[i..][1..] == l[i + 1..];
    if l[i].free {
      j := i;
    } else {
      j := FirstFree(l, i + 1);
    }
  }

  lemma {:induction false} ChainReaches(l: Layout, i: nat, j: nat, start: nat, end: nat)
    requires i <= j < |l| && l[j].free && 0 < start && Tiles(l, start, end)
    ensures Chain(l[i..], 0) != 0 && Chain(l[i..], 0) <= l[j].addr
    decreases j - i
  {
    assert l[i..][1..] == l[i + 1..];
    TilesInOrder(l, start, end, i, j);
    if i < j {
      ChainReaches(l, i + 1, j, start, end);
    }
  }

  lemma HeaderAt(m: seq<u8>, l: Layout, j: nat)
    requires Linked(m, l, 0) && j < |l|
    ensures l[j].addr + HEADER_BYTES <= |m| && Le32(m, l[j].addr) == l[j].size
    ensures l[j].free ==> Le32(m, l[j].addr + 4) == Chain(l[j + 1..], 0)
  {
    assert l == l[..j] + l[j..] && l[j..][1..] == l[j + 1..];
    LinkedConcat(m, l[..j], l[j..], 0);
  }

  lemma PassedBlocks(l: Layout, i: nat, j: nat)
    requires i <= j <= |l| && forall n :: i <= n < j ==> !l[n].free
    ensures LastFree(l[..j]) == LastFree(l[..i])
    ensures Chain(l[i..], 0) == Chain(l[j..], 0)
    ensures j < |l| && l[j].free && l[j].addr > 0 ==> LastFree(l[..j + 1]) == l[j].addr
  {
    assert l[..j] == l[..i] + l[i..j] && l[i..] == l[i..j] + l[j..];
    NoneFree(l[i..j], 0);
    NoneFree(l[i..j], Chain(l[j..], 0));
    LastFreeConcat(l[..i], l[i..j]);
    ChainConcat(l[i..j], l[j..], 0);
    if j < |l| {
      assert l[..j + 1] == l[..j] + [l[j]];
      LastFreeConcat(l[..j], [l[j]]);
    }
  }

  // ---------- What a change of memory leaves alone ----------

  /** Every block in use, header and payload, is the same in both images. */
  ghost predicate KeepsLive(m: seq<u8>, m': seq<u8>, l: Layout) {
    |m| == |m'| &&
    forall b, a :: b in l && !b.free && b.addr <= a < b.addr + b.size && a < |m| ==> m'[a] == m[a]
  }

  lemma KeepsLiveSame(m: seq<u8>, l: Layout)
    ensures KeepsLive(m, m, l)
  {
  }

  /** Nothing outside [lo, hi) changes. */
  ghost predicate KeepsOutside(m: seq<u8>, m': seq<u8>, lo: nat, hi: nat) {
    |m| == |m'| && forall a :: 0 <= a < |m| && !(lo <= a < hi) ==> m'[a] == m[a]
  }

  lemma OutsideSame(m: seq<u8>, lo: nat, hi: nat)
    ensures KeepsOutside(m, m, lo, hi)
  {
  }

  lemma OutsideJoin(m: seq<u8>, m': seq<u8>, m'': seq<u8>, lo: nat, hi: nat)
    requires KeepsOutside(m, m', lo, hi) && KeepsOutside(m', m'', lo, hi)
    ensures KeepsOutside(m, m'', lo, hi)
  {
  }

  /** `m'` differs from `m` at most in the headers at `p` and `q` and in the link of the block at `prev`. */
  ghost predicate OnlyHeaders(m: seq<u8>, m': seq<u8>, prev: nat, p: nat, q: nat) {
    && |m| == |m'|
    && forall a :: 0 <= a < |m| && !(p <= a < p + HEADER_BYTES) && !(q <= a < q + HEADER_BYTES)
                   && !(prev != 0 && prev + 4 <= a < prev + 8)
        ==> m'[a] == m[a]
  }

  /** Blocks on either side of `b` stay clear of it and of each other. */
  lemma Sides(x: Layout, b: Block, y: Layout, start: nat, end: nat)
    requires Tiles(x + [b] + y, start, end)
    ensures WellSized(b) && start <= b.addr && b.addr + b.size <= end
    ensures forall c :: c in x ==> WellSized(c) && start <= c.addr && c.addr + c.size <= b.addr
    ensures forall c :: c in y ==> WellSized(c) && b.addr + b.size <= c.addr && c.addr + c.size <= end
    ensures forall c, d :: c in x && d in x && c.addr != d.addr
                           ==> c.addr + c.size <= d.addr || d.addr + d.size <= c.addr
  {
    var l := x + [b] + y;
    TilesInOrder(l, start, end, |x|, |x|);
    forall c | c in x ensures WellSized(c) && start <= c.addr && c.addr + c.size <= b.addr {
      var i :| 0 <= i < |x| && x[i] == c;
      TilesInOrder(l, start, end, i, |x|);
    }
    forall c | c in y ensures WellSized(c) && b.addr + b.size <= c.addr && c.addr + c.size <= end {
      var i :| 0 <= i < |y| && y[i] == c;
      assert l[|x| + 1 + i] == c;
      TilesInOrder(l, start, end, |x|, |x| + 1 + i);
    }
    forall c, d | c in x && d in x && c.addr != d.addr
      ensures c.addr + c.size <= d.addr || d.addr + d.size <= c.addr
    {
      var i :| 0 <= i < |x| && x[i] == c;
      var j :| 0 <= j < |x| && x[j] == d;
      if i <= j {
        TilesInOrder(l, start, end, i, j);
      } else {
        TilesInOrder(l, start, end, j, i);
      }
    }
  }

  lemma HeadersBefore(m: seq<u8>, m': seq<u8>, x: Layout, b: Block, y: Layout, q: nat, start: nat, end: nat)
    requires 0 < start && end <= |m| && Tiles(x + [b] + y, start, end)
    requires b.addr <= q && q + HEADER_BYTES <= b.addr + b.size
    requires OnlyHeaders(m, m', LastFree(x), b.addr, q)
    ensures LastFree(x) != 0 ==> LastFree(x) + HEADER_BYTES <= b.addr
    ensures forall c :: c in x ==> c.addr + HEADER_BYTES <= |m| && Le32(m', c.addr) == Le32(m, c.addr)
                                   && (c.addr != LastFree(x) ==> SameHeader(m, m', c))
  {
    Sides(x, b, y, start, end);
    if LastFree(x) != 0 {
      LastFreeIsIn(x);
    }
    forall c | c in x
      ensures c.addr + HEADER_BYTES <= |m| && Le32(m', c.addr) == Le32(m, c.addr)
      ensures c.addr != LastFree(x) ==> SameHeader(m, m', c)
    {
      hide Le32;
      SameBytesSameWord(m, m', c.addr);
      if c.addr != LastFree(x) {
        SameBytesSameWord(m, m', c.addr + 4);
      }
    }
  }

  lemma HeadersAfter(m: seq<u8>, m': seq<u8>, x: Layout, b: Block, y: Layout, q: nat, start: nat, end: nat)
    requires 0 < start && end <= |m| && Tiles(x + [b] + y, start, end)
    requires b.addr <= q && q + HEADER_BYTES <= b.addr + b.size
    requires OnlyHeaders(m, m', LastFree(x), b.addr, q)
    ensures forall c :: c in y ==> c.addr + HEADER_BYTES <= |m| && SameHeader(m, m', c)
  {
    Sides(x, b, y, start, end);
    if LastFree(x) != 0 {
      LastFreeIsIn(x);
    }
    forall c | c in y ensures c.addr + HEADER_BYTES <= |m| && SameHeader(m, m', c) {
      hide Le32;
      SameBytesSameWord(m, m', c.addr);
      SameBytesSameWord(m, m', c.addr + 4);
    }
  }

  /**
   * The blocks `c` take the place of the stretch `b`: only headers inside it changed, and the last free block
   * before it now leads to the chain that starts in `c`.
   */
  lemma Splice(m: seq<u8>, m': seq<u8>, x: Layout, t: nat, b: Block, c: Layout, y: Layout, q: nat, start: nat, end: nat)
    requires 0 < start && end <= |m| == |m'| && Tiles(x + [b] + y, start, end)
    requires Linked(m, x, t) && Linked(m, y, 0)
    requires b.addr <= q && q + HEADER_BYTES <= b.addr + b.size
    requires OnlyHeaders(m, m', LastFree(x), b.addr, q)
    requires Linked(m', c, Chain(y, 0))
    requires LastFree(x) != 0 ==> LastFree(x) + 8 <= |m| && Le32(m', LastFree(x) + 4) == Chain(c + y, 0)
    ensures Linked(m', x + c + y, 0)
  {
    hide OnlyHeaders, SameHeader, Linked, Chain, Tiles, LastFree;
    assert x + [b] + y == x + ([b] + y) && x + c + y == x + (c + y);
    HeadersAfter(m, m', x, b, y, q, start, end);
    HeadersBefore(m, m', x, b, y, q, start, end);
    LinkedFrame(m, m', y, 0);
    var mid := TilesSplit(x, [b] + y, start, end);
    SpliceBefore(m, m', x, t, Chain(c + y, 0), start, mid);
    LinkedConcat(m', c, y, 0);
    LinkedConcat(m', x, c + y, 0);
  }

  lemma SpliceBefore(m: seq<u8>, m': seq<u8>, x: Layout, t: nat, t': nat, start: nat, mid: nat)
    requires |m| == |m'| && 0 < start && Tiles(x, start, mid) && Linked(m, x, t)
    requires LastFree(x) != 0 ==> LastFree(x) + 8 <= |m| && Le32(m', LastFree(x) + 4) == t'
    requires forall c :: c in x ==> c.addr + HEADER_BYTES <= |m| && Le32(m', c.addr) == Le32(m, c.addr)
                                    && (c.addr != LastFree(x) ==> SameHeader(m, m', c))
    ensures Linked(m', x, t')
  {
    hide Le32, Linked, Tiles, LastFree;
    forall c | c in x ensures c.addr > 0 {
      var i :| 0 <= i < |x| && x[i] == c;
      TilesInOrder(x, start, mid, i, i);
    }
    Relink(m, m', x, t, t', start, mid);
  }

  /** The head of the list after a splice. */
  lemma SpliceHead(x: Layout, b: Block, c: Layout, y: Layout, start: nat, end: nat)
    requires 0 < start && Tiles(x + [b] + y, start, end)
    ensures Chain(x + c + y, 0) == if LastFree(x) != 0 then Chain(x + [b] + y, 0) else Chain(c + y, 0)
  {
    Sides(x, b, y, start, end);
    assert x + [b] + y == x + ([b] + y) && x + c + y == x + (c + y);
    ChainConcat(x, c + y, 0);
    ChainConcat(x, [b] + y, 0);
    ChainOfLastFree(x, Chain(c + y, 0), Chain([b] + y, 0));
  }

  /** A block header as the service writes it, both reserved fields cleared. */
  function PokeHeader(m: seq<u8>, a: nat, size: u32, next: u32): (r: seq<u8>)
    requires a + HEADER_BYTES <= |m|
    ensures |r| == |m| && Le32(r, a) == size && Le32(r, a + 4) == next
    ensures forall i :: 0 <= i < |m| && !(a <= i < a + HEADER_BYTES) ==> r[i] == m[i]
  {
    var r := Poke32(Poke32(m, a, size), a + 4, next);
    Poke32(Poke32(r, a + 8, 0), a + 12, 0)
  }

  lemma LinkedOne(m: seq<u8>, b: Block, tail: nat)
    requires b.addr + HEADER_BYTES <= |m| && Le32(m, b.addr) == b.size
    requires b.free ==> Le32(m, b.addr + 4) == tail
    ensures Linked(m, [b], tail)
    ensures Chain([b], tail) == if b.free then b.addr else tail
  {
    assert [b][1..] == [];
  }

  lemma LinkedCarve(m: seq<u8>, b: Block, needed: nat, tail: nat)
    requires b.size >= needed && b.addr + b.size <= |m|
    requires b.addr + HEADER_BYTES <= |m| && Le32(m, b.addr) == Carve(b, needed)[0].size
    requires b.size - needed >= HEAP_MIN_BLOCK
             ==> Le32(m, b.addr + needed) == b.size - needed && Le32(m, b.addr + needed + 4) == tail
    ensures Linked(m, Carve(b, needed), tail)
    ensures Chain(Carve(b, needed), tail) == if b.size - needed >= HEAP_MIN_BLOCK then b.addr + needed else tail
  {
    var c := Carve(b, needed);
    if |c| == 2 {
      LinkedOne(m, c[1], tail);
      assert c == [c[0]] + [c[1]];
      LinkedOne(m, c[0], c[1].addr);
      LinkedConcat(m, [c[0]], [c[1]], tail);
      ChainConcat([c[0]], [c[1]], tail);
    } else {
      LinkedOne(m, c[0], tail);
    }
  }

  lemma LiveApart(m: seq<u8>, m': seq<u8>, x: Layout, b: Block, y: Layout, q: nat, start: nat, end: nat)
    requires 0 < start && end <= |m| && Tiles(x + [b] + y, start, end)
    requires b.addr <= q && q + HEADER_BYTES <= b.addr + b.size
    requires OnlyHeaders(m, m', LastFree(x), b.addr, q)
    ensures KeepsLive(m, m', x + y) && KeepsOutside(m, m', start, end)
    ensures b.free ==> KeepsLive(m, m', x + [b] + y)
  {
    Sides(x, b, y, start, end);
    if LastFree(x) != 0 {
      LastFreeIsIn(x);
      LastFreeAddress(x, b, y, start, end);
    }
    forall c, a | c in x + y && !c.free && c.addr <= a < c.addr + c.size && a < |m| ensures m'[a] == m[a] {
    }
  }

  lemma LastFreeAddress(x: Layout, b: Block, y: Layout, start: nat, end: nat)
    requires 0 < start && Tiles(x + [b] + y, start, end) && LastFree(x) != 0
    ensures forall c :: c in x && !c.free ==> c.addr + c.size <= LastFree(x) || LastFree(x) + HEADER_BYTES <= c.addr
  {
    Sides(x, b, y, start, end);
    LastFreeIsIn(x);
    var d :| d in x && d.free && d.addr == LastFree(x);
    forall c | c in x && !c.free
      ensures c.addr + c.size <= LastFree(x) || LastFree(x) + HEADER_BYTES <= c.addr
    {
      var i :| 0 <= i < |x| && x[i] == c;
      var j :| 0 <= j < |x| && x[j] == d;
      TilesInOrder(x + [b] + y, start, end, if i < j then i else j, if i < j then j else i);
    }
  }

  lemma LastFreeBefore(x: Layout, b: Block, y: Layout, start: nat, end: nat)
    requires 0 < start && Tiles(x + [b] + y, start, end)
    ensures LastFree(x) != 0 ==> LastFree(x) + HEADER_BYTES <= b.addr
  {
    Sides(x, b, y, start, end);
    if LastFree(x) != 0 {
      LastFreeIsIn(x);
    }
  }

  /** A field survives a store elsewhere. */
  lemma PokeElsewhere(m: seq<u8>, a: nat, value: u32, b: nat)
    requires a + 4 <= |m| && b + 4 <= |m| && (a + 4 <= b || b + 4 <= a)
    ensures Le32(Poke32(m, a, value), b) == Le32(m, b)
  {
  }

  /** Clearing the link and the reserved fields of a block handed out. */
  function ClearLink(m: seq<u8>, a: nat): (r: seq<u8>)
    requires a + HEADER_BYTES <= |m|
    ensures |r| == |m| && Le32(r, a) == Le32(m, a)
    ensures forall i :: 0 <= i < |m| && !(a + 4 <= i < a + HEADER_BYTES) ==> r[i] == m[i]
  {
    Poke32(Poke32(Poke32(m, a + 4, 0), a + 8, 0), a + 12, 0)
  }

  /** The header of a block handed out has no link, and its reserved words are 0. */
  predicate Unlinked(m: seq<u8>, a: nat) {
    a + 16 <= |m| && Le32(m, a + 4) == 0 && Le32(m, a + 8) == 0 && Le32(m, a + 12) == 0
  }

  lemma ClearLinkIs(m: seq<u8>, a: nat)
    requires a + HEADER_BYTES <= |m|
    ensures Unlinked(ClearLink(m, a), a)
  {
    hide Poke32, Le32;
    var m1 := Poke32(m, a + 4, 0);
    var m2 := Poke32(m1, a + 8, 0);
    SameBytesSameWord(m1, m2, a + 4);
    SameBytesSameWord(m2, Poke32(m2, a + 12, 0), a + 4);
    SameBytesSameWord(m2, Poke32(m2, a + 12, 0), a + 8);
  }

  /** Memory after a block at `cur` was split, linked around and handed out. */
  lemma SplitEffect(m: seq<u8>, cur: u32, prev: u32, next: u32, size: u32, needed: u32)
    requires HEAP_MIN_BLOCK <= needed && needed + HEAP_MIN_BLOCK <= size && cur + size <= |m| < TWO32
    requires prev != 0 ==> prev + HEADER_BYTES <= cur
    ensures var m1 := PokeHeader(m, cur + needed, size - needed, next);
            var m2 := if prev != 0 then Poke32(m1, prev + 4, cur + needed) else m1;
            var m' := ClearLink(Poke32(m2, cur, needed), cur);
            && OnlyHeaders(m, m', prev, cur, cur + needed)
            && Le32(m', cur) == needed
            && Le32(m', cur + needed) == size - needed && Le32(m', cur + needed + 4) == next
            && (prev != 0 ==> Le32(m', prev + 4) == cur + needed)
  {
    hide Poke32, PokeHeader, ClearLink, Le32;
    var m1 := PokeHeader(m, cur + needed, size - needed, next);
    var m2 := if prev != 0 then Poke32(m1, prev + 4, cur + needed) else m1;
    var m3 := Poke32(m2, cur, needed);
    SplitParts(m1, cur, prev, needed);
    PokeElsewhere(m2, cur, needed, cur + needed);
    PokeElsewhere(m2, cur, needed, cur + needed + 4);
    SameBytesSameWord(m3, ClearLink(m3, cur), cur + needed);
    SameBytesSameWord(m3, ClearLink(m3, cur), cur + needed + 4);
    if prev != 0 {
      PokeElsewhere(m2, cur, needed, prev + 4);
      SameBytesSameWord(m3, ClearLink(m3, cur), prev + 4);
    }
  }

  /** Linking the predecessor to the new block leaves the new header alone. */
  lemma SplitParts(m: seq<u8>, cur: u32, prev: u32, needed: u32)
    requires cur + needed + HEADER_BYTES <= |m| < TWO32 && needed >= HEAP_MIN_BLOCK
    requires prev != 0 ==> prev + HEADER_BYTES <= cur
    ensures prev != 0 ==>
              var r := Poke32(m, prev + 4, cur + needed);
              Le32(r, cur + needed) == Le32(m, cur + needed) && Le32(r, cur + needed + 4) == Le32(m, cur + needed + 4)
  {
    hide Poke32, Le32;
    if prev != 0 {
      PokeElsewhere(m, prev + 4, cur + needed, cur + needed);
      PokeElsewhere(m, prev + 4, cur + needed, cur + needed + 4);
    }
  }

  /** Memory after a whole block at `cur` was linked around and handed out. */
  lemma WholeEffect(m: seq<u8>, cur: u32, prev: u32, next: u32)
    requires cur + HEADER_BYTES <= |m| < TWO32
    requires prev != 0 ==> prev + HEADER_BYTES <= cur
    ensures var m2 := if prev != 0 then Poke32(m, prev + 4, next) else m;
            var m' := ClearLink(m2, cur);
            && OnlyHeaders(m, m', prev, cur, cur)
            && Le32(m', cur) == Le32(m, cur)
            && (prev != 0 ==> Le32(m', prev + 4) == next)
  {
    hide Poke32, ClearLink, Le32;
    if prev != 0 {
      var m2 := Poke32(m, prev + 4, next);
      PokeElsewhere(m, prev + 4, next, cur);
      SameBytesSameWord(m2, ClearLink(m2, cur), prev + 4);
    }
  }

  lemma LinkedParts(m: seq<u8>, x: Layout, b: Block, y: Layout)
    requires Linked(m, x + [b] + y, 0)
    ensures Linked(m, x, Chain([b] + y, 0)) && Linked(m, [b], Chain(y, 0)) && Linked(m, y, 0)
  {
    assert x + [b] + y == x + ([b] + y);
    LinkedConcat(m, x, [b] + y, 0);
    LinkedConcat(m, [b], y, 0);
  }

  /** What handing out a block does to the list, given what it did to memory. */
  lemma TakeResult(m: seq<u8>, m': seq<u8>, x: Layout, b: Block, y: Layout, needed: nat, start: nat, end: nat)
    requires 0 < start && end <= |m| == |m'| && Tiles(x + [b] + y, start, end) && Linked(m, x + [b] + y, 0)
    requires b.free && HEAP_MIN_BLOCK <= needed <= b.size && needed % HEAP_ALIGN == 0
    requires b.addr + b.size <= |m'| && HEAP_MIN_BLOCK <= b.size
    requires LastFree(x) != 0 ==> LastFree(x) + HEADER_BYTES <= b.addr
    requires var split := b.size - needed >= HEAP_MIN_BLOCK;
             && OnlyHeaders(m, m', LastFree(x), b.addr, if split then b.addr + needed else b.addr)
             && Le32(m', b.addr) == Carve(b, needed)[0].size
             && (split ==> Le32(m', b.addr + needed) == b.size - needed
                           && Le32(m', b.addr + needed + 4) == Chain(y, 0))
             && (LastFree(x) != 0 ==> Le32(m', LastFree(x) + 4) == Chain(Carve(b, needed) + y, 0))
    ensures Tiles(x + Carve(b, needed) + y, start, end)
    ensures Linked(m', x + Carve(b, needed) + y, 0)
    ensures Chain(x + Carve(b, needed) + y, 0)
            == if LastFree(x) != 0 then Chain(x + [b] + y, 0) else Chain(Carve(b, needed) + y, 0)
    ensures KeepsLive(m, m', x + [b] + y) && KeepsOutside(m, m', start, end)
  {
    hide Linked, Chain, Tiles, LastFree, Le32, OnlyHeaders, KeepsLive, KeepsOutside;
    var c := Carve(b, needed);
    var q := if b.size - needed >= HEAP_MIN_BLOCK then b.addr + needed else b.addr;
    CarveInTiles(x, b, y, needed, start, end);
    LinkedCarve(m', b, needed, Chain(y, 0));
    LinkedParts(m, x, b, y);
    Splice(m, m', x, Chain([b] + y, 0), b, c, y, q, start, end);
    SpliceHead(x, b, c, y, start, end);
    LiveApart(m, m', x, b, y, q, start, end);
  }

  /** The stores that hand out a block of `size` bytes at `cur`, split when that leaves room for another. */
  function Taken(m: seq<u8>, cur: u32, prev: u32, next: u32, size: u32, needed: u32): seq<u8>
    requires HEAP_MIN_BLOCK <= needed <= size && cur + size <= |m| < TWO32
    requires prev != 0 ==> prev + HEADER_BYTES <= cur
  {
    if size - needed >= HEAP_MIN_BLOCK then
      var m1 := PokeHeader(m, cur + needed, size - needed, next);
      var m2 := if prev != 0 then Poke32(m1, prev + 4, cur + needed) else m1;
      ClearLink(Poke32(m2, cur, needed), cur)
    else
      ClearLink(if prev != 0 then Poke32(m, prev + 4, next) else m, cur)
  }

  lemma TakenIs(m: seq<u8>, prev: u32, next: u32, x: Layout, b: Block, y: Layout, needed: u32, start: nat, end: nat)
    requires 0 < start && end <= |m| < TWO32 && Tiles(x + [b] + y, start, end) && Linked(m, x + [b] + y, 0)
    requires b.free && HEAP_MIN_BLOCK <= needed <= b.size && needed % HEAP_ALIGN == 0
    requires prev == LastFree(x) && next == Chain(y, 0)
    ensures b.addr + b.size <= |m| && Le32(m, b.addr) == b.size && (prev != 0 ==> prev + HEADER_BYTES <= b.addr)
    ensures var m' := Taken(m, b.addr, prev, next, b.size, needed);
            var l := x + Carve(b, needed) + y;
            && |m'| == |m| && Tiles(l, start, end) && Linked(m', l, 0)
            && Chain(l, 0) == (if prev != 0 then Chain(x + [b] + y, 0)
                               else if b.size - needed >= HEAP_MIN_BLOCK then b.addr + needed else next)
            && KeepsLive(m, m', x + [b] + y) && KeepsOutside(m, m', start, end)
  {
    hide Linked, Chain, Tiles, LastFree, Poke32, PokeHeader, ClearLink, KeepsLive, KeepsOutside, OnlyHeaders, Le32;
    assert (x + [b] + y)[|x|] == b;
    HeaderAt(m, x + [b] + y, |x|);
    Sides(x, b, y, start, end);
    LastFreeBefore(x, b, y, start, end);
    CarveChain(b, needed, y);
    if b.size - needed >= HEAP_MIN_BLOCK {
      SplitEffect(m, b.addr, prev, next, b.size, needed);
    } else {
      WholeEffect(m, b.addr, prev, next);
    }
    TakeResult(m, Taken(m, b.addr, prev, next, b.size, needed), x, b, y, needed, start, end);
  }

  lemma CarveChain(b: Block, needed: nat, y: Layout)
    requires b.size >= needed
    ensures Chain(Carve(b, needed) + y, 0)
            == if b.size - needed >= HEAP_MIN_BLOCK then b.addr + needed else Chain(y, 0)
  {
    var c := Carve(b, needed);
    ChainConcat(c, y, 0);
    if |c| == 2 {
      assert c[1..] == [c[1]];
    } else {
      assert c[1..] == [];
    }
  }

  // ---------- Freeing ----------

  predicate CanCoalesce(m: seq<u8>, a: nat) {
    && a + HEADER_BYTES <= |m|
    && (Le32(m, a + 4) != 0 && a + Le32(m, a) == Le32(m, a + 4)
        ==> Le32(m, a + 4) + HEADER_BYTES <= |m| && Le32(m, a) + Le32(m, Le32(m, a + 4)) < TWO32)
  }

  /** The block at `a` swallows its successor in the list if that is adjacent. */
  function Coalesce(m: seq<u8>, a: nat): (r: seq<u8>)
    requires CanCoalesce(m, a)
    ensures |r| == |m|
  {
    var size, next: nat := Le32(m, a), Le32(m, a + 4);
    if next == 0 || a + size != next then m
    else Poke32(Poke32(m, a, size + Le32(m, next)), a + 4, Le32(m, next + 4))
  }

  /** Memory after the block at `a` was hooked in between `prev` and `cur`, before any merging. */
  function HookIn(m: seq<u8>, a: nat, prev: nat, cur: u32): (r: seq<u8>)
    requires a + HEADER_BYTES <= |m| < TWO32 && (prev != 0 ==> prev + HEADER_BYTES <= a)
    ensures |r| == |m|
    ensures OnlyHeaders(m, r, prev, a, a)
    ensures Le32(r, a) == Le32(m, a) && Le32(r, a + 4) == cur
    ensures prev != 0 ==> Le32(r, prev) == Le32(m, prev) && Le32(r, prev + 4) == a
  {
    var m1 := Poke32(m, a + 4, cur);
    PokeElsewhere(m, a + 4, cur, a);
    if prev != 0 then
      PokeElsewhere(m, a + 4, cur, prev);
      PokeElsewhere(m1, prev + 4, a, prev);
      PokeElsewhere(m1, prev + 4, a, a);
      PokeElsewhere(m1, prev + 4, a, a + 4);
      Poke32(m1, prev + 4, a)
    else m1
  }

  lemma HookInIs(m: seq<u8>, a: nat, prev: nat, cur: u32)
    requires a + HEADER_BYTES <= |m| < TWO32 && (prev != 0 ==> prev + HEADER_BYTES <= a)
    ensures HookIn(m, a, prev, cur)
            == if prev != 0 then Poke32(Poke32(m, a + 4, cur), prev + 4, a) else Poke32(m, a + 4, cur)
  {
  }

  lemma SameField(m: seq<u8>, m': seq<u8>, a: nat)
    requires |m| == |m'| && a + 4 <= |m| && m[a] == m'[a] && m[a + 1] == m'[a + 1]
    requires m[a + 2] == m'[a + 2] && m[a + 3] == m'[a + 3]
    ensures Le32(m', a) == Le32(m, a)
  {
    SameBytesSameWord(m, m', a);
  }

  lemma CoalesceFar(m: seq<u8>, a: nat)
    requires a + HEADER_BYTES <= |m|
    requires Le32(m, a + 4) == 0 || a + Le32(m, a) != Le32(m, a + 4)
    ensures CanCoalesce(m, a) && Coalesce(m, a) == m
  {
  }

  lemma CoalesceNear(m: seq<u8>, a: nat)
    requires a + HEADER_BYTES <= |m| && Le32(m, a + 4) != 0 && a + Le32(m, a) == Le32(m, a + 4)
    requires Le32(m, a) >= HEAP_MIN_BLOCK && Le32(m, a + 4) + HEADER_BYTES <= |m| < TWO32
    requires Le32(m, a) + Le32(m, Le32(m, a + 4)) < TWO32
    ensures CanCoalesce(m, a)
    ensures var next, m' := Le32(m, a + 4), Coalesce(m, a);
            && Le32(m', a) == Le32(m, a) + Le32(m, next)
            && Le32(m', a + 4) == Le32(m, next + 4)
    ensures forall i :: 0 <= i < |m| && !(a <= i < a + 8) ==> Coalesce(m, a)[i] == m[i]
  {
    hide Poke32;
    var next := Le32(m, a + 4);
    PokeElsewhere(Poke32(m, a, Le32(m, a) + Le32(m, next)), a + 4, Le32(m, next + 4), a);
  }

  /** The predecessor is adjacent: it absorbs the block. What then happens to the absorbed header is harmless. */
  lemma FreeIntoPrev(m: seq<u8>, a: nat, size: nat, prev: nat, cur: u32)
    requires 0 < prev && prev + HEAP_MIN_BLOCK <= a && HEAP_MIN_BLOCK <= size && a + size <= |m| < TWO32
    requires Le32(m, a) == size && Le32(m, prev) == a - prev
    requires cur != 0 ==> a + size <= cur && cur + HEADER_BYTES <= |m| && cur + Le32(m, cur) <= |m|
    ensures var m1 := HookIn(m, a, prev, cur);
            && CanCoalesce(m1, prev)
            && (var m2 := Coalesce(m1, prev);
                && CanCoalesce(m2, a)
                && (var m' := Coalesce(m2, a);
                    && OnlyHeaders(m, m', 0, prev, a)
                    && Le32(m', prev) == a - prev + size && Le32(m', prev + 4) == cur))
  {
    hide Coalesce, CanCoalesce, HookIn, Poke32, Le32;
    var m1 := HookIn(m, a, prev, cur);
    CoalesceNear(m1, prev);
    var m2 := Coalesce(m1, prev);
    SameField(m1, m2, a);
    SameField(m1, m2, a + 4);
    if cur == 0 || a + size != cur {
      CoalesceFar(m2, a);
    } else {
      SameField(m, m2, cur);
      CoalesceNear(m2, a);
      SameField(m2, Coalesce(m2, a), prev);
      SameField(m2, Coalesce(m2, a), prev + 4);
    }
  }

  /** No adjacent predecessor: the block stands alone or absorbs an adjacent successor. */
  lemma FreeNotIntoPrev(m: seq<u8>, a: nat, size: nat, prev: nat, cur: u32)
    requires HEAP_MIN_BLOCK <= size && a + size <= |m| < TWO32 && Le32(m, a) == size
    requires prev != 0 ==> prev + HEADER_BYTES <= a && prev + Le32(m, prev) != a
    requires cur != 0 ==> a + size <= cur && cur + HEADER_BYTES <= |m| && cur + Le32(m, cur) <= |m|
    ensures var m1 := HookIn(m, a, prev, cur);
            && (prev != 0 ==> CanCoalesce(m1, prev) && Coalesce(m1, prev) == m1)
            && CanCoalesce(m1, a)
            && (var m' := Coalesce(m1, a);
                && OnlyHeaders(m, m', prev, a, a)
                && (prev != 0 ==> Le32(m', prev + 4) == a)
                && (if cur != 0 && a + size == cur
                    then Le32(m', a) == size + Le32(m, cur) && Le32(m', a + 4) == Le32(m, cur + 4)
                    else Le32(m', a) == size && Le32(m', a + 4) == cur))
  {
    hide Coalesce, CanCoalesce, HookIn, Poke32, Le32;
    var m1 := HookIn(m, a, prev, cur);
    if prev != 0 {
      CoalesceFar(m1, prev);
    }
    if cur == 0 || a + size != cur {
      CoalesceFar(m1, a);
    } else {
      SameField(m, m1, cur);
      SameField(m, m1, cur + 4);
      CoalesceNear(m1, a);
      if prev != 0 {
        SameField(m1, Coalesce(m1, a), prev + 4);
      }
    }
  }

  /** A free block `b` now covers the stretch between `x` and `y`. */
  lemma FreeSplice(m: seq<u8>, m': seq<u8>, x: Layout, t: nat, b: Block, y: Layout, q: nat, start: nat, end: nat)
    requires 0 < start && end <= |m| == |m'| && Tiles(x + [b] + y, start, end) && b.free
    requires Linked(m, x, t) && Linked(m, y, 0)
    requires b.addr <= q && q + HEADER_BYTES <= b.addr + b.size <= |m|
    requires OnlyHeaders(m, m', LastFree(x), b.addr, q)
    requires Le32(m', b.addr) == b.size && Le32(m', b.addr + 4) == Chain(y, 0)
    requires LastFree(x) != 0 ==> LastFree(x) + 8 <= |m| && Le32(m', LastFree(x) + 4) == b.addr
    ensures Linked(m', x + [b] + y, 0) && KeepsLive(m, m', x + [b] + y) && KeepsOutside(m, m', start, end)
    ensures Chain(x + [b] + y, 0) == Chain(x, b.addr)
  {
    hide KeepsOutside, OnlyHeaders, KeepsLive, Linked, Tiles, LastFree, Le32;
    LinkedOne(m', b, Chain(y, 0));
    ChainConcat([b], y, 0);
    Splice(m, m', x, t, b, [b], y, q, start, end);
    assert x + [b] + y == x + ([b] + y);
    ChainConcat(x, [b] + y, 0);
    LiveApart(m, m', x, b, y, q, start, end);
  }

  /** What the list and memory say about the surroundings of a block in use. */
  lemma Surroundings(m: seq<u8>, x: Layout, b: Block, y: Layout, start: nat, end: nat)
    requires 0 < start && end <= |m| && Tiles(x + [b] + y, start, end) && Linked(m, x + [b] + y, 0) && !b.free
    ensures WellSized(b) && b.addr + b.size <= |m| && Le32(m, b.addr) == b.size
    ensures Linked(m, y, 0) && Linked(m, x, Chain(y, 0))
    ensures var prev := LastFree(x);
            && (prev == 0 ==> forall c :: c in x ==> !c.free)
            && (prev != 0 ==> prev + HEAP_MIN_BLOCK <= b.addr && Le32(m, prev + 4) == Chain(y, 0))
            && (x != [] && x[|x| - 1].free ==> prev == x[|x| - 1].addr && Le32(m, prev) == b.addr - prev)
            && (prev != 0 ==> x != [])
            && (prev != 0 && !x[|x| - 1].free ==> prev + Le32(m, prev) != b.addr)
  {
    hide Linked, Le32, Tiles, LastFree;
    LinkedParts(m, x, b, y);
    HeaderAt(m, x + [b] + y, |x|);
    Sides(x, b, y, start, end);
    assert Chain([b] + y, 0) == Chain(y, 0) by {
      ChainConcat([b], y, 0);
      assert [b][1..] == [];
    }
    forall c | c in x ensures c.addr > 0 {
    }
    if LastFree(x) != 0 {
      LastFreeIsIn(x);
      LastLink(m, x, Chain(y, 0));
      PredecessorAdjacent(m, x, b, y, start, end);
    } else {
      NoLastFree(x);
      assert x != [] ==> x[|x| - 1] in x;
    }
  }

  lemma {:induction false} NoLastFree(l: Layout)
    requires LastFree(l) == 0 && forall c :: c in l ==> c.addr > 0
    ensures forall c :: c in l ==> !c.free
    decreases |l|
  {
    if l != [] {
      NoLastFree(l[1..]);
      forall c | c in l ensures !c.free {
        assert c == l[0] || c in l[1..];
      }
    }
  }

  lemma PredecessorAdjacent(m: seq<u8>, x: Layout, b: Block, y: Layout, start: nat, end: nat)
    requires 0 < start && end <= |m| && Tiles(x + [b] + y, start, end) && Linked(m, x + [b] + y, 0)
    requires LastFree(x) != 0
    ensures LastFree(x) + 4 <= |m|
    ensures var prev := LastFree(x);
            if x[|x| - 1].free then prev == x[|x| - 1].addr && Le32(m, prev) == b.addr - prev
            else prev + Le32(m, prev) != b.addr
  {
    hide Linked, Chain, Le32, Tiles, LastFree;
    var l := x + [b] + y;
    var last := |x| - 1;
    LastFreeIsIn(x);
    var d :| d in x && d.free && d.addr == LastFree(x);
    var j :| 0 <= j < |x| && x[j] == d;
    assert l[j] == d && l[last] == x[last] && l[last + 1] == b;
    HeaderAt(m, l, j);
    if x[last].free {
      TilesTouch(x, b, y, start, end);
      LastFreeAtEnd(x);
      HeaderAt(m, l, last);
    } else {
      TilesInOrder(l, start, end, j, last);
      TilesInOrder(l, start, end, last, last + 1);
    }
  }

  lemma LastFreeAtEnd(x: Layout)
    requires x != [] && x[|x| - 1].free && x[|x| - 1].addr > 0
    ensures LastFree(x) == x[|x| - 1].addr
  {
    var last := |x| - 1;
    assert x == x[..last] + [x[last]];
    LastFreeConcat(x[..last], [x[last]]);
    assert [x[last]][1..] == [];
  }

  lemma TilesTouch(x: Layout, b: Block, y: Layout, start: nat, end: nat)
    requires Tiles(x + [b] + y, start, end) && x != [] && 0 < start
    ensures x[|x| - 1].addr + x[|x| - 1].size == b.addr && x[|x| - 1].addr > 0
  {
    assert x + [b] + y == x + ([b] + y);
    var mid := TilesSplit(x, [b] + y, start, end);
    TilesInOrder(x + [b] + y, start, end, |x| - 1, |x|);
  }

  /** Memory after a whole call to free, with `prev` and `cur` the free blocks around `a`. */
  function FreeImage(m: seq<u8>, a: nat, prev: nat, cur: u32): (r: Option<seq<u8>>)
    requires a + HEADER_BYTES <= |m| < TWO32 && (prev != 0 ==> prev + HEADER_BYTES <= a)
  {
    var m1 := HookIn(m, a, prev, cur);
    if prev != 0 && !CanCoalesce(m1, prev) then None
    else
      var m2 := if prev != 0 then Coalesce(m1, prev) else m1;
      if CanCoalesce(m2, a) then Some(Coalesce(m2, a)) else None
  }

  /** What the list and memory say about what follows a block. */
  lemma Successor(m: seq<u8>, x: Layout, b: Block, y: Layout, start: nat, end: nat)
    requires 0 < start && end <= |m| < TWO32 && Tiles(x + [b] + y, start, end) && Linked(m, y, 0)
    ensures var cur := Chain(y, 0);
            && (cur != 0 ==> b.addr + b.size <= cur && cur + HEADER_BYTES <= |m| && cur + Le32(m, cur) <= |m|)
            && (if y != [] && y[0].free
                then cur == y[0].addr == b.addr + b.size && Le32(m, cur) == y[0].size
                     && Le32(m, cur + 4) == Chain(y[1..], 0)
                else cur == 0 || cur != b.addr + b.size)
  {
    hide Linked, Le32;
    assert x + [b] + y == x + ([b] + y);
    var mid := TilesSplit(x + [b], y, start, end);
    Sides(x, b, y, start, end);
    assert y[0..] == y;
    if Chain(y, 0) != 0 {
      var j := FirstFree(y, 0);
      HeaderAt(m, y, j);
      TilesInOrder(y, mid, end, 0, j);
      TilesInOrder(y, mid, end, j, j);
    }
    if y != [] {
      HeaderAt(m, y, 0);
    }
  }

  lemma ChainSame(x: Layout, b: Block, y: Layout)
    requires !b.free
    ensures Chain(x + [b] + y, 0) == Chain(x, Chain(y, 0))
  {
    assert x + [b] + y == x + ([b] + y) && ([b] + y)[1..] == y;
    ChainConcat(x, [b] + y, 0);
  }

  lemma FreeResultPrev(m: seq<u8>, u: Layout, p: Block, b: Block, y: Layout, start: nat, end: nat)
    requires 0 < start && end <= |m| < TWO32 && Tiles(u + [p] + [b] + y, start, end)
    requires Linked(m, u + [p] + [b] + y, 0) && !b.free && p.free
    ensures Chain(y, 0) < TWO32 && b.addr + HEADER_BYTES <= |m| && p.addr + HEADER_BYTES <= b.addr
    ensures LastFree(u + [p]) == p.addr != 0
    ensures FreeImage(m, b.addr, p.addr, Chain(y, 0)).Some?
    ensures var m' := FreeImage(m, b.addr, p.addr, Chain(y, 0)).value;
            && |m'| == |m| && Linked(m', u + [Merge(p, b)] + y, 0) && KeepsLive(m, m', u + [Merge(p, b)] + y)
            && KeepsOutside(m, m', start, end)
    ensures Chain(u + [Merge(p, b)] + y, 0) == Chain(u + [p] + [b] + y, 0)
  {
    hide Linked, Tiles, LastFree, Le32, OnlyHeaders, KeepsLive, KeepsOutside, HookIn, Coalesce, CanCoalesce, Chain;
    hide Release, FreeImage;
    var x := u + [p];
    assert x[..|x| - 1] == u && x[|x| - 1] == p;
    Surroundings(m, x, b, y, start, end);
    Successor(m, x, b, y, start, end);
    MergedTiles(u, p, b, y, start, end);
    TilesTouch(x, b, y, start, end);
    LastFreeAtEnd(x);
    FreeIntoPrev(m, b.addr, b.size, p.addr, Chain(y, 0));
    FreeImageIntoPrev(m, b.addr, p.addr, Chain(y, 0));
    var m' := FreeImage(m, b.addr, p.addr, Chain(y, 0)).value;
    LinkedUpTo(m, u, p, b, y);
    MergedLink(m, m', u, p, b, y, start, end);
    FreeSplice(m, m', u, p.addr, Merge(p, b), y, b.addr, start, end);
  }

  lemma FreeImageIntoPrev(m: seq<u8>, a: nat, prev: nat, cur: u32)
    requires a + HEADER_BYTES <= |m| < TWO32 && 0 < prev && prev + HEADER_BYTES <= a
    requires CanCoalesce(HookIn(m, a, prev, cur), prev) && CanCoalesce(Coalesce(HookIn(m, a, prev, cur), prev), a)
    ensures FreeImage(m, a, prev, cur) == Some(Coalesce(Coalesce(HookIn(m, a, prev, cur), prev), a))
  {
    hide HookIn, Coalesce, CanCoalesce;
  }

  lemma MergedTiles(u: Layout, p: Block, b: Block, y: Layout, start: nat, end: nat)
    requires Tiles(u + [p] + [b] + y, start, end) && p.free
    ensures Tiles(u + [Merge(p, b)] + y, start, end)
  {
    hide Tiles;
    var x := u + [p];
    assert x[..|x| - 1] == u && x[|x| - 1] == p;
    ReleaseTiles(x, b, y, start, end);
  }

  /** The blocks before a free block `p` lead to it. */
  lemma LinkedUpTo(m: seq<u8>, u: Layout, p: Block, b: Block, y: Layout)
    requires Linked(m, u + [p] + [b] + y, 0) && p.free
    ensures Linked(m, u, p.addr) && Chain(u + [p] + [b] + y, 0) == Chain(u, p.addr)
  {
    hide Linked, Chain;
    assert u + [p] + ([b] + y) == u + [p] + [b] + y;
    LinkedParts(m, u, p, [b] + y);
    ChainHead(p, [b] + y);
    assert u + [p] + [b] + y == u + ([p] + ([b] + y));
    ChainConcat(u, [p] + ([b] + y), 0);
  }

  lemma ChainHead(p: Block, y: Layout)
    requires p.free
    ensures Chain([p] + y, 0) == p.addr
  {
  }

  /** Merging into the predecessor leaves the link that leads to it alone. */
  lemma MergedLink(m: seq<u8>, m': seq<u8>, u: Layout, p: Block, b: Block, y: Layout, start: nat, end: nat)
    requires 0 < start && end <= |m| && Tiles(u + [Merge(p, b)] + y, start, end) && Linked(m, u, p.addr)
    requires OnlyHeaders(m, m', 0, p.addr, b.addr) && p.addr <= b.addr
    ensures OnlyHeaders(m, m', LastFree(u), p.addr, b.addr)
    ensures LastFree(u) != 0 ==> LastFree(u) + 8 <= |m| && Le32(m', LastFree(u) + 4) == p.addr
  {
    hide Tiles, Linked, Le32;
    LastFreeBefore(u, Merge(p, b), y, start, end);
    Sides(u, Merge(p, b), y, start, end);
    forall c | c in u ensures c.addr > 0 {
    }
    if LastFree(u) != 0 {
      LastLink(m, u, p.addr);
      SameField(m, m', LastFree(u) + 4);
    }
  }

  lemma FreeResultNext(m: seq<u8>, x: Layout, b: Block, y: Layout, start: nat, end: nat)
    requires 0 < start && end <= |m| < TWO32 && Tiles(x + [b] + y, start, end) && Linked(m, x + [b] + y, 0) && !b.free
    requires (x != [] ==> !x[|x| - 1].free) && y != [] && y[0].free
    ensures Chain(y, 0) < TWO32 && b.addr + HEADER_BYTES <= |m|
    ensures LastFree(x) != 0 ==> LastFree(x) + HEADER_BYTES <= b.addr
    ensures FreeImage(m, b.addr, LastFree(x), Chain(y, 0)).Some?
    ensures var m' := FreeImage(m, b.addr, LastFree(x), Chain(y, 0)).value;
            && |m'| == |m| && Linked(m', x + [Merge(b, y[0])] + y[1..], 0)
            && KeepsLive(m, m', x + [Merge(b, y[0])] + y[1..])
            && KeepsOutside(m, m', start, end)
    ensures Chain(x + [Merge(b, y[0])] + y[1..], 0) == Chain(x, b.addr)
  {
    hide Linked, Tiles, LastFree, Le32, OnlyHeaders, KeepsLive, KeepsOutside, HookIn, Coalesce, CanCoalesce, Chain;
    Surroundings(m, x, b, y, start, end);
    Successor(m, x, b, y, start, end);
    ReleaseTiles(x, b, y, start, end);
    FreeNotIntoPrev(m, b.addr, b.size, LastFree(x), Chain(y, 0));
    var m' := FreeImage(m, b.addr, LastFree(x), Chain(y, 0)).value;
    assert y == [y[0]] + y[1..];
    LinkedConcat(m, [y[0]], y[1..], 0);
    Sides(x, Merge(b, y[0]), y[1..], start, end);
    FreeSplice(m, m', x, Chain(y, 0), Merge(b, y[0]), y[1..], b.addr, start, end);
  }

  lemma FreeResultAlone(m: seq<u8>, x: Layout, b: Block, y: Layout, start: nat, end: nat)
    requires 0 < start && end <= |m| < TWO32 && Tiles(x + [b] + y, start, end) && Linked(m, x + [b] + y, 0) && !b.free
    requires (x != [] ==> !x[|x| - 1].free) && (y != [] ==> !y[0].free)
    ensures Chain(y, 0) < TWO32 && b.addr + HEADER_BYTES <= |m|
    ensures LastFree(x) != 0 ==> LastFree(x) + HEADER_BYTES <= b.addr
    ensures FreeImage(m, b.addr, LastFree(x), Chain(y, 0)).Some?
    ensures var m' := FreeImage(m, b.addr, LastFree(x), Chain(y, 0)).value;
            && |m'| == |m| && Linked(m', x + [b.(free := true)] + y, 0)
            && KeepsLive(m, m', x + [b.(free := true)] + y)
            && KeepsOutside(m, m', start, end)
    ensures Chain(x + [b.(free := true)] + y, 0) == Chain(x, b.addr)
  {
    hide Linked, Tiles, LastFree, Le32, OnlyHeaders, KeepsLive, KeepsOutside, HookIn, Coalesce, CanCoalesce, Chain;
    Surroundings(m, x, b, y, start, end);
    Successor(m, x, b, y, start, end);
    ReleaseTiles(x, b, y, start, end);
    FreeNotIntoPrev(m, b.addr, b.size, LastFree(x), Chain(y, 0));
    var m' := FreeImage(m, b.addr, LastFree(x), Chain(y, 0)).value;
    FreeSplice(m, m', x, Chain(y, 0), b.(free := true), y, b.addr, start, end);
  }

  /** Freeing `b` is well defined and leaves exactly the blocks of `Release`, linked, with live ones untouched. */
  lemma FreeResult(m: seq<u8>, x: Layout, b: Block, y: Layout, start: nat, end: nat)
    requires 0 < start && end <= |m| < TWO32 && Tiles(x + [b] + y, start, end) && Linked(m, x + [b] + y, 0) && !b.free
    ensures Chain(y, 0) < TWO32 && b.addr + HEADER_BYTES <= |m|
    ensures LastFree(x) != 0 ==> LastFree(x) + HEADER_BYTES <= b.addr
    ensures FreeImage(m, b.addr, LastFree(x), Chain(y, 0)).Some?
    ensures var m' := FreeImage(m, b.addr, LastFree(x), Chain(y, 0)).value;
            && |m'| == |m| && Linked(m', Release(x, b, y), 0) && KeepsLive(m, m', Release(x, b, y))
            && KeepsOutside(m, m', start, end)
    ensures Chain(Release(x, b, y), 0) == if LastFree(x) == 0 then b.addr else Chain(x + [b] + y, 0)
  {
    hide Linked, Tiles, LastFree, Le32, KeepsLive, KeepsOutside, FreeImage, Chain;
    ChainSame(x, b, y);
    if x != [] && x[|x| - 1].free {
      assert x == x[..|x| - 1] + [x[|x| - 1]];
      FreeResultPrev(m, x[..|x| - 1], x[|x| - 1], b, y, start, end);
    } else {
      if y != [] && y[0].free {
        FreeResultNext(m, x, b, y, start, end);
      } else {
        FreeResultAlone(m, x, b, y, start, end);
      }
      Surroundings(m, x, b, y, start, end);
      Sides(x, b, y, start, end);
      ChainOfLastFree(x, b.addr, Chain(y, 0));
    }
  }

  // ---------- Resizing ----------

  /** Every block in use but the one with payload at `ptr` is the same in both images. */
  ghost predicate KeepsOthers(m: seq<u8>, m': seq<u8>, l: Layout, ptr: nat) {
    |m| == |m'| &&
    forall b, a :: b in Live(l) && b.addr + HEADER_BYTES != ptr && b.addr <= a < b.addr + b.size && a < |m|
                   ==> m'[a] == m[a]
  }

  /** `n` bytes at `from` before are found at `to` afterwards. */
  ghost predicate Carried(m: seq<u8>, m': seq<u8>, from: nat, to: nat, n: nat) {
    from + n <= |m| && to + n <= |m'| && m'[to..to + n] == m[from..from + n]
  }

  /** Of the first `size` bytes behind the header of `b` all that lie in `b` are found at `to` afterwards. */
  ghost predicate Brings(m: seq<u8>, m': seq<u8>, b: Block, to: nat, size: nat) {
    var from := b.addr + 16;
    forall a :: from <= a < from + size && a < b.addr + b.size ==>
                  a < |m| && to + (a - from) < |m'| && m'[to + (a - from)] == m[a]
  }

  lemma BroughtInPlace(m: seq<u8>, b: Block, size: nat)
    requires b.addr + b.size <= |m|
    ensures Brings(m, m, b, b.addr + HEADER_BYTES, size)
  {
  }

  lemma CarriedBrings(m: seq<u8>, m': seq<u8>, b: Block, to: nat, n: nat, size: nat)
    requires Carried(m, m', b.addr + HEADER_BYTES, to, n) && n + HEADER_BYTES == b.size
    ensures Brings(m, m', b, to, size)
  {
    var from := b.addr + HEADER_BYTES;
    forall a | from <= a < from + n ensures m'[to + (a - from)] == m[a] {
      assert m'[to..to + n][a - from] == m[from..from + n][a - from];
    }
  }

  lemma CarriedOneMore(m: seq<u8>, m': seq<u8>, from: nat, to: nat, n: nat)
    requires Carried(m, m', from, to, n) && from + n < |m| && to + n < |m'|
    ensures Carried(m, m'[to + n := m[from + n]], from, to, n + 1)
  {
    var r := m'[to + n := m[from + n]];
    assert r[to..to + n + 1] == m'[to..to + n] + [m[from + n]];
    assert m[from..from + n + 1] == m[from..from + n] + [m[from + n]];
  }

  lemma SameOthers(m: seq<u8>, l: Layout, ptr: nat)
    ensures KeepsOthers(m, m, l, ptr)
  {
  }

  lemma LiveOthers(m: seq<u8>, m': seq<u8>, l: Layout, ptr: nat)
    requires KeepsLive(m, m', l)
    ensures KeepsOthers(m, m', l, ptr)
  {
  }

  lemma FreedOthers(m: seq<u8>, m': seq<u8>, l: Layout, k: nat, start: nat, end: nat)
    requires Tiles(l, start, end) && IsLive(l, k) && KeepsLive(m, m', Free(l, k))
    ensures KeepsOthers(m, m', l, l[k].addr + HEADER_BYTES)
  {
    hide Free;
    FreeRemovesOne(l, k, start, end);
    forall b, a | b in Live(l) && b.addr != l[k].addr && b.addr <= a < b.addr + b.size && a < |m|
      ensures m'[a] == m[a]
    {
      assert b in Live(Free(l, k));
    }
  }

  /** Headers do not notice a change inside the payload of a block in use. */
  lemma PayloadWritten(m: seq<u8>, m': seq<u8>, l: Layout, b: Block, start: nat, end: nat)
    requires |m| == |m'| && end <= |m| && Tiles(l, start, end) && Linked(m, l, 0) && b in l
    requires forall a :: 0 <= a < |m| && !(b.addr + HEADER_BYTES <= a < b.addr + b.size) ==> m'[a] == m[a]
    ensures Linked(m', l, 0)
  {
    hide Tiles, Linked, Le32;
    forall c | c in l ensures c.addr + HEADER_BYTES <= |m| && SameHeader(m, m', c) {
      if c != b {
        Apart(l, c, b, start, end);
      }
      var i :| 0 <= i < |l| && l[i] == c;
      TilesInOrder(l, start, end, i, i);
      SameField(m, m', c.addr);
      SameField(m, m', c.addr + 4);
    }
    LinkedFrame(m, m', l, 0);
  }

  /** Allocate, copy, free: the contents arrive and all other blocks keep theirs. */
  lemma Moved(m0: seq<u8>, m1: seq<u8>, m2: seq<u8>, m3: seq<u8>, l0: Layout, l3: Layout,
              k: nat, to: Block, n: nat, start: nat, end: nat)
    requires Tiles(l0, start, end) && IsLive(l0, k) && end <= |m0| == |m1| == |m2| == |m3|
    requires n + HEADER_BYTES == l0[k].size <= to.size && to.addr + to.size <= |m0|
    requires Live(l3) == Live(l0) - {l0[k]} + {to}
    requires forall b :: b in Live(l0) ==> b.addr + b.size <= to.addr || to.addr + to.size <= b.addr
    requires KeepsLive(m0, m1, l0) && KeepsLive(m2, m3, l3)
    requires l0[k].addr + l0[k].size <= |m0|
    requires Carried(m1, m2, l0[k].addr + HEADER_BYTES, to.addr + HEADER_BYTES, n)
    requires forall a :: 0 <= a < |m1| && !(to.addr + HEADER_BYTES <= a < to.addr + HEADER_BYTES + n) ==> m2[a] == m1[a]
    ensures KeepsOthers(m0, m3, l0, l0[k].addr + HEADER_BYTES)
    ensures Carried(m0, m3, l0[k].addr + HEADER_BYTES, to.addr + HEADER_BYTES, n)
  {
    hide Tiles, KeepsLive, Live, Carried, KeepsOthers;
    LiveMember(l0, k);
    MovedContents(m0, m1, m2, m3, l0, l3, l0[k], to, n);
    hide IsLive;
    MovedOthers(m0, m1, m2, m3, l0, l3, l0[k], to, n);
  }

  lemma LiveByte(m: seq<u8>, m': seq<u8>, l: Layout, b: Block, a: nat)
    requires KeepsLive(m, m', l) && b in Live(l) && b.addr <= a < b.addr + b.size && a < |m|
    ensures a < |m'| && m'[a] == m[a]
  {
  }

  lemma MovedContents(m0: seq<u8>, m1: seq<u8>, m2: seq<u8>, m3: seq<u8>, l0: Layout, l3: Layout,
                      from: Block, to: Block, n: nat)
    requires |m0| == |m1| == |m2| == |m3| && from in Live(l0) && to in Live(l3)
    requires n + HEADER_BYTES == from.size <= to.size && to.addr + to.size <= |m0| && from.addr + from.size <= |m0|
    requires KeepsLive(m0, m1, l0) && KeepsLive(m2, m3, l3)
    requires Carried(m1, m2, from.addr + HEADER_BYTES, to.addr + HEADER_BYTES, n)
    ensures Carried(m0, m3, from.addr + HEADER_BYTES, to.addr + HEADER_BYTES, n)
  {
    hide KeepsLive, Live;
    var src, dst := from.addr + HEADER_BYTES, to.addr + HEADER_BYTES;
    forall a | dst <= a < dst + n ensures m3[a] == m0[a - dst + src] {
      LiveByte(m2, m3, l3, to, a);
      LiveByte(m0, m1, l0, from, a - dst + src);
      assert m2[dst..dst + n][a - dst] == m1[src..src + n][a - dst];
    }
  }

  lemma MovedOthers(m0: seq<u8>, m1: seq<u8>, m2: seq<u8>, m3: seq<u8>, l0: Layout, l3: Layout,
                    from: Block, to: Block, n: nat)
    requires |m0| == |m1| == |m2| == |m3| && n + HEADER_BYTES <= to.size
    requires Live(l3) == Live(l0) - {from} + {to}
    requires forall b :: b in Live(l0) ==> b.addr + b.size <= to.addr || to.addr + to.size <= b.addr
    requires KeepsLive(m0, m1, l0) && KeepsLive(m2, m3, l3)
    requires forall a :: 0 <= a < |m1| && !(to.addr + HEADER_BYTES <= a < to.addr + HEADER_BYTES + n) ==> m2[a] == m1[a]
    ensures KeepsOthers(m0, m3, l0, from.addr + HEADER_BYTES)
  {
    hide KeepsLive, Live;
    forall b, a | b in Live(l0) && b.addr != from.addr && b.addr <= a < b.addr + b.size && a < |m0|
      ensures m3[a] == m0[a]
    {
      LiveByte(m0, m1, l0, b, a);
      LiveByte(m2, m3, l3, b, a);
    }
  }
}
