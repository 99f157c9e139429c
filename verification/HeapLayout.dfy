/**
 * The shared heap as a division of its address range into blocks, and what allocating and freeing do to that
 * division. `HeapAllocator` refines these functions with headers kept in memory.
 */
module HeapLayout {
  import opened Words

  const HEAP_ALIGN := 16
  const HEAP_MIN_BLOCK := 32
  const HEADER_BYTES := 16

  datatype Block = Block(addr: nat, size: nat, free: bool)

  type Layout = seq<Block>

  predicate WellSized(b: Block) {
    b.size >= HEAP_MIN_BLOCK && b.size % HEAP_ALIGN == 0 && b.addr % HEAP_ALIGN == 0
  }

  /** The blocks follow each other without gap or overlap from `start` to `end`. */
  predicate Tiles(l: Layout, start: nat, end: nat)
    decreases |l|
  {
    if l == [] then start == end
    else l[0].addr == start && WellSized(l[0]) && Tiles(l[1..], start + l[0].size, end)
  }

  /** The bytes a request takes: its payload and a header, rounded up. */
  function Needed(size: nat): (r: nat)
    ensures r >= size + HEADER_BYTES && HEAP_MIN_BLOCK <= r <= size + 2 * HEAP_ALIGN && r % HEAP_ALIGN == 0
  {
    var n := AlignUp(size + HEADER_BYTES, HEAP_ALIGN);
    if n < HEAP_MIN_BLOCK then HEAP_MIN_BLOCK else n
  }

  /** Index of the first free block that is large enough, or `|l|`. */
  function FirstFit(l: Layout, needed: nat): (i: nat)
    ensures i <= |l|
    ensures i < |l| ==> l[i].free && l[i].size >= needed
    ensures forall j :: 0 <= j < i ==> !l[j].free || l[j].size < needed
    decreases |l|
  {
    if l == [] then 0
    else if l[0].free && l[0].size >= needed then 0
    else 1 + FirstFit(l[1..], needed)
  }

  /** What becomes of a free block that serves a request. */
  function Carve(b: Block, needed: nat): (r: Layout)
    requires b.size >= needed
    ensures r != []
  {
    if b.size - needed >= HEAP_MIN_BLOCK then
      [Block(b.addr, needed, false), Block(b.addr + needed, b.size - needed, true)]
    else [b.(free := false)]
  }

  function Alloc(l: Layout, size: nat): Layout {
    var i := FirstFit(l, Needed(size));
    if size == 0 || i == |l| then l else l[..i] + Carve(l[i], Needed(size)) + l[i + 1..]
  }

  function Merge(a: Block, b: Block): Block {
    Block(a.addr, a.size + b.size, true)
  }

  /** The division after freeing `b`, which lies between the blocks `x` and the blocks `y`. */
  function Release(x: Layout, b: Block, y: Layout): Layout {
    if x != [] && x[|x| - 1].free then x[..|x| - 1] + [Merge(x[|x| - 1], b)] + y
    else if y != [] && y[0].free then x + [Merge(b, y[0])] + y[1..]
    else x + [b.(free := true)] + y
  }

  function Free(l: Layout, k: nat): Layout
    requires k < |l|
  {
    Release(l[..k], l[k], l[k + 1..])
  }

  /** Index of the block whose payload starts at `ptr`, or `|l|`. */
  function IndexOf(l: Layout, ptr: nat): (k: nat)
    ensures k <= |l|
    ensures k < |l| ==> l[k].addr + HEADER_BYTES == ptr
    decreases |l|
  {
    if l == [] then 0
    else if l[0].addr + HEADER_BYTES == ptr then 0
    else 1 + IndexOf(l[1..], ptr)
  }

  /** Freeing by payload address; an address that is not a block in use changes nothing. */
  function FreePtr(l: Layout, ptr: nat): Layout {
    if IsLive(l, IndexOf(l, ptr)) then Free(l, IndexOf(l, ptr)) else l
  }

  /** The block that serves a request, when there is one. */
  function Served(l: Layout, size: nat): Block
    requires FirstFit(l, Needed(size)) < |l|
  {
    Carve(l[FirstFit(l, Needed(size))], Needed(size))[0]
  }

  /** The address an allocation returns: 0 when nothing was asked for or nothing fits. */
  function AllocPtr(l: Layout, size: nat): nat {
    if size == 0 || FirstFit(l, Needed(size)) == |l| then 0 else Served(l, size).addr + HEADER_BYTES
  }

  /** Usable bytes of the block at `ptr`. */
  function PayloadSize(l: Layout, ptr: nat): nat {
    var k := IndexOf(l, ptr);
    if k == |l| || l[k].size <= HEADER_BYTES then 0 else l[k].size - HEADER_BYTES
  }

  /** The address and the blocks after resizing the block at `ptr`. */
  function Resize(l: Layout, ptr: nat, size: nat): (nat, Layout) {
    if ptr == 0 then (AllocPtr(l, size), Alloc(l, size))
    else if size == 0 then (0, FreePtr(l, ptr))
    else if PayloadSize(l, ptr) >= size then (ptr, l)
    else if AllocPtr(l, size) == 0 then (0, l)
    else (AllocPtr(l, size), FreePtr(Alloc(l, size), ptr))
  }

  // ---------- Tiling ----------

  lemma {:induction false} TilesConcat(x: Layout, y: Layout, start: nat, mid: nat, end: nat)
    requires Tiles(x, start, mid) && Tiles(y, mid, end)
    ensures Tiles(x + y, start, end)
    decreases |x|
  {
    if x == [] {
      assert x + y == y;
    } else {
      assert (x + y)[1..] == x[1..] + y;
      TilesConcat(x[1..], y, start + x[0].size, mid, end);
    }
  }

  lemma {:induction false} TilesSplit(x: Layout, y: Layout, start: nat, end: nat) returns (mid: nat)
    requires Tiles(x + y, start, end)
    ensures start <= mid <= end && Tiles(x, start, mid) && Tiles(y, mid, end)
    ensures x != [] ==> mid == x[|x| - 1].addr + x[|x| - 1].size
    ensures y != [] ==> mid == y[0].addr
    decreases |x|
  {
    if x == [] {
      assert x + y == y;
      TilesUp(y, start, end);
      mid := start;
    } else {
      assert (x + y)[1..] == x[1..] + y;
      mid := TilesSplit(x[1..], y, start + x[0].size, end);
      if |x| == 1 {
        TilesUp(x[1..], start + x[0].size, mid);
      }
    }
  }

  lemma {:induction false} TilesUp(l: Layout, start: nat, end: nat)
    requires Tiles(l, start, end)
    ensures start <= end && (start % HEAP_ALIGN == 0 ==> end % HEAP_ALIGN == 0)
    decreases |l|
  {
    if l != [] {
      TilesUp(l[1..], start + l[0].size, end);
    }
  }

  /** Blocks lie inside the tiled range, in strictly increasing address order and apart from each other. */
  lemma {:induction false} TilesInOrder(l: Layout, start: nat, end: nat, i: nat, j: nat)
    requires Tiles(l, start, end) && i <= j < |l|
    ensures start <= l[i].addr && l[j].addr + l[j].size <= end && WellSized(l[i]) && WellSized(l[j])
    ensures i < j ==> l[i].addr + l[i].size <= l[j].addr
  {
    assert l == l[..j] + l[j..];
    var mid := TilesSplit(l[..j], l[j..], start, end);
    TilesUp(l[j..][1..], mid + l[j].size, end);
    if i < j {
      assert l[..j] == l[..i] + l[i..j];
      var at := TilesSplit(l[..i], l[i..j], start, mid);
      TilesUp(l[i..j][1..], at + l[i].size, mid);
    }
  }

  lemma TilesOne(b: Block, start: nat, end: nat)
    ensures Tiles([b], start, end) <==> b.addr == start && WellSized(b) && start + b.size == end
  {
    assert [b][1..] == [];
  }

  lemma TilesTwo(a: Block, b: Block, start: nat, end: nat)
    ensures Tiles([a, b], start, end) <==>
            a.addr == start && WellSized(a) && b.addr == start + a.size && WellSized(b) && b.addr + b.size == end
  {
    assert [a, b][1..] == [b];
    TilesOne(b, start + a.size, end);
  }

  /** Replacing the middle of a tiling by a tiling of the same range keeps the tiling. */
  lemma TilesReplace(x: Layout, before: Layout, after: Layout, y: Layout, start: nat, end: nat)
    requires Tiles(x + before + y, start, end)
    requires forall a, b :: Tiles(before, a, b) ==> Tiles(after, a, b)
    ensures Tiles(x + after + y, start, end)
  {
    var mid2 := TilesSplit(x + before, y, start, end);
    var mid1 := TilesSplit(x, before, start, mid2);
    TilesConcat(x, after, start, mid1, mid2);
    TilesConcat(x + after, y, start, mid2, end);
  }

  lemma CarveTiles(b: Block, needed: nat, start: nat, end: nat)
    requires Tiles([b], start, end) && HEAP_MIN_BLOCK <= needed <= b.size && needed % HEAP_ALIGN == 0
    ensures Tiles(Carve(b, needed), start, end)
  {
    TilesOne(b, start, end);
    if b.size - needed >= HEAP_MIN_BLOCK {
      TilesTwo(Block(b.addr, needed, false), Block(b.addr + needed, b.size - needed, true), start, end);
    } else {
      TilesOne(b.(free := false), start, end);
    }
  }

  lemma MergeTiles(a: Block, b: Block, start: nat, end: nat)
    requires Tiles([a, b], start, end)
    ensures Tiles([Merge(a, b)], start, end)
  {
    TilesTwo(a, b, start, end);
    TilesOne(Merge(a, b), start, end);
  }

  lemma CarveInTiles(x: Layout, b: Block, y: Layout, needed: nat, start: nat, end: nat)
    requires Tiles(x + [b] + y, start, end) && HEAP_MIN_BLOCK <= needed <= b.size && needed % HEAP_ALIGN == 0
    ensures Tiles(x + Carve(b, needed) + y, start, end)
  {
    forall s, e | Tiles([b], s, e) ensures Tiles(Carve(b, needed), s, e) {
      CarveTiles(b, needed, s, e);
    }
    TilesReplace(x, [b], Carve(b, needed), y, start, end);
  }

  lemma AllocTiles(l: Layout, size: nat, start: nat, end: nat)
    requires Tiles(l, start, end)
    ensures Tiles(Alloc(l, size), start, end)
  {
    var i := FirstFit(l, Needed(size));
    if size != 0 && i < |l| {
      assert l == l[..i] + [l[i]] + l[i + 1..];
      CarveInTiles(l[..i], l[i], l[i + 1..], Needed(size), start, end);
    }
  }

  lemma ReleaseTiles(x: Layout, b: Block, y: Layout, start: nat, end: nat)
    requires Tiles(x + [b] + y, start, end)
    ensures Tiles(Release(x, b, y), start, end)
  {
    if x != [] && x[|x| - 1].free {
      var u, p := x[..|x| - 1], x[|x| - 1];
      assert x + [b] + y == u + [p, b] + y;
      forall s, e | Tiles([p, b], s, e) ensures Tiles([Merge(p, b)], s, e) {
        MergeTiles(p, b, s, e);
      }
      TilesReplace(u, [p, b], [Merge(p, b)], y, start, end);
    } else if y != [] && y[0].free {
      assert x + [b] + y == x + [b, y[0]] + y[1..];
      forall s, e | Tiles([b, y[0]], s, e) ensures Tiles([Merge(b, y[0])], s, e) {
        MergeTiles(b, y[0], s, e);
      }
      TilesReplace(x, [b, y[0]], [Merge(b, y[0])], y[1..], start, end);
    } else {
      forall s, e | Tiles([b], s, e) ensures Tiles([b.(free := true)], s, e) {
        TilesOne(b, s, e);
        TilesOne(b.(free := true), s, e);
      }
      TilesReplace(x, [b], [b.(free := true)], y, start, end);
    }
  }

  // ---------- What is allocated ----------

  /** The blocks in use. Addresses identify them because blocks do not overlap. */
  function Live(l: Layout): set<Block> {
    set b | b in l && !b.free
  }

  predicate IsLive(l: Layout, k: nat) {
    k < |l| && !l[k].free
  }

  lemma LiveConcat(x: Layout, y: Layout)
    ensures Live(x + y) == Live(x) + Live(y)
  {
  }

  lemma LiveMiddle(x: Layout, c: Layout, y: Layout)
    ensures Live(x + c + y) == Live(x) + Live(c) + Live(y)
  {
    LiveConcat(x + c, y);
    LiveConcat(x, c);
  }

  lemma CarveLive(b: Block, needed: nat)
    requires b.free && b.size >= needed
    ensures Live([b]) == {} && Live(Carve(b, needed)) == {Carve(b, needed)[0]}
    ensures Carve(b, needed)[0].addr == b.addr && !Carve(b, needed)[0].free
    ensures needed <= Carve(b, needed)[0].size <= b.size && Carve(b, needed)[0].size < needed + HEAP_MIN_BLOCK
  {
    var c := Carve(b, needed);
    assert c == [c[0]] || (c == [c[0], c[1]] && c[1].free);
  }

  lemma UnionMiddle(x: set<Block>, b: Block, y: set<Block>)
    ensures x + {b} + y == (x + {} + y) + {b}
  {
  }

  lemma AroundIndex(l: Layout, i: nat)
    requires i < |l|
    ensures l == l[..i] + [l[i]] + l[i + 1..]
  {
  }

  lemma AllocLive(l: Layout, size: nat)
    requires size != 0 && FirstFit(l, Needed(size)) < |l|
    ensures Live(Alloc(l, size)) == Live(l) + {Served(l, size)}
  {
    hide FirstFit, Needed, Live, Carve;
    var needed := Needed(size);
    var i := FirstFit(l, needed);
    var c := Carve(l[i], needed);
    AroundIndex(l, i);
    LiveMiddle(l[..i], [l[i]], l[i + 1..]);
    LiveMiddle(l[..i], c, l[i + 1..]);
    CarveLive(l[i], needed);
    UnionMiddle(Live(l[..i]), c[0], Live(l[i + 1..]));
  }

  lemma NothingServed(l: Layout, size: nat)
    ensures size == 0 || FirstFit(l, Needed(size)) == |l| ==> Alloc(l, size) == l && AllocPtr(l, size) == 0
  {
    hide FirstFit, Needed, Carve;
  }

  /** The block that serves a request is the first that can. */
  lemma ServedAt(l: Layout, size: nat, j: nat)
    requires size != 0 && j < |l| && l[j].free && l[j].size >= Needed(size)
    requires forall n :: 0 <= n < j ==> !l[n].free || l[n].size < Needed(size)
    ensures Alloc(l, size) == l[..j] + Carve(l[j], Needed(size)) + l[j + 1..]
    ensures AllocPtr(l, size) == l[j].addr + HEADER_BYTES
  {
    hide Needed;
    assert FirstFit(l, Needed(size)) == j;
  }

  /** The first free block with room for `size` bytes behind its header. */
  predicate IsFirstFit(l: Layout, size: nat, k: nat) {
    k < |l| && l[k].free && l[k].size >= size + 16 && forall j :: 0 <= j < k ==> !l[j].free || l[j].size < size + 16
  }

  /** The smallest block that may serve `size` bytes: a multiple of 16 with room for a header, and at least 32. */
  predicate IsUnit(n: nat, size: nat) {
    n % 16 == 0 && n >= 32 && n >= size + 16 && (n == 32 || n < size + 32)
  }

  /**
   * A request is served if and only if some free block has room for it behind a header, and then by the first of
   * these, cut to the smallest size exactly when that leaves at least 32 bytes.
   */
  lemma AllocServesIff(l: Layout, size: nat, n: nat, start: nat, end: nat)
    requires Tiles(l, start, end) && 0 < size && IsUnit(n, size)
    ensures (exists k: nat :: IsFirstFit(l, size, k)) <==> AllocPtr(l, size) != 0
    ensures forall k: nat :: IsFirstFit(l, size, k) ==>
                               && AllocPtr(l, size) == l[k].addr + 16 && l[k].size >= n
                               && Alloc(l, size) == WithServed(l, k, n)
  {
    hide Tiles;
    NeededIsUnit(size, n);
    forall k | 0 <= k < |l| ensures l[k].size >= n <==> l[k].size >= size + 16 {
      TilesInOrder(l, start, end, k, k);
    }
    hide Needed, IsUnit;
    var i := FirstFit(l, n);
    if i < |l| {
      assert IsFirstFit(l, size, i);
    }
    forall k: nat | IsFirstFit(l, size, k)
      ensures AllocPtr(l, size) == l[k].addr + 16 && l[k].size >= n && Alloc(l, size) == WithServed(l, k, n)
    {
      assert k == i;
    }
  }

  /** `n` bytes of block `k` in use, or all of it when fewer than 32 would be left. */
  function WithServed(l: Layout, k: nat, n: nat): Layout
    requires k < |l| && n <= l[k].size
  {
    var a, rest := l[k].addr, l[k].size - n;
    var cut := if rest >= 32 then [Block(a, n, false), Block(a + n, rest, true)] else [Block(a, n + rest, false)];
    l[..k] + cut + l[k + 1..]
  }

  lemma NeededIsUnit(size: nat, n: nat)
    requires IsUnit(n, size)
    ensures n == Needed(size)
    ensures forall s: nat :: s >= 32 && s % 16 == 0 ==> (s >= n <==> s >= size + 16)
  {
    hide AlignUp;
  }

  /** Allocation adds exactly one live block, at least as large as asked, made of memory that was free. */
  lemma AllocAddsOne(l: Layout, size: nat)
    ensures var i := FirstFit(l, Needed(size));
            if size == 0 || i == |l| then Alloc(l, size) == l
            else
              var b := Served(l, size);
              && b.addr == l[i].addr && size + HEADER_BYTES <= b.size <= l[i].size
              && b.size < Needed(size) + HEAP_MIN_BLOCK && !b.free
              && Live(Alloc(l, size)) == Live(l) + {b}
  {
    hide FirstFit, Needed, Live, Carve;
    var i := FirstFit(l, Needed(size));
    if size != 0 && i < |l| {
      CarveLive(l[i], Needed(size));
      AllocLive(l, size);
    }
  }

  lemma ReleaseLive(x: Layout, b: Block, y: Layout)
    ensures Live(Release(x, b, y)) == Live(x) + Live(y)
  {
    hide Live;
    if x != [] && x[|x| - 1].free {
      var u, p := x[..|x| - 1], x[|x| - 1];
      assert x == u + [p];
      LiveConcat(u, [p]);
      LiveMiddle(u, [Merge(p, b)], y);
      FreeLive(p);
      FreeLive(Merge(p, b));
    } else if y != [] && y[0].free {
      assert y == [y[0]] + y[1..];
      LiveConcat([y[0]], y[1..]);
      LiveMiddle(x, [Merge(b, y[0])], y[1..]);
      FreeLive(y[0]);
      FreeLive(Merge(b, y[0]));
    } else {
      LiveMiddle(x, [b.(free := true)], y);
      FreeLive(b.(free := true));
    }
  }

  lemma FreeLive(b: Block)
    requires b.free
    ensures Live([b]) == {}
  {
  }

  /** Freeing removes exactly the freed block. */
  lemma FreeRemovesOne(l: Layout, k: nat, start: nat, end: nat)
    requires Tiles(l, start, end) && IsLive(l, k)
    ensures Live(Free(l, k)) == Live(l) - {l[k]}
  {
    hide Release;
    var x, b, y := l[..k], l[k], l[k + 1..];
    assert l == x + [b] + y;
    LiveMiddle(x, [b], y);
    ReleaseLive(x, b, y);
    assert b !in x && b !in y by {
      forall i | 0 <= i < |l| && i != k ensures l[i] != b {
        TilesInOrder(l, start, end, if i < k then i else k, if i < k then k else i);
      }
    }
  }

  lemma {:induction false} IndexOfIs(l: Layout, k: nat, start: nat, end: nat)
    requires Tiles(l, start, end) && k < |l|
    ensures IndexOf(l, l[k].addr + HEADER_BYTES) == k
    decreases k
  {
    if k > 0 {
      TilesInOrder(l, start, end, 0, k);
      IndexOfIs(l[1..], k - 1, start + l[0].size, end);
    }
  }

  /** Two different blocks do not overlap. */
  lemma Apart(l: Layout, a: Block, b: Block, start: nat, end: nat)
    requires Tiles(l, start, end) && a in l && b in l && a != b
    ensures a.addr + a.size <= b.addr || b.addr + b.size <= a.addr
    ensures WellSized(a) && start <= a.addr && a.addr + a.size <= end
  {
    var i :| 0 <= i < |l| && l[i] == a;
    var j :| 0 <= j < |l| && l[j] == b;
    TilesInOrder(l, start, end, if i < j then i else j, if i < j then j else i);
  }

  /** A block in use is still found after an allocation. */
  lemma StillThere(l: Layout, size: nat, k: nat, start: nat, end: nat)
    requires IsLive(l, k) && Tiles(l, start, end)
    ensures var l' := Alloc(l, size);
            var k' := IndexOf(l', l[k].addr + HEADER_BYTES);
            IsLive(l', k') && l'[k'] == l[k]
  {
    hide FirstFit, Needed, Carve, Tiles;
    AllocTiles(l, size, start, end);
    AllocAddsOne(l, size);
    var l' := Alloc(l, size);
    assert l[k] in Live(l) && l[k] in Live(l');
    var k' :| 0 <= k' < |l'| && l'[k'] == l[k];
    IndexOfIs(l', k', start, end);
  }

  /** The block that serves a request lies in memory that no block in use covers. */
  lemma ServedApart(l: Layout, size: nat, start: nat, end: nat)
    requires Tiles(l, start, end) && AllocPtr(l, size) != 0
    ensures var b := Served(l, size);
            && start <= b.addr && b.addr + b.size <= end
            && forall c :: c in Live(l) ==> c.addr + c.size <= b.addr || b.addr + b.size <= c.addr
  {
    hide FirstFit, Needed, Carve, Tiles;
    AllocAddsOne(l, size);
    var i := FirstFit(l, Needed(size));
    TilesInOrder(l, start, end, i, i);
    forall c | c in Live(l)
      ensures c.addr + c.size <= Served(l, size).addr || Served(l, size).addr + Served(l, size).size <= c.addr
    {
      Apart(l, c, l[i], start, end);
    }
  }

  /** Growing a block replaces exactly it, in the set of blocks in use, by one that is large enough. */
  lemma ResizeReplacesOne(l: Layout, ptr: nat, size: nat, start: nat, end: nat)
    requires Tiles(l, start, end) && 0 < start && ptr != 0 && IsLive(l, IndexOf(l, ptr))
    requires PayloadSize(l, ptr) < size && AllocPtr(l, size) != 0
    ensures Live(Resize(l, ptr, size).1) == Live(l) - {l[IndexOf(l, ptr)]} + {Served(l, size)}
    ensures Served(l, size) !in Live(l) && Served(l, size).size >= size + HEADER_BYTES
  {
    hide FirstFit, Needed, Carve, Tiles, Free, Alloc, Served;
    var k := IndexOf(l, ptr);
    StillThere(l, size, k, start, end);
    AllocAddsOne(l, size);
    AllocTiles(l, size, start, end);
    var l' := Alloc(l, size);
    FreeRemovesOne(l', IndexOf(l', ptr), start, end);
    ServedApart(l, size, start, end);
  }

  /** The two blocks of a resize that moves: the new one is in use as well as the old one while bytes are copied. */
  lemma ResizeMoves(l: Layout, ptr: nat, size: nat, start: nat, end: nat)
    requires Tiles(l, start, end) && 0 < start && ptr != 0 && IsLive(l, IndexOf(l, ptr))
    requires PayloadSize(l, ptr) < size && AllocPtr(l, size) != 0
    ensures var l1, from, to := Alloc(l, size), l[IndexOf(l, ptr)], Served(l, size);
            && IsLive(l1, IndexOf(l1, ptr)) && from in Live(l1) && to in Live(l1) && to != from
            && from.size <= to.size && to.addr + to.size <= end && AllocPtr(l, size) == to.addr + HEADER_BYTES
  {
    var k := IndexOf(l, ptr);
    AllocAddsOne(l, size);
    StillThere(l, size, k, start, end);
    ServedApart(l, size, start, end);
    ResizeReplacesOne(l, ptr, size, start, end);
    hide Tiles, Live, FirstFit, Needed, Alloc, Served, IndexOf, Resize;
    LiveMember(l, k);
  }

  lemma LiveMember(l: Layout, k: nat)
    requires IsLive(l, k)
    ensures l[k] in Live(l)
  {
    assert l[k] in l;
  }

  /** The block in use with its payload at `ptr` has room for `size` bytes behind its header. */
  predicate Holds(l: Layout, ptr: nat, size: nat) {
    var k := IndexOf(l, ptr);
    k < |l| && !l[k].free && l[k].size >= size + 16
  }

  lemma HoldsIs(l: Layout, ptr: nat, size: nat)
    requires IsLive(l, IndexOf(l, ptr)) && l[IndexOf(l, ptr)].size >= HEAP_MIN_BLOCK
    ensures Holds(l, ptr, size) <==> PayloadSize(l, ptr) >= size
  {
    hide IndexOf;
  }

  lemma MovedHolds(l: Layout, b: Block, size: nat, start: nat, end: nat)
    requires Tiles(l, start, if l == [] then start else end) && b in Live(l) && b.size >= size + HEADER_BYTES
    ensures Holds(l, b.addr + HEADER_BYTES, size)
  {
    hide Tiles;
    var k :| 0 <= k < |l| && l[k] == b;
    IndexOfIs(l, k, start, end);
  }

  /** The block handed out is in use, at the address returned, and large enough. */
  lemma ServedHolds(l: Layout, size: nat, start: nat, end: nat)
    requires Tiles(l, start, end) && AllocPtr(l, size) != 0
    ensures Holds(Alloc(l, size), AllocPtr(l, size), size)
  {
    hide Tiles, Live, FirstFit, Needed, Alloc, Served, IndexOf, Holds;
    AllocAddsOne(l, size);
    AllocTiles(l, size, start, end);
    MovedHolds(Alloc(l, size), Served(l, size), size, start, end);
  }

  lemma ResizeIs(l: Layout, ptr: nat, size: nat)
    ensures ptr == 0 ==> Resize(l, ptr, size) == (AllocPtr(l, size), Alloc(l, size))
    ensures ptr != 0 && size == 0 ==> Resize(l, ptr, size) == (0, FreePtr(l, ptr))
    ensures ptr != 0 && size != 0 && PayloadSize(l, ptr) >= size ==> Resize(l, ptr, size) == (ptr, l)
    ensures ptr != 0 && size != 0 && PayloadSize(l, ptr) < size
            ==> Resize(l, ptr, size) ==
                if AllocPtr(l, size) == 0 then (0, l) else (AllocPtr(l, size), FreePtr(Alloc(l, size), ptr))
  {
    hide Alloc, AllocPtr, FreePtr, PayloadSize;
  }

  // ---------- Coalescing ----------

  /** No two neighbouring blocks are both free. */
  ghost predicate Coalesced(l: Layout) {
    forall i :: 0 <= i < |l| - 1 ==> !l[i].free || !l[i + 1].free
  }

  lemma AllocKeepsCoalesced(l: Layout, size: nat)
    requires Coalesced(l)
    ensures Coalesced(Alloc(l, size))
  {
    var i := FirstFit(l, Needed(size));
    if size != 0 && i < |l| {
      var l', c := Alloc(l, size), Carve(l[i], Needed(size));
      forall j | 0 <= j < |l'| - 1 ensures !l'[j].free || !l'[j + 1].free {
        if j + 1 < i {
          assert l'[j] == l[j] && l'[j + 1] == l[j + 1];
        } else if j + 1 == i {
          assert l'[j + 1] == c[0];
        } else if j == i {
          assert l'[j] == c[0];
        } else if |c| == 2 && j == i + 1 {
          assert l'[j + 1] == l[i + 1];
        } else {
          assert l'[j] == l[j + 1 - |c|] && l'[j + 1] == l[j + 2 - |c|];
        }
      }
    }
  }

  /**
   * The code merges the freed block into a free predecessor first and then tries to extend the header it has
   * just absorbed, so a free successor is lost exactly when both neighbours are free.
   */
  lemma FreeKeepsCoalescedIff(l: Layout, k: nat)
    requires Coalesced(l) && IsLive(l, k)
    ensures Coalesced(Free(l, k)) <==> !(k > 0 && l[k - 1].free && k + 1 < |l| && l[k + 1].free)
  {
    var x, b, y := l[..k], l[k], l[k + 1..];
    var l' := Free(l, k);
    if x != [] && x[|x| - 1].free {
      assert l'[k - 1].free;
      assert forall j :: 0 <= j < k - 1 ==> l'[j] == l[j];
      assert forall j :: k <= j < |l'| ==> l'[j] == l[j + 1];
      if k + 1 < |l| && l[k + 1].free {
        assert l'[k - 1].free && l'[k].free;
      } else {
        forall j | 0 <= j < |l'| - 1 ensures !l'[j].free || !l'[j + 1].free {
          if j == k - 2 {
            assert !l[k - 2].free;
          } else if j >= k {
            assert !l[j + 1].free || !l[j + 2].free;
          }
        }
      }
    } else if y != [] && y[0].free {
      assert forall j :: 0 <= j < k ==> l'[j] == l[j];
      assert forall j :: k < j < |l'| ==> l'[j] == l[j + 1];
      forall j | 0 <= j < |l'| - 1 ensures !l'[j].free || !l'[j + 1].free {
        if j == k {
          assert !l[k + 1].free || !l[k + 2].free;
        } else if j > k {
          assert !l[j + 1].free || !l[j + 2].free;
        }
      }
    } else {
      assert forall j :: 0 <= j < |l| && j != k ==> l'[j] == l[j];
    }
  }

  /** Two free blocks around one in use: freeing it leaves two free neighbours. */
  lemma LostMergeExample()
    ensures var l := [Block(16, 32, true), Block(48, 32, false), Block(80, 32, true)];
            Tiles(l, 16, 112) && Coalesced(l) && Free(l, 1) == [Block(16, 64, true), Block(80, 32, true)]
            && FirstFit(Free(l, 1), 96) == 2
  {
    var l := [Block(16, 32, true), Block(48, 32, false), Block(80, 32, true)];
    assert l[1..] == [l[1], l[2]];
    TilesTwo(l[1], l[2], 48, 112);
    assert l[..1] == [l[0]] && l[2..] == [l[2]];
    assert Free(l, 1) == [Block(16, 64, true), Block(80, 32, true)];
  }

  lemma ReleaseUndoesCarve(x: Layout, b: Block, y: Layout, needed: nat)
    requires b.free && b.size >= needed
    requires x != [] ==> !x[|x| - 1].free
    requires y != [] ==> !y[0].free
    ensures Release(x, Carve(b, needed)[0], Carve(b, needed)[1..] + y) == x + [b] + y
  {
    var c := Carve(b, needed);
    if |c| == 2 {
      assert c[1..] + y == [c[1]] + y;
      assert ([c[1]] + y)[1..] == y;
      assert Merge(c[0], c[1]) == b;
    } else {
      assert c[1..] + y == y;
      assert c[0].(free := true) == b;
    }
  }

  lemma SplitAround(x: Layout, c: Layout, y: Layout)
    requires c != []
    ensures var l := x + c + y; l[..|x|] == x && l[|x|] == c[0] && l[|x| + 1..] == c[1..] + y
  {
  }

  lemma FreeBlockAlone(l: Layout, i: nat)
    requires Coalesced(l) && i < |l| && l[i].free
    ensures l == l[..i] + [l[i]] + l[i + 1..]
    ensures l[..i] != [] ==> !l[..i][|l[..i]| - 1].free
    ensures l[i + 1..] != [] ==> !l[i + 1..][0].free
  {
    assert i > 0 ==> !l[i - 1].free;
  }

  /** On a coalesced heap, freeing what was just allocated restores the heap. */
  lemma AllocThenFree(l: Layout, size: nat)
    requires Coalesced(l)
    ensures var i := FirstFit(l, Needed(size)); size != 0 && i < |l| ==> Free(Alloc(l, size), i) == l
  {
    hide FirstFit, Carve, Release, Needed, Coalesced;
    var needed := Needed(size);
    var i := FirstFit(l, needed);
    if size != 0 && i < |l| {
      var x, c, y := l[..i], Carve(l[i], needed), l[i + 1..];
      SplitAround(x, c, y);
      FreeBlockAlone(l, i);
      ReleaseUndoesCarve(x, l[i], y, needed);
    }
  }
}
