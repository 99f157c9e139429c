/** The shared heap service: first-fit allocation over a sorted free list whose headers live in the heap itself. */
module HeapAllocator {
  import opened Words
  import opened HeapLayout
  import opened HeapLinks
  import opened HeapSplice

  class Heap {
    var ram: seq<u8>
    var heapBase: u32
    var heapLimit: u32
    var freeList: u32
    ghost var layout: Layout

    /** A heap too small for one block has no layout; its aligned bounds may then have crossed. */
    ghost predicate Valid()
      reads this
    {
      && 0 < heapBase && heapLimit <= |ram| < TWO32 && (layout == [] || heapBase <= heapLimit)
      && Tiles(layout, heapBase, if layout == [] then heapBase else heapLimit)
      && Linked(ram, layout, 0)
      && freeList == Chain(layout, 0)
    }

    constructor (ram: seq<u8>, base: u32, limit: u32)
      ensures this.ram == ram && heapBase == base && heapLimit == limit
    {
      this.ram, heapBase, heapLimit, freeList, layout := ram, base, limit, 0, [];
    }

    /** Aligns the bounds that the service table holds and makes one free block of what is between them. */
    method Init()
      requires 0 < heapBase && heapBase + HEAP_ALIGN <= TWO32 - HEADER_BYTES && heapLimit <= |ram| < TWO32
      modifies this
      ensures Valid()
      ensures heapBase == AlignUp(old(heapBase), HEAP_ALIGN) && heapLimit == AlignDown(old(heapLimit), HEAP_ALIGN)
      ensures layout == if heapLimit - heapBase < HEAP_MIN_BLOCK then []
                        else [Block(heapBase, heapLimit - heapBase, true)]
      ensures KeepsOutside(old(ram), ram, heapBase, heapLimit)
    {
      hide AlignUp, AlignDown, PokeHeader, Poke32, Le32;
      heapBase, heapLimit := AlignUp(heapBase, HEAP_ALIGN), AlignDown(heapLimit, HEAP_ALIGN);
      freeList, layout := 0, [];
      if heapLimit < heapBase + HEADER_BYTES || heapLimit - heapBase < HEAP_MIN_BLOCK {
        return;
      }
      ram := PokeHeader(ram, heapBase, heapLimit - heapBase, 0);
      freeList := heapBase;
      layout := [Block(heapBase, heapLimit - heapBase, true)];
      TilesOne(layout[0], heapBase, heapLimit);
      LinkedOne(ram, layout[0], 0);
    }

    /** Stores `value` in the link of the block at `prev`, or in the list head when there is none. */
    method SetLink(prev: u32, value: u32)
      requires prev != 0 ==> prev + 8 <= |ram|
      modifies this`ram, this`freeList
      ensures ram == if prev != 0 then Poke32(old(ram), prev + 4, value) else old(ram)
      ensures freeList == if prev != 0 then old(freeList) else value
    {
      if prev != 0 {
        ram := Poke32(ram, prev + 4, value);
      } else {
        freeList := value;
      }
    }

    /** The free block `b`, between `x` and `y`, serves a request of `needed` bytes. */
    method Take(cur: u32, prev: u32, next: u32, blockSize: u32, needed: u32,
                ghost x: Layout, ghost b: Block, ghost y: Layout)
      requires Valid() && layout == x + [b] + y && b.free && needed >= HEAP_MIN_BLOCK && needed % HEAP_ALIGN == 0
      requires b.addr == cur && b.size == blockSize >= needed && prev == LastFree(x) && next == Chain(y, 0)
      modifies this`freeList, this`layout, this`ram
      ensures Valid() && |ram| == old(|ram|) && layout == x + Carve(b, needed) + y && Unlinked(ram, cur)
      ensures KeepsLive(old(ram), ram, old(layout)) && KeepsOutside(old(ram), ram, heapBase, heapLimit)
    {
      hide Linked, Chain, Tiles, LastFree, Poke32, PokeHeader, KeepsLive, KeepsOutside, Carve, Le32, Unlinked;
      assert layout != [];
      TakenIs(ram, prev, next, x, b, y, needed, heapBase, heapLimit);
      layout := x + Carve(b, needed) + y;
      var remain: u32 := blockSize - needed;
      if remain >= HEAP_MIN_BLOCK {
        ram := PokeHeader(ram, cur + needed, remain, next);
        SetLink(prev, cur + needed);
        ram := Poke32(ram, cur, needed);
      } else {
        SetLink(prev, next);
      }
      ClearLinkIs(ram, cur);
      ram := Poke32(ram, cur + 4, 0);
      ram := Poke32(ram, cur + 8, 0);
      ram := Poke32(ram, cur + 12, 0);
    }

    method Alloc(size: u32) returns (ptr: u32)
      requires Valid() && size < TWO32 - 2 * HEAP_ALIGN
      modifies this`freeList, this`layout, this`ram
      ensures Valid()
      ensures layout == HeapLayout.Alloc(old(layout), size)
      ensures |ram| == old(|ram|) && ptr == AllocPtr(old(layout), size)
      ensures KeepsLive(old(ram), ram, old(layout)) && KeepsOutside(old(ram), ram, heapBase, heapLimit)
      ensures if ptr == 0 then ram == old(ram) else Unlinked(ram, ptr - 16)
    {
      hide Linked, Chain, Tiles, LastFree, Le32, KeepsLive, KeepsOutside, AlignUp, Carve, Needed, FirstFit, Served,
        AllocPtr, HeapLayout.Alloc, Unlinked;
      OutsideSame(ram, heapBase, heapLimit);
      assert KeepsLive(ram, ram, layout) by {
        KeepsLiveSame(ram, layout);
      }
      NothingServed(layout, size);
      if size == 0 {
        return 0;
      }
      var needed: u32 := Needed(size);
      var prev: u32 := 0;
      var cur := freeList;
      ghost var i := 0;
      assert layout[0..] == layout;
      NoneFree([], 0);
      while cur != 0
        invariant Valid() && layout == old(layout) && ram == old(ram)
        invariant 0 <= i <= |layout|
        invariant cur == Chain(layout[i..], 0)
        invariant prev == LastFree(layout[..i])
        invariant forall n :: 0 <= n < i ==> !layout[n].free || layout[n].size < needed
        decreases |layout| - i
      {
        ghost var j := FirstFree(layout, i);
        HeaderAt(ram, layout, j);
        PassedBlocks(layout, i, j);
        TilesInOrder(layout, heapBase, heapLimit, j, j);
        var next, blockSize := Le32(ram, cur + 4), Le32(ram, cur);
        if blockSize >= needed {
          ghost var x, b, y := layout[..j], layout[j], layout[j + 1..];
          AroundIndex(layout, j);
          ServedAt(layout, size, j);
          Take(cur, prev, next, blockSize, needed, x, b, y);
          ptr := cur + HEADER_BYTES;
          return;
        }
        prev, cur, i := cur, next, j + 1;
      }
      ghost var j := FirstFit(layout, needed);
      if j < |layout| {
        ChainReaches(layout, i, j, heapBase, heapLimit);
      }
      return 0;
    }

    method CoalesceNext(block: u32)
      requires CanCoalesce(ram, block)
      modifies this`ram
      ensures ram == Coalesce(old(ram), block)
    {
      hide Le32, Poke32;
      var size: int, next: int := Le32(ram, block), Le32(ram, block + 4);
      if next == 0 || block + size != next {
        return;
      }
      PokeElsewhere(ram, block, size + Le32(ram, next), next + 4);
      ram := Poke32(ram, block, size + Le32(ram, next));
      ram := Poke32(ram, block + 4, Le32(ram, next + 4));
    }

    method Free(ptr: u32)
      requires Valid()
      requires ptr == 0 || IsLive(layout, IndexOf(layout, ptr))
      modifies this`freeList, this`layout, this`ram
      ensures Valid() && |ram| == old(|ram|)
      ensures layout == FreePtr(old(layout), ptr)
      ensures KeepsLive(old(ram), ram, layout) && KeepsOutside(old(ram), ram, heapBase, heapLimit)
    {
      hide Linked, Chain, Tiles, LastFree, Le32, KeepsLive, KeepsOutside, HookIn, Poke32, CanCoalesce, Coalesce,
        Release;
      OutsideSame(ram, heapBase, heapLimit);
      KeepsLiveSame(ram, layout);
      if ptr == 0 {
        return;
      }
      ghost var k := IndexOf(layout, ptr);
      ghost var x, b, y := layout[..k], layout[k], layout[k + 1..];
      assert layout == x + [b] + y;
      TilesInOrder(layout, heapBase, heapLimit, k, k);
      HeaderAt(ram, layout, k);
      var addr: u32 := ptr - HEADER_BYTES;
      if addr % HEAP_ALIGN != 0 || addr < heapBase || addr + HEADER_BYTES > heapLimit {
        return;
      }
      if Le32(ram, addr) < HEAP_MIN_BLOCK || addr + Le32(ram, addr) > heapLimit {
        return;
      }
      var prev, cur := FindPlace(addr, k);
      FreeResult(ram, x, b, y, heapBase, heapLimit);
      ReleaseTiles(x, b, y, heapBase, heapLimit);
      HookInIs(ram, addr, prev, cur);
      ram := Poke32(ram, addr + 4, cur);
      if prev != 0 {
        ram := Poke32(ram, prev + 4, addr);
        CoalesceNext(prev);
      } else {
        freeList := addr;
      }
      CoalesceNext(addr);
      layout := Release(x, b, y);
    }

    /** The free blocks around the block in use at `addr`. */
    method FindPlace(addr: u32, ghost k: nat) returns (prev: u32, cur: u32)
      requires Valid() && IsLive(layout, k) && layout[k].addr == addr
      ensures prev == LastFree(layout[..k]) && cur == Chain(layout[k + 1..], 0)
    {
      hide Linked, Chain, Tiles, LastFree, Le32;
      prev, cur := 0, freeList;
      ghost var i := 0;
      assert layout[0..] == layout;
      NoneFree([], 0);
      while cur != 0 && cur < addr
        invariant 0 <= i <= k
        invariant cur == Chain(layout[i..], 0) && prev == LastFree(layout[..i])
        decreases k - i
      {
        ghost var j := FirstFree(layout, i);
        HeaderAt(ram, layout, j);
        PassedBlocks(layout, i, j);
        TilesInOrder(layout, heapBase, heapLimit, j, j);
        if j > k {
          TilesInOrder(layout, heapBase, heapLimit, k, j);
        }
        prev, cur, i := cur, Le32(ram, cur + 4), j + 1;
      }
      forall n | i <= n < k ensures !layout[n].free {
        if layout[n].free {
          ChainReaches(layout, i, n, heapBase, heapLimit);
          TilesInOrder(layout, heapBase, heapLimit, n, k);
        }
      }
      PassedBlocks(layout, i, k);
      PassedBlocks(layout, k, k + 1);
    }

    /** Copies `n` bytes between the payloads of the blocks in use `from` and `to`. */
    method CopyPayload(dst: u32, src: u32, n: u32, ghost to: Block, ghost from: Block)
      requires Valid() && to in Live(layout) && from in Live(layout) && to != from
      requires dst == to.addr + HEADER_BYTES && n + HEADER_BYTES <= to.size
      requires src == from.addr + HEADER_BYTES && n + HEADER_BYTES <= from.size
      requires to.addr + to.size <= |ram| && from.addr + from.size <= |ram|
      modifies this`ram
      ensures Valid() && |ram| == old(|ram|)
      ensures Carried(old(ram), ram, src, dst, n)
      ensures forall a :: 0 <= a < |ram| && !(dst <= a < dst + n) ==> ram[a] == old(ram)[a]
      ensures KeepsOutside(old(ram), ram, heapBase, heapLimit)
    {
      hide Linked, Chain, Tiles, Le32;
      ghost var m := ram;
      Apart(layout, to, from, heapBase, heapLimit);
      Apart(layout, from, to, heapBase, heapLimit);
      var i: u32 := 0;
      while i < n
        invariant i <= n && |ram| == |m|
        invariant Carried(m, ram, src, dst, i)
        invariant forall a :: 0 <= a < |ram| && !(dst <= a < dst + i) ==> ram[a] == m[a]
      {
        assert ram[src + i] == m[src + i];
        CarriedOneMore(m, ram, src, dst, i);
        ram := ram[dst + i := ram[src + i]];
        i := i + 1;
      }
      PayloadWritten(m, ram, layout, to, heapBase, heapLimit);
    }

    /** Resizes a block, moving its contents if it has to grow. */
    method Realloc(ptr: u32, size: u32) returns (r: u32)
      requires Valid() && size < TWO32 - 2 * HEAP_ALIGN
      requires ptr != 0 ==> IsLive(layout, IndexOf(layout, ptr))
      modifies this`freeList, this`layout, this`ram
      ensures Valid() && |ram| == old(|ram|)
      ensures (r as nat, layout) == Resize(old(layout), ptr, size)
      ensures KeepsOthers(old(ram), ram, old(layout), ptr) && KeepsOutside(old(ram), ram, heapBase, heapLimit)
      ensures r == 0 && size != 0 ==> ram == old(ram)
      ensures ptr != 0 && r != 0 ==> Brings(old(ram), ram, old(layout)[IndexOf(old(layout), ptr)], r, size)
      ensures r != 0 ==> Holds(layout, r, size)
      ensures ptr != 0 && size != 0 ==>
                (r == ptr && ram == old(ram) && layout == old(layout)) || !Holds(old(layout), ptr, size)
    {
      hide Linked, Chain, Tiles, LastFree, Le32, KeepsLive, KeepsOthers, KeepsOutside, Live, HeapLayout.Free,
        HeapLayout.Alloc, Served, IndexOf, Resize, Carried, Brings, Holds;
      OutsideSame(ram, heapBase, heapLimit);
      ghost var m0, l0 := ram, layout;
      SameOthers(m0, l0, ptr);
      ResizeIs(l0, ptr, size);
      NothingServed(l0, size);
      if ptr == 0 {
        r := Alloc(size);
        LiveOthers(m0, ram, l0, ptr);
        if r != 0 {
          ServedHolds(l0, size, heapBase, heapLimit);
        }
        return;
      }
      ghost var k := IndexOf(layout, ptr);
      TilesInOrder(layout, heapBase, heapLimit, k, k);
      if size == 0 {
        Free(ptr);
        FreedOthers(m0, ram, l0, k, heapBase, heapLimit);
        return 0;
      }
      HeaderAt(ram, layout, k);
      var oldSize: u32 := Le32(ram, ptr - HEADER_BYTES) - HEADER_BYTES;
      HoldsIs(l0, ptr, size);
      if oldSize >= size {
        BroughtInPlace(ram, l0[k], size);
        return ptr;
      }
      r := Alloc(size);
      if r == 0 {
        return;
      }
      ghost var m1, to, from := ram, Served(l0, size), l0[k];
      ResizeMoves(l0, ptr, size, heapBase, heapLimit);
      ResizeReplacesOne(l0, ptr, size, heapBase, heapLimit);
      ServedApart(l0, size, heapBase, heapLimit);
      CopyPayload(r, ptr, oldSize, to, from);
      ghost var m2 := ram;
      OutsideJoin(m0, m1, m2, heapBase, heapLimit);
      Free(ptr);
      OutsideJoin(m0, m2, ram, heapBase, heapLimit);
      Moved(m0, m1, m2, ram, l0, layout, k, to, oldSize, heapBase, heapLimit);
      CarriedBrings(m0, ram, from, r, oldSize, size);
      MovedHolds(layout, to, size, heapBase, heapLimit);
    }
  }
}
