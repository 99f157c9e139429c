/** The heap over whole runs of requests, each made on null or on a block that is in use at that moment. */
module HeapRuns {
  import opened Words
  import opened HeapLayout
  import opened HeapLinks
  import opened HeapSplice
  import opened HeapAllocator

  datatype Request = AllocReq(size: nat) | FreeReq(ptr: nat) | ReallocReq(ptr: nat, size: nat)

  ghost predicate Permitted(l: Layout, q: Request) {
    match q
    case AllocReq(_) => true
    case FreeReq(ptr) => ptr == 0 || IsLive(l, IndexOf(l, ptr))
    case ReallocReq(ptr, _) => ptr == 0 || IsLive(l, IndexOf(l, ptr))
  }

  function Serve(l: Layout, q: Request): Layout {
    match q
    case AllocReq(size) => Alloc(l, size)
    case FreeReq(ptr) => FreePtr(l, ptr)
    case ReallocReq(ptr, size) => Resize(l, ptr, size).1
  }

  function Run(l: Layout, qs: seq<Request>): Layout
    decreases |qs|
  {
    if qs == [] then l else Run(Serve(l, qs[0]), qs[1..])
  }

  ghost predicate AllPermitted(l: Layout, qs: seq<Request>)
    decreases |qs|
  {
    qs == [] || (Permitted(l, qs[0]) && AllPermitted(Serve(l, qs[0]), qs[1..]))
  }

  /** Bytes of the blocks that are in use (`free` false) or not. */
  function Bytes(l: Layout, free: bool): nat
    decreases |l|
  {
    if l == [] then 0 else (if l[0].free == free then l[0].size else 0) + Bytes(l[1..], free)
  }

  lemma {:induction false} TilesAccountForAll(l: Layout, start: nat, end: nat)
    requires Tiles(l, start, end)
    ensures Bytes(l, true) + Bytes(l, false) == end - start
    decreases |l|
  {
    if l != [] {
      TilesAccountForAll(l[1..], start + l[0].size, end);
    }
  }

  lemma FreePtrTiles(l: Layout, ptr: nat, start: nat, end: nat)
    requires Tiles(l, start, end)
    ensures Tiles(FreePtr(l, ptr), start, end)
  {
    var k := IndexOf(l, ptr);
    if IsLive(l, k) {
      AroundIndex(l, k);
      ReleaseTiles(l[..k], l[k], l[k + 1..], start, end);
    }
  }

  lemma ServeTiles(l: Layout, q: Request, start: nat, end: nat)
    requires Tiles(l, start, end)
    ensures Tiles(Serve(l, q), start, end)
  {
    hide Tiles, FreePtr, Alloc;
    match q
    case AllocReq(size) => AllocTiles(l, size, start, end);
    case FreeReq(ptr) => FreePtrTiles(l, ptr, start, end);
    case ReallocReq(ptr, size) =>
      AllocTiles(l, size, start, end);
      FreePtrTiles(l, ptr, start, end);
      FreePtrTiles(Alloc(l, size), ptr, start, end);
  }

  /**
   * After any run of requests, free and used blocks still tile the heap: no two overlap, their addresses
   * increase, all are aligned and at least 32 bytes, and no byte has been lost or gained.
   */
  lemma {:induction false} RunKeepsHeap(l: Layout, qs: seq<Request>, start: nat, end: nat)
    requires Tiles(l, start, end)
    ensures Tiles(Run(l, qs), start, end)
    ensures Bytes(Run(l, qs), true) + Bytes(Run(l, qs), false) == end - start
    decreases |qs|
  {
    hide Serve;
    if qs == [] {
      TilesAccountForAll(l, start, end);
    } else {
      ServeTiles(l, qs[0], start, end);
      RunKeepsHeap(Serve(l, qs[0]), qs[1..], start, end);
    }
  }

  predicate Names(q: Request, ptr: nat) {
    match q case AllocReq(_) => false case FreeReq(p) => p == ptr case ReallocReq(p, _) => p == ptr
  }

  /** A block in use stays in use, at its place and size, until a request names it. */
  lemma ServeKeepsBlock(l: Layout, q: Request, b: Block, start: nat, end: nat)
    requires Tiles(l, start, end) && 0 < start && Permitted(l, q) && b in Live(l)
    requires !Names(q, b.addr + HEADER_BYTES)
    ensures b in Live(Serve(l, q))
  {
    hide Tiles, Alloc, Free, Served, FirstFit, Live, Needed;
    match q
    case AllocReq(size) => AllocAddsOne(l, size);
    case FreeReq(ptr) => FreeKeepsBlock(l, ptr, b, start, end);
    case ReallocReq(ptr, size) =>
      AllocAddsOne(l, size);
      if ptr != 0 && size == 0 {
        FreeKeepsBlock(l, ptr, b, start, end);
      } else if ptr != 0 && PayloadSize(l, ptr) < size && AllocPtr(l, size) != 0 {
        ResizeReplacesOne(l, ptr, size, start, end);
      }
  }

  lemma FreeKeepsBlock(l: Layout, ptr: nat, b: Block, start: nat, end: nat)
    requires Tiles(l, start, end) && b in Live(l) && ptr != b.addr + HEADER_BYTES
    ensures b in Live(FreePtr(l, ptr))
  {
    hide Tiles, Free, Live;
    if IsLive(l, IndexOf(l, ptr)) {
      FreeRemovesOne(l, IndexOf(l, ptr), start, end);
    }
  }

  /** ... and so over whole runs: no other request moves, shrinks or reuses it. */
  lemma {:induction false} RunKeepsBlock(l: Layout, qs: seq<Request>, b: Block, start: nat, end: nat)
    requires Tiles(l, start, end) && 0 < start && AllPermitted(l, qs) && b in Live(l)
    requires forall q :: q in qs ==> !Names(q, b.addr + HEADER_BYTES)
    ensures b in Live(Run(l, qs))
    decreases |qs|
  {
    hide Serve, Live, Tiles;
    if qs != [] {
      assert qs[0] in qs && forall q :: q in qs[1..] ==> q in qs;
      ServeKeepsBlock(l, qs[0], b, start, end);
      ServeTiles(l, qs[0], start, end);
      RunKeepsBlock(Serve(l, qs[0]), qs[1..], b, start, end);
    }
  }

  // ---------- The services themselves, over a run ----------

  /** Sizes for which the 32-bit request does not wrap. */
  predicate Sized(q: Request) {
    match q
    case AllocReq(size) => size < TWO32 - 2 * HEAP_ALIGN
    case FreeReq(ptr) => ptr < TWO32
    case ReallocReq(ptr, size) => ptr < TWO32 && size < TWO32 - 2 * HEAP_ALIGN
  }

  ghost predicate SameBytes(m: seq<u8>, m': seq<u8>, b: Block) {
    |m'| == |m| && forall a :: b.addr <= a < b.addr + b.size && a < |m| ==> m'[a] == m[a]
  }

  /** Every block in use that the request does not name is still in use, with every byte of it. */
  ghost predicate OthersSurvive(l: Layout, m: seq<u8>, q: Request, l': Layout, m': seq<u8>) {
    forall b :: b in Live(l) && !Names(q, b.addr + HEADER_BYTES) ==> b in Live(l') && SameBytes(m, m', b)
  }

  /** What the contract of the service called says about memory. */
  ghost predicate Respects(l: Layout, m: seq<u8>, q: Request, l': Layout, m': seq<u8>) {
    match q
    case AllocReq(_) => KeepsLive(m, m', l)
    case FreeReq(_) => KeepsLive(m, m', l')
    case ReallocReq(ptr, _) => KeepsOthers(m, m', l, ptr)
  }

  lemma RespectSurvives(l: Layout, m: seq<u8>, q: Request, l': Layout, m': seq<u8>, start: nat, end: nat)
    requires Tiles(l, start, end) && 0 < start && Permitted(l, q)
    requires l' == Serve(l, q) && Respects(l, m, q, l', m')
    ensures OthersSurvive(l, m, q, l', m')
  {
    hide Serve, Permitted, Tiles;
    forall b | b in Live(l) && !Names(q, b.addr + HEADER_BYTES) ensures b in Live(l') && SameBytes(m, m', b) {
      ServeKeepsBlock(l, q, b, start, end);
    }
  }

  /** One request, handed to the service it is for. */
  method ServeRequest(h: Heap, q: Request)
    requires h.Valid() && Permitted(h.layout, q) && Sized(q)
    modifies h
    ensures h.Valid() && h.layout == Serve(old(h.layout), q)
    ensures OthersSurvive(old(h.layout), old(h.ram), q, h.layout, h.ram)
    ensures h.heapBase == old(h.heapBase) && h.heapLimit == old(h.heapLimit)
    ensures KeepsOutside(old(h.ram), h.ram, h.heapBase, h.heapLimit)
  {
    hide Tiles, HeapLayout.Alloc, FreePtr, Resize, KeepsLive, KeepsOthers, KeepsOutside, OthersSurvive, Live, IsLive,
      IndexOf, Linked, Chain;
    ghost var l, m := h.layout, h.ram;
    match q {
      case AllocReq(size) =>
        var _ := h.Alloc(size);
      case FreeReq(ptr) =>
        h.Free(ptr);
      case ReallocReq(ptr, size) =>
        var _ := h.Realloc(ptr, size);
    }
    RespectSurvives(l, m, q, h.layout, h.ram, h.heapBase, if l == [] then h.heapBase else h.heapLimit);
  }

  ghost predicate Untouched(l: Layout, m: seq<u8>, qs: seq<Request>, l': Layout, m': seq<u8>) {
    forall b :: b in Live(l) && Unnamed(qs, b) ==> b in Live(l') && SameBytes(m, m', b)
  }

  predicate Unnamed(qs: seq<Request>, b: Block) {
    forall i :: 0 <= i < |qs| ==> !Names(qs[i], b.addr + HEADER_BYTES)
  }

  lemma UntouchedNext(l: Layout, m: seq<u8>, qs: seq<Request>, i: nat, l1: Layout, m1: seq<u8>, l2: Layout, m2: seq<u8>)
    requires i < |qs| && Untouched(l, m, qs, l1, m1) && OthersSurvive(l1, m1, qs[i], l2, m2)
    ensures Untouched(l, m, qs, l2, m2)
  {
    hide Live, Names;
  }

  /**
   * Any run of requests on the heap: the blocks become those of the specification, and a block that no request names
   * keeps its place, its size and every byte, as does all memory outside the heap.
   */
  method ServeAll(h: Heap, qs: seq<Request>)
    requires h.Valid() && AllPermitted(h.layout, qs) && forall i :: 0 <= i < |qs| ==> Sized(qs[i])
    modifies h
    ensures h.Valid() && h.layout == Run(old(h.layout), qs)
    ensures Untouched(old(h.layout), old(h.ram), qs, h.layout, h.ram)
    ensures h.heapBase == old(h.heapBase) && h.heapLimit == old(h.heapLimit)
    ensures KeepsOutside(old(h.ram), h.ram, h.heapBase, h.heapLimit)
  {
    hide Tiles, Serve, Permitted, KeepsOutside, OthersSurvive, Untouched, Live, Sized, Linked, Chain;
    ghost var l, m := h.layout, h.ram;
    assert Untouched(l, m, qs, l, m) by { UntouchedSame(l, m, qs); }
    assert qs[0..] == qs;
    OutsideSame(m, h.heapBase, h.heapLimit);
    for i := 0 to |qs|
      invariant h.Valid() && Run(h.layout, qs[i..]) == Run(l, qs) && AllPermitted(h.layout, qs[i..])
      invariant Untouched(l, m, qs, h.layout, h.ram)
      invariant h.heapBase == old(h.heapBase) && h.heapLimit == old(h.heapLimit)
      invariant KeepsOutside(m, h.ram, h.heapBase, h.heapLimit)
    {
      ghost var l1, m1 := h.layout, h.ram;
      assert qs[i..][0] == qs[i] && qs[i..][1..] == qs[i + 1..];
      ServeRequest(h, qs[i]);
      UntouchedNext(l, m, qs, i, l1, m1, h.layout, h.ram);
      OutsideJoin(m, m1, h.ram, h.heapBase, h.heapLimit);
    }
    assert qs[|qs|..] == [];
  }

  lemma UntouchedSame(l: Layout, m: seq<u8>, qs: seq<Request>)
    ensures Untouched(l, m, qs, l, m)
  {
  }

  // ---------- The lost merge on a fresh heap ----------

  lemma Rounded(size: nat)
    requires 0 < size <= 16
    ensures Needed(size) == 32
  {
    AlignUpLeast(size + HEADER_BYTES, HEAP_ALIGN, 32);
  }

  lemma FirstRequest()
    ensures Serve([Block(16, 96, true)], AllocReq(16)) == [Block(16, 32, false), Block(48, 64, true)]
  {
    Rounded(16);
    hide Needed;
    var l := [Block(16, 96, true)];
    assert FirstFit(l, 32) == 0 && l[..0] == [] && l[1..] == [];
  }

  lemma SecondRequest()
    ensures Serve([Block(16, 32, false), Block(48, 64, true)], AllocReq(16)) ==
            [Block(16, 32, false), Block(48, 32, false), Block(80, 32, true)]
  {
    Rounded(16);
    hide Needed;
    var l := [Block(16, 32, false), Block(48, 64, true)];
    assert l[1..][0] == l[1];
    assert FirstFit(l, 32) == 1 && l[..1] == [l[0]] && l[2..] == [];
  }

  lemma ThirdRequest()
    ensures var l := [Block(16, 32, false), Block(48, 32, false), Block(80, 32, true)];
            && Permitted(l, FreeReq(32))
            && Serve(l, FreeReq(32)) == [Block(16, 32, true), Block(48, 32, false), Block(80, 32, true)]
  {
    var l := [Block(16, 32, false), Block(48, 32, false), Block(80, 32, true)];
    assert l[..0] == [] && l[1..] == [l[1], l[2]];
  }

  lemma FourthRequest()
    ensures var l := [Block(16, 32, true), Block(48, 32, false), Block(80, 32, true)];
            && Permitted(l, FreeReq(64))
            && Serve(l, FreeReq(64)) == [Block(16, 64, true), Block(80, 32, true)]
  {
    var l := [Block(16, 32, true), Block(48, 32, false), Block(80, 32, true)];
    assert l[1..][0] == l[1];
    assert IndexOf(l, 64) == 1;
    LostMergeExample();
  }

  lemma RunStep(l: Layout, qs: seq<Request>)
    requires qs != []
    ensures Run(l, qs) == Run(Serve(l, qs[0]), qs[1..])
    ensures AllPermitted(l, qs) <==> Permitted(l, qs[0]) && AllPermitted(Serve(l, qs[0]), qs[1..])
  {
    hide Serve, Permitted;
  }

  lemma FirstTwo()
    ensures var whole, qs := [Block(16, 96, true)], [AllocReq(16), AllocReq(16), FreeReq(32), FreeReq(64)];
            var l2 := [Block(16, 32, false), Block(48, 32, false), Block(80, 32, true)];
            && Run(whole, qs) == Run(l2, [FreeReq(32), FreeReq(64)])
            && (AllPermitted(whole, qs) <==> AllPermitted(l2, [FreeReq(32), FreeReq(64)]))
  {
    FirstRequest();
    SecondRequest();
    hide Serve, Run, AllPermitted;
    var whole, qs := [Block(16, 96, true)], [AllocReq(16), AllocReq(16), FreeReq(32), FreeReq(64)];
    assert qs[1..] == [AllocReq(16), FreeReq(32), FreeReq(64)] && qs[1..][1..] == [FreeReq(32), FreeReq(64)];
    RunStep(whole, qs);
    RunStep(Serve(whole, qs[0]), qs[1..]);
  }

  lemma LastTwo()
    ensures var l2, qs := [Block(16, 32, false), Block(48, 32, false), Block(80, 32, true)], [FreeReq(32), FreeReq(64)];
            AllPermitted(l2, qs) && Run(l2, qs) == [Block(16, 64, true), Block(80, 32, true)]
  {
    ThirdRequest();
    FourthRequest();
    var l2, qs := [Block(16, 32, false), Block(48, 32, false), Block(80, 32, true)], [FreeReq(32), FreeReq(64)];
    NothingLeft(Serve(Serve(l2, qs[0]), qs[1]));
    hide Serve, Permitted, Run, AllPermitted;
    assert qs[1..] == [FreeReq(64)] && qs[1..][1..] == [];
    RunStep(l2, qs);
    RunStep(Serve(l2, qs[0]), qs[1..]);
  }

  lemma NothingLeft(l: Layout)
    ensures Run(l, []) == l && AllPermitted(l, [])
  {}

  lemma NothingLive()
    ensures Live([Block(16, 64, true), Block(80, 32, true)]) == {}
  {}

  /**
   * How the merge is lost: of 96 fresh bytes two blocks of 32 are handed out, then both are released, the lower one
   * first. All memory is free again, but in two pieces, and a request that a fresh heap would serve fails.
   */
  lemma LostMergeRun()
    ensures var whole, qs := [Block(16, 96, true)], [AllocReq(16), AllocReq(16), FreeReq(32), FreeReq(64)];
            && Tiles(whole, 16, 112) && AllPermitted(whole, qs)
            && Run(whole, qs) == [Block(16, 64, true), Block(80, 32, true)] && Live(Run(whole, qs)) == {}
            && AllocPtr(whole, 80) != 0 && AllocPtr(Run(whole, qs), 80) == 0
  {
    TilesOne(Block(16, 96, true), 16, 112);
    hide *;
    FirstTwo();
    LastTwo();
    NothingLive();
    SplitHeap();
  }

  lemma SplitHeap()
    ensures AllocPtr([Block(16, 96, true)], 80) != 0
    ensures AllocPtr([Block(16, 64, true), Block(80, 32, true)], 80) == 0
  {
    AlignUpLeast(96, HEAP_ALIGN, 96);
    assert Needed(80) == 96;
    hide Needed;
    var l := [Block(16, 64, true), Block(80, 32, true)];
    assert l[1..] == [l[1]] && [l[1]][1..] == [];
    assert FirstFit(l, 96) == 2;
  }
}
