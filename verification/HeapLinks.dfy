/** How a division into blocks is written into memory: in-band headers, free blocks chained in address order. */
module HeapLinks {
  import opened Words
  import opened HeapLayout

  /** Address of the first free block, or `tail` when there is none. */
  function Chain(l: Layout, tail: nat): nat
    decreases |l|
  {
    if l == [] then tail else if l[0].free then l[0].addr else Chain(l[1..], tail)
  }

  /** Address of the last free block, or 0. */
  function LastFree(l: Layout): nat
    decreases |l|
  {
    if l == [] then 0
    else if LastFree(l[1..]) != 0 then LastFree(l[1..])
    else if l[0].free then l[0].addr else 0
  }

  /**
   * Each block's header holds its size, and each free block's header the address of the next free block;
   * the last one points to `tail`.
   */
  ghost predicate Linked(m: seq<u8>, l: Layout, tail: nat)
    decreases |l|
  {
    l == [] ||
    (&& l[0].addr + HEADER_BYTES <= |m|
     && Le32(m, l[0].addr) == l[0].size
     && (l[0].free ==> Le32(m, l[0].addr + 4) == Chain(l[1..], tail))
     && Linked(m, l[1..], tail))
  }

  lemma {:induction false} ChainConcat(x: Layout, y: Layout, tail: nat)
    ensures Chain(x + y, tail) == Chain(x, Chain(y, tail))
    decreases |x|
  {
    if x == [] {
      assert x + y == y;
    } else {
      assert (x + y)[1..] == x[1..] + y;
      ChainConcat(x[1..], y, tail);
    }
  }

  lemma {:induction false} LinkedConcat(m: seq<u8>, x: Layout, y: Layout, tail: nat)
    ensures Linked(m, x + y, tail) <==> Linked(m, x, Chain(y, tail)) && Linked(m, y, tail)
    decreases |x|
  {
    if x == [] {
      assert x + y == y;
    } else {
      assert (x + y)[1..] == x[1..] + y;
      ChainConcat(x[1..], y, tail);
      LinkedConcat(m, x[1..], y, tail);
    }
  }

  lemma {:induction false} ChainOfLastFree(l: Layout, t: nat, t': nat)
    ensures LastFree(l) != 0 ==> Chain(l, t) == Chain(l, t')
    ensures (forall b :: b in l ==> b.addr > 0) && LastFree(l) == 0 ==> Chain(l, t) == t
    decreases |l|
  {
    if l != [] {
      ChainOfLastFree(l[1..], t, t');
    }
  }

  lemma {:induction false} LastFreeIsIn(l: Layout)
    requires LastFree(l) != 0
    ensures exists b :: b in l && b.free && b.addr == LastFree(l)
    decreases |l|
  {
    if LastFree(l[1..]) != 0 {
      LastFreeIsIn(l[1..]);
    }
  }

  lemma {:induction false} LastFreeConcat(x: Layout, y: Layout)
    ensures LastFree(x + y) == if LastFree(y) != 0 then LastFree(y) else LastFree(x)
    decreases |x|
  {
    if x == [] {
      assert x + y == y;
    } else {
      assert (x + y)[1..] == x[1..] + y;
      LastFreeConcat(x[1..], y);
    }
  }

  lemma {:induction false} NoneFree(l: Layout, tail: nat)
    requires forall b :: b in l ==> !b.free
    ensures Chain(l, tail) == tail && LastFree(l) == 0
    decreases |l|
  {
    if l != [] {
      NoneFree(l[1..], tail);
    }
  }

  lemma {:induction false} LastLink(m: seq<u8>, l: Layout, tail: nat)
    requires Linked(m, l, tail) && LastFree(l) != 0 && forall b :: b in l ==> b.addr > 0
    ensures LastFree(l) + HEADER_BYTES <= |m| && Le32(m, LastFree(l) + 4) == tail
    decreases |l|
  {
    if LastFree(l[1..]) != 0 {
      LastLink(m, l[1..], tail);
    } else {
      ChainOfLastFree(l[1..], tail, tail);
    }
  }

  // ---------- Changing memory ----------

  ghost predicate SameHeader(m: seq<u8>, m': seq<u8>, b: Block)
    requires b.addr + HEADER_BYTES <= |m| == |m'|
  {
    Le32(m', b.addr) == Le32(m, b.addr) && Le32(m', b.addr + 4) == Le32(m, b.addr + 4)
  }

  lemma {:induction false} LinkedFrame(m: seq<u8>, m': seq<u8>, l: Layout, tail: nat)
    requires |m| == |m'| && Linked(m, l, tail)
    requires forall b :: b in l ==> b.addr + HEADER_BYTES <= |m| && SameHeader(m, m', b)
    ensures Linked(m', l, tail)
    decreases |l|
  {
    if l != [] {
      assert l[0] in l;
      LinkedFrame(m, m', l[1..], tail);
    }
  }

  /** Storing `t'` in the last free block's link redirects the chain from `t` to `t'`. */
  lemma {:induction false} Relink(m: seq<u8>, m': seq<u8>, l: Layout, t: nat, t': nat, start: nat, end: nat)
    requires |m| == |m'| && Linked(m, l, t) && Tiles(l, start, end) && start > 0
    requires forall b :: b in l ==> b.addr + HEADER_BYTES <= |m|
                                    && Le32(m', b.addr) == Le32(m, b.addr)
                                    && (b.addr != LastFree(l) ==> SameHeader(m, m', b))
                                    && (b.addr == LastFree(l) ==> Le32(m', b.addr + 4) == t')
    ensures Linked(m', l, t')
    decreases |l|
  {
    hide Le32;
    if l != [] {
      var r := l[1..];
      assert l[0] in l;
      forall b | b in r ensures b.addr > start {
        var i :| 0 <= i < |r| && r[i] == b;
        TilesInOrder(r, start + l[0].size, end, i, i);
      }
      ChainOfLastFree(r, t, t');
      if LastFree(r) != 0 {
        LastFreeIsIn(r);
        Relink(m, m', r, t, t', start + l[0].size, end);
      } else {
        ChainOfLastFree(r, t', t');
        RelinkNone(m, m', r, t, t', start + l[0].size, end);
      }
    }
  }

  lemma {:induction false} RelinkNone(m: seq<u8>, m': seq<u8>, l: Layout, t: nat, t': nat, start: nat, end: nat)
    requires |m| == |m'| && Linked(m, l, t) && Tiles(l, start, end) && start > 0
    requires LastFree(l) == 0
    requires forall b :: b in l ==> b.addr + HEADER_BYTES <= |m| && Le32(m', b.addr) == Le32(m, b.addr)
    ensures Linked(m', l, t')
    decreases |l|
  {
    if l != [] {
      assert l[0] in l;
      RelinkNone(m, m', l[1..], t, t', start + l[0].size, end);
    }
  }
}
