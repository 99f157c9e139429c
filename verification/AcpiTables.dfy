/** The whole patch: what the two walks and the rewriting in between leave behind. */
module AcpiTables {
  import opened Words
  import opened AcpiWalk
  import opened AcpiPatch

  // ---------- The RSDT ----------

  function Entered(m: seq<u8>, a: nat, addrs: seq<u32>): (r: seq<u8>)
    requires a + 4 * |addrs| <= |m|
    ensures |r| == |m|
    decreases |addrs|
  {
    if addrs == [] then m else Entered(Poke32(m, a, addrs[0]), a + 4, addrs[1..])
  }

  ghost predicate Lists(m: seq<u8>, a: nat, addrs: seq<u32>) {
    a + 4 * |addrs| <= |m| && forall i :: 0 <= i < |addrs| ==> EntryAt(m, a, i) == addrs[i]
  }

  function EntryAt(m: seq<u8>, a: nat, i: int): u32
    requires 0 <= i && a + 4 * i + 4 <= |m|
  {
    Le32(m, a + 4 * i)
  }

  lemma {:induction false} EnteredIs(m: seq<u8>, a: nat, addrs: seq<u32>)
    requires a + 4 * |addrs| <= |m|
    ensures SameOutside(m, Entered(m, a, addrs), a, a + 4 * |addrs|) && Lists(Entered(m, a, addrs), a, addrs)
    decreases |addrs|
  {
    hide Poke32, Le32, SameOutside;
    SameRefl(m, a, a + 4 * |addrs|);
    if addrs != [] {
      var hi := a + 4 * |addrs|;
      var m1, r := Poke32(m, a, addrs[0]), Entered(m, a, addrs);
      PokeOutside(m, a, addrs[0], a, hi);
      EnteredIs(m1, a + 4, addrs[1..]);
      SameWord(m1, r, a + 4, hi, a);
      SameWider(m1, r, a + 4, hi, a, hi);
      SameJoin(m, m1, r, a, hi);
      forall i | 0 <= i < |addrs| ensures EntryAt(r, a, i) == addrs[i] {
        if i > 0 {
          assert EntryAt(r, a + 4, i - 1) == addrs[1..][i - 1];
        }
      }
    }
  }

  lemma ListsKept(m: seq<u8>, m': seq<u8>, a: nat, addrs: seq<u32>)
    requires Lists(m, a, addrs) && |m'| == |m| && forall x :: a <= x < a + 4 * |addrs| ==> m'[x] == m[x]
    ensures Lists(m', a, addrs)
  {
    forall i | 0 <= i < |addrs| ensures EntryAt(m', a, i) == addrs[i] {
      assert EntryAt(m, a, i) == addrs[i];
      SameBytesSameWord(m, m', a + 4 * i);
    }
  }

  function NewLength(n: nat): nat {
    HEADER + 4 * n
  }

  function Listing(m: seq<u8>, r: nat, addrs: seq<u32>): (m': seq<u8>)
    requires TableAt(m, r) && NewLength(|addrs|) <= Len(m, r)
    ensures |m'| == |m|
  {
    LenBounds(m, r);
    Entered(Poke32(m, r + 4, NewLength(|addrs|)), r + HEADER, addrs)
  }

  lemma ListingIs(m: seq<u8>, r: nat, addrs: seq<u32>)
    requires TableAt(m, r) && NewLength(|addrs|) <= Len(m, r)
    ensures var m2 := Listing(m, r, addrs);
            && SameOutside(m, m2, r + 4, r + NewLength(|addrs|)) && Lists(m2, r + HEADER, addrs)
            && TableAt(m2, r) && Len(m2, r) == NewLength(|addrs|) && Sig(m2, r) == Sig(m, r)
  {
    LenBounds(m, r);
    hide Poke32, Le32, SameOutside, Entered, Lists;
    var hi := r + NewLength(|addrs|);
    var m1 := Poke32(m, r + 4, NewLength(|addrs|));
    var m2 := Entered(m1, r + HEADER, addrs);
    PokeOutside(m, r + 4, NewLength(|addrs|), r + 4, hi);
    EnteredIs(m1, r + HEADER, addrs);
    SameWider(m1, m2, r + HEADER, hi, r + 4, hi);
    SameJoin(m, m1, m2, r + 4, hi);
    SameWord(m, m2, r + 4, hi, r);
    SameWord(m1, m2, r + HEADER, hi, r + 4);
  }

  function RsdtPatched(m: seq<u8>, r: nat, addrs: seq<u32>): (m': seq<u8>)
    requires TableAt(m, r) && NewLength(|addrs|) <= Len(m, r)
    ensures |m'| == |m|
  {
    ListingIs(m, r, addrs);
    Fixed(Listing(m, r, addrs), r)
  }

  /** The new length and exactly the given entries; nothing else changes, in particular no entry given up. */
  lemma RsdtPatchedIs(m: seq<u8>, r: nat, addrs: seq<u32>)
    requires TableAt(m, r) && NewLength(|addrs|) <= Len(m, r)
    ensures var m' := RsdtPatched(m, r, addrs);
            && SameOutside(m, m', r + 4, r + NewLength(|addrs|)) && Lists(m', r + HEADER, addrs)
            && TableAt(m', r) && Len(m', r) == NewLength(|addrs|) && Sig(m', r) == Sig(m, r)
  {
    ListingIs(m, r, addrs);
    LenBounds(m, r);
    hide Listing, Le32, SameOutside, Lists, Fixed, TableAt, Sig, Len;
    var hi := r + NewLength(|addrs|);
    var m2 := Listing(m, r, addrs);
    FixedIsValid(m2, r);
    SameWider(m2, Fixed(m2, r), r + 9, r + 10, r + 4, hi);
    SameJoin(m, m2, Fixed(m2, r), r + 4, hi);
    FixedListing(m2, r, addrs);
  }

  lemma FixedListing(m: seq<u8>, r: nat, addrs: seq<u32>)
    requires TableAt(m, r) && Lists(m, r + HEADER, addrs)
    ensures Lists(Fixed(m, r), r + HEADER, addrs)
  {
    FixedIsValid(m, r);
    hide Lists, Fixed, TableAt, Sig, Len, Valid;
    ListsKept(m, Fixed(m, r), r + HEADER, addrs);
  }

  // ---------- What rewriting one table does to a walk ----------

  /**
   * Rewriting the body of table `f` leaves in the walk every table up to `f`, and every other one too if its length
   * stays the same or nothing followed it.
   */
  lemma {:induction false} MeetsKept(m: seq<u8>, m': seq<u8>, off: nat, f: nat, o: nat)
    requires Meets(m, off, f) && Meets(m, off, o) && TableAt(m, f) && TableAt(m', f)
    requires SameOutside(m, m', f + 4, f + Len(m, f))
    requires o <= f || Len(m', f) == Len(m, f) || !TableAt(m, f + Len(m, f))
    ensures Meets(m', off, o)
    decreases |m| - off
  {
    hide TableAt, Len, Sig, Meets, SameOutside;
    MetIsTable(m, off, f);
    LenBounds(m, f);
    MeetsStep(m, off, o);
    MeetsStep(m', off, o);
    if off == f {
      if o != f {
        MetIsTable(m, f + Len(m, f), o);
        MeetsIgnoresBefore(m, m', f + 4, f + Len(m, f), f + Len(m, f), o);
      }
    } else {
      LenBounds(m, off);
      SameHeader(m, m', f + 4, f + Len(m, f), off);
      if o != off {
        MeetsStep(m, off, f);
        MeetsKept(m, m', off + Len(m, off), f, o);
      }
    }
  }

  /** Tables met on one walk do not overlap. */
  lemma {:induction false} TablesApart(m: seq<u8>, off: nat, a: nat, b: nat)
    requires Meets(m, off, a) && Meets(m, off, b) && TableAt(m, a) && TableAt(m, b) && a != b
    ensures a + Len(m, a) <= b || b + Len(m, b) <= a
    decreases |m| - off
  {
    hide TableAt, Len, Meets;
    MetIsTable(m, off, a);
    MetIsTable(m, off, b);
    if a != off && b != off {
      LenBounds(m, off);
      MeetsStep(m, off, a);
      MeetsStep(m, off, b);
      TablesApart(m, off + Len(m, off), a, b);
    }
  }

  // ---------- The whole patch ----------

  /** An FADT long enough for its fields, and an RSDT long enough for the list. */
  predicate Ready(m: seq<u8>, f: nat, r: nat, addrs: seq<u32>) {
    && Meets(m, 0, f) && TableAt(m, f) && Sig(m, f) == FACP && Len(m, f) >= FADT_FIELDS_END
    && Meets(m, 0, r) && TableAt(m, r) && Sig(m, r) == RSDT && NewLength(|addrs|) <= Len(m, r)
  }

  /** The list takes up the whole RSDT, or no table follows it. */
  predicate Fitting(m: seq<u8>, r: nat, addrs: seq<u32>)
    requires TableAt(m, r)
  {
    Len(m, r) == NewLength(|addrs|) || !TableAt(m, r + Len(m, r))
  }

  /** The image between rewriting and the second walk. */
  function Middle(m: seq<u8>, f: nat, r: nat, facs: u32, dsdt: u32, addrs: seq<u32>): (m2: seq<u8>)
    requires Ready(m, f, r, addrs)
    ensures |m2| == |m|
  {
    FadtLeavesRsdt(m, f, r, facs, dsdt);
    RsdtPatched(FadtPatched(m, f, facs, dsdt), r, addrs)
  }

  /** The rewriting between the two walks, and the second walk. */
  function Rewritten(m: seq<u8>, f: nat, r: nat, facs: u32, dsdt: u32, addrs: seq<u32>): (m': seq<u8>)
    requires Ready(m, f, r, addrs)
    ensures |m'| == |m|
  {
    FixAll(Middle(m, f, r, facs, dsdt, addrs), 0)
  }

  lemma RsdtIsNotFadt()
    ensures RSDT != FACP
  {
  }

  /** Rewriting the FADT moves no table and leaves the RSDT alone. */
  lemma FadtLeavesRsdt(m: seq<u8>, f: nat, r: nat, facs: u32, dsdt: u32)
    requires Ready(m, f, r, [])
    ensures var m1 := FadtPatched(m, f, facs, dsdt);
            TableAt(m1, r) && Len(m1, r) == Len(m, r) && Sig(m1, r) == Sig(m, r)
    ensures f + Len(m, f) <= r || r + Len(m, r) <= f
  {
    hide Meets, Sig, Len, TableAt, FadtPatched, SameOutside, Valid, Le32;
    RsdtIsNotFadt();
    TablesApart(m, 0, f, r);
    LenBounds(m, f);
    LenBounds(m, r);
    FadtPatchedIs(m, f, facs, dsdt);
    SameHeader(m, FadtPatched(m, f, facs, dsdt), f + 9, f + Len(m, f), r);
  }

  lemma FadtKeepsWalk(m: seq<u8>, f: nat, facs: u32, dsdt: u32, o: nat)
    requires Meets(m, 0, f) && TableAt(m, f) && Len(m, f) >= FADT_FIELDS_END && Meets(m, 0, o)
    ensures Meets(FadtPatched(m, f, facs, dsdt), 0, o)
  {
    hide Meets, Sig, Len, TableAt, FadtPatched, SameOutside, Valid, Le32;
    LenBounds(m, f);
    FadtPatchedIs(m, f, facs, dsdt);
    SameWider(m, FadtPatched(m, f, facs, dsdt), f + 9, f + Len(m, f), f + 4, f + Len(m, f));
    MeetsKept(m, FadtPatched(m, f, facs, dsdt), 0, f, o);
  }

  /** That nothing follows the RSDT is not changed by rewriting the FADT. */
  lemma FadtKeepsEnd(m: seq<u8>, f: nat, r: nat, facs: u32, dsdt: u32, addrs: seq<u32>)
    requires Ready(m, f, r, addrs) && Fitting(m, r, addrs)
    ensures TableAt(FadtPatched(m, f, facs, dsdt), r) && Fitting(FadtPatched(m, f, facs, dsdt), r, addrs)
  {
    hide Meets, Sig, Len, TableAt, FadtPatched, SameOutside, Valid, Le32;
    FadtLeavesRsdt(m, f, r, facs, dsdt);
    LenBounds(m, f);
    LenBounds(m, r);
    FadtPatchedIs(m, f, facs, dsdt);
    if !TableAt(m, r + Len(m, r)) {
      if f + Len(m, f) <= r {
        SameHeader(m, FadtPatched(m, f, facs, dsdt), f + 9, f + Len(m, f), r + Len(m, r));
      } else {
        AfterEarlier(m, r, f);
      }
    }
  }

  /** A table met behind `r` means that some table follows `r` directly. */
  lemma AfterEarlier(m: seq<u8>, r: nat, f: nat)
    requires Meets(m, 0, r) && Meets(m, 0, f) && TableAt(m, r) && r < f
    ensures TableAt(m, r + Len(m, r))
  {
    NextOfMet(m, 0, r, f);
  }

  lemma {:induction false} NextOfMet(m: seq<u8>, off: nat, r: nat, f: nat)
    requires Meets(m, off, r) && Meets(m, off, f) && TableAt(m, r) && r < f
    ensures TableAt(m, r + Len(m, r))
    decreases |m| - off
  {
    hide TableAt, Len, Meets;
    MetIsTable(m, off, r);
    MetIsTable(m, off, f);
    MeetsStep(m, off, r);
    MeetsStep(m, off, f);
    LenBounds(m, off);
    if off == r {
      MetIsTable(m, r + Len(m, r), f);
    } else {
      NextOfMet(m, off + Len(m, off), r, f);
    }
  }

  lemma MiddleRsdt(m: seq<u8>, f: nat, r: nat, facs: u32, dsdt: u32, addrs: seq<u32>)
    requires Ready(m, f, r, addrs)
    ensures var m1, m2 := FadtPatched(m, f, facs, dsdt), Middle(m, f, r, facs, dsdt, addrs);
            && SameOutside(m, m1, f + 9, f + Len(m, f)) && SameOutside(m1, m2, r + 4, r + NewLength(|addrs|))
            && TableAt(m2, r) && Len(m2, r) == NewLength(|addrs|) && Sig(m2, r) == Sig(m, r)
            && Lists(m2, r + HEADER, addrs) && (f + Len(m, f) <= r || r + Len(m, r) <= f)
  {
    hide Meets, Sig, Len, TableAt, RsdtPatched, FadtPatched, SameOutside, Lists, Valid, Le32, Pointing, PortsMoved;
    FadtLeavesRsdt(m, f, r, facs, dsdt);
    FadtPatchedIs(m, f, facs, dsdt);
    RsdtPatchedIs(FadtPatched(m, f, facs, dsdt), r, addrs);
  }

  /** It still has every table of the first walk where it was; only the RSDT has another length. */
  lemma MiddleTable(m: seq<u8>, f: nat, r: nat, facs: u32, dsdt: u32, addrs: seq<u32>, o: nat)
    requires Ready(m, f, r, addrs) && Meets(m, 0, o) && TableAt(m, o)
    ensures var m2 := Middle(m, f, r, facs, dsdt, addrs);
            && TableAt(m2, o) && Sig(m2, o) == Sig(m, o)
            && Len(m2, o) == if o == r then NewLength(|addrs|) else Len(m, o)
  {
    hide Meets, Sig, Len, TableAt, FadtPatched, Middle, SameOutside, Lists, Valid, Le32, Pointing, PortsMoved;
    MiddleRsdt(m, f, r, facs, dsdt, addrs);
    LenBounds(m, r);
    LenBounds(m, o);
    var m1 := FadtPatched(m, f, facs, dsdt);
    if o != f {
      TablesApart(m, 0, o, f);
      LenBounds(m, f);
      SameHeader(m, m1, f + 9, f + Len(m, f), o);
    } else {
      FadtPatchedIs(m, f, facs, dsdt);
    }
    if o != r {
      TablesApart(m, 0, o, r);
      SameHeader(m1, Middle(m, f, r, facs, dsdt, addrs), r + 4, r + NewLength(|addrs|), o);
    }
  }

  /** The second walk meets every table of the first up to the RSDT, and those behind it too if the list fits. */
  lemma MiddleMet(m: seq<u8>, f: nat, r: nat, facs: u32, dsdt: u32, addrs: seq<u32>, o: nat)
    requires Ready(m, f, r, addrs) && Meets(m, 0, o) && TableAt(m, o) && (o <= r || Fitting(m, r, addrs))
    ensures Meets(Middle(m, f, r, facs, dsdt, addrs), 0, o)
  {
    hide Meets, Sig, Len, TableAt, FadtPatched, Middle, SameOutside, Lists, Valid, Le32, Pointing, PortsMoved;
    FadtLeavesRsdt(m, f, r, facs, dsdt);
    MiddleRsdt(m, f, r, facs, dsdt, addrs);
    var m1, m2 := FadtPatched(m, f, facs, dsdt), Middle(m, f, r, facs, dsdt, addrs);
    FadtKeepsWalk(m, f, facs, dsdt, o);
    FadtKeepsWalk(m, f, facs, dsdt, r);
    LenBounds(m, r);
    SameWider(m1, m2, r + 4, r + NewLength(|addrs|), r + 4, r + Len(m, r));
    if o > r {
      FadtKeepsEnd(m, f, r, facs, dsdt, addrs);
    }
    MeetsKept(m1, m2, 0, r, o);
  }

  /** Every table of the first walk keeps its place and name, and all but FACS end with a valid checksum. */
  lemma ChecksumsHold(m: seq<u8>, f: nat, r: nat, facs: u32, dsdt: u32, addrs: seq<u32>, o: nat)
    requires Ready(m, f, r, addrs) && Meets(m, 0, o) && TableAt(m, o) && (o <= r || Fitting(m, r, addrs))
    ensures Checked(m, Rewritten(m, f, r, facs, dsdt, addrs), r, addrs, o)
  {
    hide Meets, Sig, Len, TableAt, Middle, FixAll, Fitting, Valid;
    MiddleTable(m, f, r, facs, dsdt, addrs, o);
    MiddleMet(m, f, r, facs, dsdt, addrs, o);
    FixAllValid(Middle(m, f, r, facs, dsdt, addrs), 0, o);
  }

  /** The RSDT holds exactly the chosen addresses, in order, whatever happens behind it. */
  lemma RsdtLists(m: seq<u8>, f: nat, r: nat, facs: u32, dsdt: u32, addrs: seq<u32>)
    requires Ready(m, f, r, addrs)
    ensures Lists(Rewritten(m, f, r, facs, dsdt, addrs), r + HEADER, addrs)
  {
    hide Meets, Sig, Len, TableAt, Middle, FixAll, Fitting, Lists, SameOutside, FadtPatched;
    MiddleRsdt(m, f, r, facs, dsdt, addrs);
    MiddleMet(m, f, r, facs, dsdt, addrs, r);
    var m2 := Middle(m, f, r, facs, dsdt, addrs);
    LenBounds(m2, r);
    forall x | r + HEADER <= x < r + HEADER + 4 * |addrs| ensures FixAll(m2, 0)[x] == m2[x] {
      FixAllKeeps(m2, 0, r, x);
    }
    ListsKept(m2, FixAll(m2, 0), r + HEADER, addrs);
  }

  lemma MiddleFadt(m: seq<u8>, f: nat, r: nat, facs: u32, dsdt: u32, addrs: seq<u32>)
    requires Ready(m, f, r, addrs)
    ensures f + Len(m, f) <= |m| && Pointing(Middle(m, f, r, facs, dsdt, addrs), f, Len(m, f), facs, dsdt)
  {
    hide Meets, Sig, Len, TableAt, FadtPatched, Middle, Lists, SameOutside, Le32, Valid, Pointing, PortsMoved;
    LenBounds(m, f);
    LenBounds(m, r);
    MiddleRsdt(m, f, r, facs, dsdt, addrs);
    FadtPatchedIs(m, f, facs, dsdt);
    var m1, m2 := FadtPatched(m, f, facs, dsdt), Middle(m, f, r, facs, dsdt, addrs);
    OutsideSame(m1, m2, r + 4, r + NewLength(|addrs|));
    PointersKept(m1, m2, f, Len(m, f), facs, dsdt);
  }

  /** The FADT points at the given FACS and DSDT. */
  lemma FadtPoints(m: seq<u8>, f: nat, r: nat, facs: u32, dsdt: u32, addrs: seq<u32>)
    requires Ready(m, f, r, addrs) && (f <= r || Fitting(m, r, addrs))
    ensures f + Len(m, f) <= |m| && Pointing(Rewritten(m, f, r, facs, dsdt, addrs), f, Len(m, f), facs, dsdt)
  {
    hide Meets, Sig, Len, TableAt, Middle, FixAll, Fitting, Le32, Pointing;
    LenBounds(m, f);
    MiddleTable(m, f, r, facs, dsdt, addrs, f);
    MiddleMet(m, f, r, facs, dsdt, addrs, f);
    MiddleFadt(m, f, r, facs, dsdt, addrs);
    RsdtIsNotFadt();
    var m2 := Middle(m, f, r, facs, dsdt, addrs);
    forall x | f + 36 <= x < f + Len(m, f) ensures FixAll(m2, 0)[x] == m2[x] {
      FixAllKeeps(m2, 0, f, x);
    }
    PointersKept(m2, FixAll(m2, 0), f, Len(m, f), facs, dsdt);
  }

  lemma MiddlePorts(m: seq<u8>, f: nat, r: nat, facs: u32, dsdt: u32, addrs: seq<u32>)
    requires Ready(m, f, r, addrs)
    ensures f + FADT_FIELDS_END <= |m| && PortsMoved(m, Middle(m, f, r, facs, dsdt, addrs), f)
  {
    hide Meets, Sig, Len, TableAt, FadtPatched, Middle, Lists, SameOutside, Le32, Valid, Pointing, PortsMoved;
    LenBounds(m, f);
    LenBounds(m, r);
    MiddleRsdt(m, f, r, facs, dsdt, addrs);
    FadtPatchedIs(m, f, facs, dsdt);
    var m1, m2 := FadtPatched(m, f, facs, dsdt), Middle(m, f, r, facs, dsdt, addrs);
    OutsideSame(m1, m2, r + 4, r + NewLength(|addrs|));
    PortsKept(m, m1, m2, f);
  }

  /** The register blocks of the FADT are absolute. */
  lemma PortsStay(m: seq<u8>, f: nat, r: nat, facs: u32, dsdt: u32, addrs: seq<u32>)
    requires Ready(m, f, r, addrs) && (f <= r || Fitting(m, r, addrs))
    ensures f + FADT_FIELDS_END <= |m| && PortsMoved(m, Rewritten(m, f, r, facs, dsdt, addrs), f)
  {
    hide Meets, Sig, Len, TableAt, Middle, FixAll, Fitting, Le32, PortsMoved;
    LenBounds(m, f);
    MiddleTable(m, f, r, facs, dsdt, addrs, f);
    MiddleMet(m, f, r, facs, dsdt, addrs, f);
    MiddlePorts(m, f, r, facs, dsdt, addrs);
    var m2 := Middle(m, f, r, facs, dsdt, addrs);
    forall x | f + 36 <= x < f + Len(m, f) ensures FixAll(m2, 0)[x] == m2[x] {
      FixAllKeeps(m2, 0, f, x);
    }
    PortsKept(m, m2, FixAll(m2, 0), f);
  }

  /** Table `o` is where it was, with its name and length (the RSDT: its new length), and valid unless it is FACS. */
  predicate Checked(m: seq<u8>, m': seq<u8>, r: nat, addrs: seq<u32>, o: nat)
    requires TableAt(m, o)
  {
    && TableAt(m', o) && Sig(m', o) == Sig(m, o) && Len(m', o) == (if o == r then NewLength(|addrs|) else Len(m, o))
    && (Sig(m, o) != FACS ==> Valid(m', o))
  }

  ghost predicate AllValid(m: seq<u8>, m': seq<u8>, r: nat, addrs: seq<u32>) {
    forall o: nat :: Meets(m, 0, o) && TableAt(m, o) ==> Checked(m, m', r, addrs, o)
  }

  /** All tables are in order, the RSDT lists exactly the given addresses, the FADT points right. */
  ghost predicate Sound(m: seq<u8>, m': seq<u8>, f: nat, r: nat, facs: u32, dsdt: u32, addrs: seq<u32>)
    requires TableAt(m, f) && Len(m, f) >= FADT_FIELDS_END
  {
    && |m'| == |m| && AllValid(m, m', r, addrs) && Lists(m', r + HEADER, addrs)
    && Pointing(m', f, Len(m, f), facs, dsdt)
  }

  lemma RewrittenIsSound(m: seq<u8>, f: nat, r: nat, facs: u32, dsdt: u32, addrs: seq<u32>)
    requires Ready(m, f, r, addrs) && Fitting(m, r, addrs)
    ensures Sound(m, Rewritten(m, f, r, facs, dsdt, addrs), f, r, facs, dsdt, addrs)
  {
    hide Fitting, Rewritten, Lists, Le32, AllValid, TableAt, Pointing, Meets, Sig, Len;
    EveryTableValid(m, f, r, facs, dsdt, addrs);
    RsdtLists(m, f, r, facs, dsdt, addrs);
    FadtPoints(m, f, r, facs, dsdt, addrs);
  }

  lemma EveryTableValid(m: seq<u8>, f: nat, r: nat, facs: u32, dsdt: u32, addrs: seq<u32>)
    requires Ready(m, f, r, addrs) && Fitting(m, r, addrs)
    ensures AllValid(m, Rewritten(m, f, r, facs, dsdt, addrs), r, addrs)
  {
    hide Ready, Fitting, Rewritten, Meets, TableAt, Checked;
    var m' := Rewritten(m, f, r, facs, dsdt, addrs);
    forall o: nat | Meets(m, 0, o) && TableAt(m, o) ensures Checked(m, m', r, addrs, o) {
      ChecksumsHold(m, f, r, facs, dsdt, addrs, o);
    }
  }
}
