/** The buffer of copied ACPI tables, patched in place. */
module AcpiArea {
  import opened Words
  import opened AcpiWalk
  import opened AcpiPatch
  import opened AcpiTables
  import opened AcpiDerail
  import opened AcpiNames

  // ---------- What the method computes, and why it is well defined ----------

  predicate Complete(f: Found) {
    f.rsdt.Some? && f.fadt.Some? && f.dsdt.Some?
  }

  lemma SurveyMet(m: seq<u8>)
    ensures AllGenuine(m, Survey(m, 0, NOTHING))
  {
    hide Survey, TableAt, Sig;
    MeetsStep(m, 0, 0);
    SurveyGenuine(m, 0, NOTHING);
  }

  predicate Bounded(f: Found, n: nat) {
    && (forall i :: 0 <= i < |f.refs| ==> f.refs[i] < n)
    && (f.dsdt.Some? ==> f.dsdt.value < n) && (f.facs.Some? ==> f.facs.value < n)
  }

  lemma {:induction false} SurveyBounds(m: seq<u8>, off: nat, f: Found)
    requires Bounded(f, |m|)
    ensures Bounded(Survey(m, off, f), |m|)
    decreases |m| - off
  {
    hide TableAt, Len, Sig;
    if TableAt(m, off) {
      LenBounds(m, off);
      SurveyBounds(m, off + Len(m, off), Look(f, m, off));
    }
  }

  /** The only tables that are rewritten beyond their checksum are long enough for it. */
  predicate LongFadt(m: seq<u8>) {
    var f := Survey(m, 0, NOTHING);
    f.fadt.Some? && TableAt(m, f.fadt.value) ==> Len(m, f.fadt.value) >= FADT_FIELDS_END
  }

  function Slots(len: u32): nat {
    if len >= HEADER then (len - HEADER) / 4 else 0
  }

  function Address(base: nat, at: Option<nat>): u32
    requires at.Some? ==> base + at.value < TWO32
  {
    if at.Some? then base + at.value else 0
  }

  /** The addresses that go into the RSDT: as many of the references as it has slots. */
  function Chosen(base: nat, refs: seq<nat>, slots: nat): (r: seq<u32>)
    requires forall i :: 0 <= i < |refs| ==> base + refs[i] < TWO32
    ensures |r| == (if |refs| <= slots then |refs| else slots) && forall i :: 0 <= i < |r| ==> r[i] == base + refs[i]
  {
    seq(if |refs| <= slots then |refs| else slots, i requires 0 <= i < |refs| => base + refs[i])
  }

  lemma ChosenReady(m: seq<u8>, base: nat)
    requires base + |m| <= TWO32 && LongFadt(m) && Complete(Survey(m, 0, NOTHING))
    ensures var f := Survey(m, 0, NOTHING);
            && Bounded(f, |m|) && TableAt(m, f.rsdt.value)
            && Ready(m, f.fadt.value, f.rsdt.value, Chosen(base, f.refs, Slots(Len(m, f.rsdt.value))))
  {
    SurveyMet(m);
    SurveyBounds(m, 0, NOTHING);
    hide Survey, Meets, TableAt, Sig, Len;
    LenBounds(m, Survey(m, 0, NOTHING).rsdt.value);
  }

  /** The outcome of the whole patch, and None where it gives up. */
  function Patched(m: seq<u8>, base: nat): (r: Option<seq<u8>>)
    requires base + |m| <= TWO32 && LongFadt(m)
    ensures r.Some? ==> |r.value| == |m|
  {
    var f := Survey(m, 0, NOTHING);
    if !Complete(f) then None
    else
      ChosenReady(m, base);
      Some(Rewritten(m, f.fadt.value, f.rsdt.value, Address(base, f.facs), Address(base, f.dsdt),
                     Chosen(base, f.refs, Slots(Len(m, f.rsdt.value)))))
  }

  /** The list fills the RSDT, or nothing follows it. */
  predicate ListFits(m: seq<u8>, base: nat)
    requires base + |m| <= TWO32 && LongFadt(m) && Complete(Survey(m, 0, NOTHING))
  {
    ChosenReady(m, base);
    var f := Survey(m, 0, NOTHING);
    Fitting(m, f.rsdt.value, Chosen(base, f.refs, Slots(Len(m, f.rsdt.value))))
  }

  /** The table addresses are those of the copies, and the list is the first tables to be listed. */
  ghost predicate WellPatched(m: seq<u8>, base: nat, m': seq<u8>)
    requires base + |m| <= TWO32 && LongFadt(m) && Complete(Survey(m, 0, NOTHING))
  {
    ChosenReady(m, base);
    var f := Survey(m, 0, NOTHING);
    Sound(m, m', f.fadt.value, f.rsdt.value, Address(base, f.facs), Address(base, f.dsdt),
          Chosen(base, f.refs, Slots(Len(m, f.rsdt.value))))
  }

  lemma PatchIsSound(m: seq<u8>, base: nat)
    requires base + |m| <= TWO32 && LongFadt(m) && Complete(Survey(m, 0, NOTHING)) && ListFits(m, base)
    ensures Patched(m, base).Some? && WellPatched(m, base, Patched(m, base).value)
  {
    ChosenReady(m, base);
    hide Survey, Meets, TableAt, Sig, Len, Rewritten, Fitting, Ready, Sound;
    var f := Survey(m, 0, NOTHING);
    RewrittenIsSound(m, f.fadt.value, f.rsdt.value, Address(base, f.facs), Address(base, f.dsdt),
                     Chosen(base, f.refs, Slots(Len(m, f.rsdt.value))));
  }

  /** Nothing that passes for a table stands where the second walk goes on behind the RSDT. */
  predicate Stops(m: seq<u8>, base: nat)
    requires base + |m| <= TWO32 && LongFadt(m) && Complete(Survey(m, 0, NOTHING))
  {
    ChosenReady(m, base);
    var f := Survey(m, 0, NOTHING);
    !TableAt(m, Resume(f.rsdt.value, Chosen(base, f.refs, Slots(Len(m, f.rsdt.value)))))
  }

  /** The tables behind the RSDT come with valid checksums. */
  ghost predicate LaterCameValid(m: seq<u8>)
    requires Complete(Survey(m, 0, NOTHING))
  {
    LaterValid(m, Survey(m, 0, NOTHING).fadt.value, Survey(m, 0, NOTHING).rsdt.value)
  }

  /** In that case the outcome is good if and only if they do. */
  lemma StoppedPatchIff(m: seq<u8>, base: nat)
    requires base + |m| <= TWO32 && LongFadt(m) && Complete(Survey(m, 0, NOTHING)) && Stops(m, base)
    ensures Patched(m, base).Some? && (WellPatched(m, base, Patched(m, base).value) <==> LaterCameValid(m))
  {
    ChosenReady(m, base);
    hide Survey, Meets, TableAt, Sig, Len, Rewritten, Ready, Sound, LaterValid;
    var f := Survey(m, 0, NOTHING);
    StoppedIsSoundIff(m, f.fadt.value, f.rsdt.value, Address(base, f.facs), Address(base, f.dsdt),
                      Chosen(base, f.refs, Slots(Len(m, f.rsdt.value))));
  }

  // ---------- The finished image, in the letters and offsets of the tables ----------

  /** The entries of the RSDT at `r`, each as long as an address. */
  ghost predicate RsdtHolds(m': seq<u8>, r: nat, base: nat, tables: seq<nat>) {
    && r + 36 + 4 * |tables| <= |m'| && Le32(m', r + 4) == 36 + 4 * |tables|
    && forall i :: 0 <= i < |tables| ==> Le32(m', r + 36 + 4 * i) == base + tables[i]
  }

  /**
   * The RSDT lists the addresses of the first tables that are not named RSDT, XSDT, FACS or DSDT, in the order in which
   * they lie in memory: as many as there are, but no more than 32 and no more than it had entries.
   */
  ghost predicate ListsTables(m: seq<u8>, base: nat, r: nat, m': seq<u8>)
    requires TableAt(m, r)
  {
    var slots: int := (Le32(m, r + 4) - 36) / 4;
    exists tables :: RsdtHolds(m', r, base, tables) && FirstOrdinary(m, tables, if slots < 32 then slots else 32)
  }

  /** Field `a` holds the address of table `at`, or 0 when there is none. */
  predicate HoldsAddress(m': seq<u8>, a: nat, base: nat, at: Option<nat>)
    requires a + 4 <= |m'|
  {
    Le32(m', a) == match at case Some(o) => base + o case None => 0
  }

  /** The FADT at `f` is wired to the copies: FACS and DSDT, the wide forms too if it has them, and absolute ports. */
  predicate Wired(m: seq<u8>, base: nat, f: nat, facs: Option<nat>, dsdt: Option<nat>, m': seq<u8>)
    requires TableAt(m, f) && Len(m, f) >= 84 && |m'| == |m|
  {
    LenBounds(m, f);
    && HoldsAddress(m', f + 36, base, facs) && HoldsAddress(m', f + 40, base, dsdt)
    && (Len(m, f) >= 0x94 ==>
          && HoldsAddress(m', f + 0x84, base, facs) && Le32(m', f + 0x88) == 0
          && HoldsAddress(m', f + 0x8c, base, dsdt) && Le32(m', f + 0x90) == 0)
    && PortsMoved(m, m', f)
  }

  /**
   * The last RSDT and the last FADT of the image are the ones rewritten, with the last FACS and the last DSDT. The RSDT
   * lists what it should, whatever the second walk does; the FADT is wired if it comes first or the list fits.
   */
  ghost predicate Outcome(m: seq<u8>, base: nat, m': seq<u8>)
    requires base + |m| <= TWO32 && LongFadt(m) && Complete(Survey(m, 0, NOTHING))
  {
    ChosenReady(m, base);
    var f := Survey(m, 0, NOTHING);
    && AllLast(m, f, |m|) && |m'| == |m| && ListsTables(m, base, f.rsdt.value, m')
    && (f.fadt.value <= f.rsdt.value || ListFits(m, base) ==>
          Wired(m, base, f.fadt.value, f.facs, f.dsdt, m'))
  }

  /** The first of the references that find a slot. */
  lemma ChosenAreFirst(m: seq<u8>, slots: nat)
    ensures var refs := Survey(m, 0, NOTHING).refs;
            FirstOrdinary(m, First(refs, slots), if slots < 32 then slots else 32)
  {
    hide Survey, Walk, ListedOf, FirstOrdinary;
    var all := ListedOf(m, Walk(m, 0));
    SurveyLists(m, 0, NOTHING);
    assert [] + all == all;
    assert First(First(all, 32), slots) == First(all, if slots < 32 then slots else 32);
    FirstIsFirst(m, if slots < 32 then slots else 32);
  }

  lemma ListHeld(m: seq<u8>, base: nat, f: Found, m': seq<u8>)
    requires base + |m| <= TWO32 && Bounded(f, |m|) && f == Survey(m, 0, NOTHING) && f.rsdt.Some?
    requires TableAt(m, f.rsdt.value) && TableAt(m', f.rsdt.value)
    requires var addrs := Chosen(base, f.refs, Slots(Len(m, f.rsdt.value)));
             Lists(m', f.rsdt.value + HEADER, addrs) && Len(m', f.rsdt.value) == NewLength(|addrs|)
    ensures ListsTables(m, base, f.rsdt.value, m')
  {
    hide Survey, FirstOrdinary, Le32;
    var r := f.rsdt.value;
    var slots := Slots(Len(m, r));
    var tables, addrs := First(f.refs, slots), Chosen(base, f.refs, slots);
    ChosenAreFirst(m, slots);
    forall i | 0 <= i < |tables| ensures Le32(m', r + 36 + 4 * i) == base + tables[i] {
      assert EntryAt(m', r + HEADER, i) == addrs[i];
    }
    assert RsdtHolds(m', r, base, tables);
  }

  lemma PatchOutcome(m: seq<u8>, base: nat)
    requires base + |m| <= TWO32 && LongFadt(m) && Complete(Survey(m, 0, NOTHING))
    ensures Patched(m, base).Some? && Outcome(m, base, Patched(m, base).value)
  {
    ChosenReady(m, base);
    SurveyFindsLast(m);
    hide Survey, Meets, TableAt, Sig, Len, Rewritten, Fitting, Ready, AllLast, ListsTables, Lists, Pointing, PortsMoved;
    var f := Survey(m, 0, NOTHING);
    var facs, dsdt := Address(base, f.facs), Address(base, f.dsdt);
    var addrs := Chosen(base, f.refs, Slots(Len(m, f.rsdt.value)));
    RsdtLists(m, f.fadt.value, f.rsdt.value, facs, dsdt, addrs);
    RsdtStays(m, f.fadt.value, f.rsdt.value, facs, dsdt, addrs);
    ListHeld(m, base, f, Patched(m, base).value);
    if f.fadt.value <= f.rsdt.value || ListFits(m, base) {
      FadtPoints(m, f.fadt.value, f.rsdt.value, facs, dsdt, addrs);
      PortsStay(m, f.fadt.value, f.rsdt.value, facs, dsdt, addrs);
      FadtWired(m, base, f.fadt.value, f.facs, f.dsdt, Patched(m, base).value);
    }
  }

  lemma RsdtStays(m: seq<u8>, f: nat, r: nat, facs: u32, dsdt: u32, addrs: seq<u32>)
    requires Ready(m, f, r, addrs)
    ensures var m' := Rewritten(m, f, r, facs, dsdt, addrs); TableAt(m', r) && Len(m', r) == NewLength(|addrs|)
  {
    hide Meets, TableAt, Sig, Len, Rewritten, Fitting, Valid;
    ChecksumsHold(m, f, r, facs, dsdt, addrs, r);
  }

  lemma FadtWired(m: seq<u8>, base: nat, f: nat, facs: Option<nat>, dsdt: Option<nat>, m': seq<u8>)
    requires TableAt(m, f) && Len(m, f) >= 84 && |m'| == |m| && f + Len(m, f) <= |m|
    requires (facs.Some? ==> base + facs.value < TWO32) && (dsdt.Some? ==> base + dsdt.value < TWO32)
    requires Pointing(m', f, Len(m, f), Address(base, facs), Address(base, dsdt)) && PortsMoved(m, m', f)
    ensures Wired(m, base, f, facs, dsdt, m')
  {
    hide PortsMoved, Le32, TableAt, Len;
  }

  // ---------- The program ----------

  class Area {
    const base: nat
    var m: seq<u8>

    constructor (address: nat, image: seq<u8>)
      ensures base == address && m == image
    {
      base, m := address, image;
    }

    /** acpi_checksum of the table at `off`. */
    method Checksum(off: nat, len: nat) returns (c: u8)
      requires off + len <= |m|
      ensures c == (0 - Sum(m[off..off + len])) % 0x100
    {
      var sum: int := 0;
      for i := 0 to len
        invariant sum == Sum(m[off..off + i])
      {
        SumNext(m[off..off + i + 1]);
        assert m[off..off + i + 1][..i] == m[off..off + i];
        sum := sum + m[off + i];
      }
      c := (0 - sum) % 0x100;
    }

    method FixChecksum(off: nat)
      requires TableAt(m, off)
      modifies this`m
      ensures m == Fixed(old(m), off)
    {
      hide Sum;
      var len := Len(m, off);
      TableUpdate(m, off, 0);
      LenBounds(m, off);
      m := m[off + 9 := 0];
      var c := Checksum(off, len);
      m := m[off + 9 := c];
    }

    method RelocatePort(a: nat, zeroStays: bool)
      requires a + 4 <= |m|
      modifies this`m
      ensures m == Relocated(old(m), a, zeroStays)
    {
      hide Le32, Poke32;
      var v := Le32(m, a);
      if v < 0x100 && !(zeroStays && v == 0) {
        m := Poke32(m, a, PM_BASE + v);
      }
    }

    /** The FADT's ports and pointers, then its checksum. */
    method PatchFadt(f: nat, facs: u32, dsdt: u32)
      requires TableAt(m, f) && Len(m, f) >= FADT_FIELDS_END
      modifies this`m
      ensures m == FadtPatched(old(m), f, facs, dsdt)
    {
      hide Le32, Poke32, Relocated, Fixed, Len, TableAt;
      LenBounds(m, f);
      var len := Len(m, f);
      FadtStays(m, f, facs, dsdt);
      RelocatePort(f + 56, false);
      RelocatePort(f + 64, false);
      RelocatePort(f + 76, false);
      RelocatePort(f + 80, true);
      if len >= 44 {
        m := Poke32(Poke32(m, f + 36, facs), f + 40, dsdt);
      }
      if len >= FADT_WIDE_END {
        m := Poke32(Poke32(m, f + 0x84, facs), f + 0x88, 0);
        m := Poke32(Poke32(m, f + 0x8c, dsdt), f + 0x90, 0);
      }
      FixChecksum(f);
    }

    /** The RSDT's length, its entries, then its checksum. */
    method PatchRsdt(r: nat, refs: seq<nat>, count: nat)
      requires TableAt(m, r) && count <= |refs| && NewLength(count) <= Len(m, r)
      requires forall i :: 0 <= i < |refs| ==> base + refs[i] < TWO32
      modifies this`m
      ensures m == RsdtPatched(old(m), r, Chosen(base, refs, count))
    {
      hide Le32, Poke32, Fixed, Len, TableAt, Entered;
      var addrs := Chosen(base, refs, count);
      ListingIs(m, r, addrs);
      LenBounds(m, r);
      m := Poke32(m, r + 4, NewLength(count));
      ghost var goal := Entered(m, r + HEADER, addrs);
      for i := 0 to count
        invariant |m| == |old(m)| && r + HEADER + 4 * count <= |m|
        invariant Entered(m, r + HEADER + 4 * i, addrs[i..]) == goal
      {
        EnteredStep(m, r + HEADER + 4 * i, addrs[i..]);
        assert addrs[i..][1..] == addrs[i + 1..];
        m := Poke32(m, r + HEADER + 4 * i, base + refs[i]);
      }
      EnteredDone(m, r + HEADER + 4 * count);
      assert addrs[count..] == [];
      FixChecksum(r);
    }

    /** The first walk. */
    method Search() returns (f: Found)
      ensures f == Survey(m, 0, NOTHING)
    {
      hide Listed;
      f := NOTHING;
      var off := 0;
      while off + HEADER <= |m| && TableAt(m, off)
        invariant Survey(m, off, f) == Survey(m, 0, NOTHING)
        decreases |m| - off
      {
        LenBounds(m, off);
        var sig := Sig(m, off);
        var refs := if Listed(sig) && |f.refs| < MAX_REFS then f.refs + [off] else f.refs;
        if sig == RSDT {
          f := f.(rsdt := Some(off));
        } else if sig == FACP {
          f := f.(fadt := Some(off));
        } else if sig == DSDT {
          f := f.(dsdt := Some(off));
        } else if sig == FACS {
          f := f.(facs := Some(off));
        }
        f := f.(refs := refs);
        off := off + Len(m, off);
      }
    }

    /** The second walk. */
    method FixAllChecksums()
      modifies this`m
      ensures m == FixAll(old(m), 0)
    {
      hide Sum, Fixed;
      var off := 0;
      while off + HEADER <= |m| && TableAt(m, off)
        invariant |m| == |old(m)| && FixAll(m, off) == FixAll(old(m), 0)
        decreases |m| - off
      {
        LenBounds(m, off);
        var len := Len(m, off);
        OneStep(m, off);
        if Sig(m, off) != FACS {
          FixChecksum(off);
        }
        off := off + len;
      }
    }

    /** acpi_patch_qemu_tables. */
    method Patch() returns (ok: bool)
      requires base > 0 && base + |m| <= TWO32 && LongFadt(m)
      modifies this`m
      ensures ok <==> Patched(old(m), base).Some?
      ensures m == if ok then Patched(old(m), base).value else old(m)
      ensures ok <==> Complete(Survey(old(m), 0, NOTHING))
      ensures ok ==> Outcome(old(m), base, m)
      ensures ok && ListFits(old(m), base) ==> WellPatched(old(m), base, m)
      ensures ok && Stops(old(m), base) ==> (WellPatched(old(m), base, m) <==> LaterCameValid(old(m)))
    {
      hide Survey, Meets, TableAt, Sig, Len, Le32, FadtPatched, RsdtPatched, FixAll, WellPatched, Fitting, LongFadt,
        Stops, Outcome;
      var f := Search();
      if f.rsdt.None? || f.fadt.None? || f.dsdt.None? {
        return false;
      }
      ChosenReady(m, base);
      LenBounds(m, f.rsdt.value);
      var slots := Slots(Len(m, f.rsdt.value));
      var facs, dsdt := Address(base, f.facs), Address(base, f.dsdt);
      FadtLeavesRsdt(m, f.fadt.value, f.rsdt.value, facs, dsdt);
      PatchFadt(f.fadt.value, facs, dsdt);
      var count := if |f.refs| > slots then slots else |f.refs|;
      ChosenCount(base, f.refs, slots);
      PatchRsdt(f.rsdt.value, f.refs, count);
      FixAllChecksums();
      PatchOutcome(old(m), base);
      if ListFits(old(m), base) {
        PatchIsSound(old(m), base);
      }
      if Stops(old(m), base) {
        StoppedPatchIff(old(m), base);
      }
      return true;
    }
  }

  lemma SumNext(s: seq<u8>)
    requires s != []
    ensures Sum(s) == Sum(s[..|s| - 1]) + s[|s| - 1]
  {
  }

  lemma EnteredStep(m: seq<u8>, a: nat, addrs: seq<u32>)
    requires a + 4 * |addrs| <= |m| && addrs != []
    ensures Entered(m, a, addrs) == Entered(Poke32(m, a, addrs[0]), a + 4, addrs[1..])
  {
  }

  lemma EnteredDone(m: seq<u8>, a: nat)
    requires a <= |m|
    ensures Entered(m, a, []) == m
  {
  }

  lemma ChosenCount(base: nat, refs: seq<nat>, slots: nat)
    requires forall i :: 0 <= i < |refs| ==> base + refs[i] < TWO32
    ensures Chosen(base, refs, if |refs| > slots then slots else |refs|) == Chosen(base, refs, slots)
  {
  }

  /** The RSDP the firmware installs: it checks out and points at the RSDT. */
  method InstallRsdp(oem: seq<u8>, rsdt: u32) returns (rsdp: seq<u8>)
    requires |oem| == 6
    ensures |rsdp| == 20 && Sum(rsdp) % 0x100 == 0 && Le32(rsdp, 16) == rsdt && rsdp[9..15] == oem
    ensures rsdp[..8] ==
            ['R' as int, 'S' as int, 'D' as int, ' ' as int, 'P' as int, 'T' as int, 'R' as int, ' ' as int]
  {
    hide Sum, Poke32, Le32;
    var name := ['R' as int, 'S' as int, 'D' as int, ' ' as int, 'P' as int, 'T' as int, 'R' as int, ' ' as int];
    var blank := name + [0] + oem + [0, 0, 0, 0, 0];
    var filled := Poke32(blank, 16, rsdt);
    var sum: int := Sum(filled);
    rsdp := filled[8 := (0 - sum) % 0x100];
    SumUpdate(filled, 8, (0 - sum) % 0x100);
    NegationCancels(sum);
    SameBytesSameWord(filled, rsdp, 16);
    assert filled[8] == blank[8] == 0;
    assert rsdp[..8] == filled[..8] == blank[..8] == name;
    assert rsdp[9..15] == filled[9..15] == blank[9..15] == oem;
  }
}
