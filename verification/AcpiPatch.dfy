/** Fitting the ACPI tables of a virtual machine to where the firmware has copied them. */
module AcpiPatch {
  import opened Words
  import opened AcpiWalk

  const MAX_REFS := 32
  const PM_BASE := 0xb000
  const FADT_FIELDS_END := 84
  const FADT_WIDE_END := 0x94

  // ---------- First walk ----------

  datatype Found = Found(rsdt: Option<nat>, fadt: Option<nat>, dsdt: Option<nat>, facs: Option<nat>, refs: seq<nat>)

  const NOTHING := Found(None, None, None, None, [])

  /** Tables the RSDT lists. */
  predicate Listed(sig: u32) {
    sig != RSDT && sig != XSDT && sig != FACS && sig != DSDT
  }

  function Look(f: Found, m: seq<u8>, off: nat): Found
    requires TableAt(m, off)
  {
    var sig := Sig(m, off);
    var g := if sig == RSDT then f.(rsdt := Some(off))
             else if sig == FACP then f.(fadt := Some(off))
             else if sig == DSDT then f.(dsdt := Some(off))
             else if sig == FACS then f.(facs := Some(off))
             else f;
    if Listed(sig) && |f.refs| < MAX_REFS then g.(refs := f.refs + [off]) else g
  }

  function Survey(m: seq<u8>, off: nat, f: Found): Found
    decreases |m| - off
  {
    if TableAt(m, off) then Survey(m, off + Len(m, off), Look(f, m, off)) else f
  }

  /** The listed tables of a walk, in order. */
  function ListedOf(m: seq<u8>, ws: seq<nat>): seq<nat>
    decreases |ws|
  {
    if ws == [] then []
    else if ws[0] + HEADER <= |m| && Listed(Sig(m, ws[0])) then [ws[0]] + ListedOf(m, ws[1..])
    else ListedOf(m, ws[1..])
  }

  function First(s: seq<nat>, n: nat): seq<nat> {
    if |s| <= n then s else s[..n]
  }

  /** The references are the first 32 listed tables, in the order of the walk. */
  lemma {:induction false} SurveyLists(m: seq<u8>, off: nat, f: Found)
    requires |f.refs| <= MAX_REFS
    ensures Survey(m, off, f).refs == First(f.refs + ListedOf(m, Walk(m, off)), MAX_REFS)
    decreases |m| - off
  {
    hide TableAt, Len, Sig, Listed;
    if TableAt(m, off) {
      LenBounds(m, off);
      var g := Look(f, m, off);
      SurveyLists(m, off + Len(m, off), g);
      LookRefs(f, m, off);
      var rest := ListedOf(m, Walk(m, off + Len(m, off)));
      if Listed(Sig(m, off)) {
        assert f.refs + ([off] + rest) == f.refs + [off] + rest;
      }
    } else {
      assert f.refs + [] == f.refs;
    }
  }

  lemma LookRefs(f: Found, m: seq<u8>, off: nat)
    requires TableAt(m, off)
    ensures Look(f, m, off).refs == if Listed(Sig(m, off)) && |f.refs| < MAX_REFS then f.refs + [off] else f.refs
  {
    hide TableAt, Sig;
  }

  /** A table found under a name is one of the walk and has that name. */
  predicate Genuine(m: seq<u8>, at: Option<nat>, sig: u32) {
    at.Some? ==> Meets(m, 0, at.value) && TableAt(m, at.value) && Sig(m, at.value) == sig
  }

  predicate AllGenuine(m: seq<u8>, f: Found) {
    && Genuine(m, f.rsdt, RSDT) && Genuine(m, f.fadt, FACP) && Genuine(m, f.dsdt, DSDT) && Genuine(m, f.facs, FACS)
  }

  lemma {:induction false} SurveyGenuine(m: seq<u8>, off: nat, f: Found)
    requires AllGenuine(m, f) && (TableAt(m, off) ==> Meets(m, 0, off))
    ensures AllGenuine(m, Survey(m, off, f))
    decreases |m| - off
  {
    hide TableAt, Len, Sig, Listed, AllGenuine, Meets;
    if TableAt(m, off) {
      LenBounds(m, off);
      LookGenuine(m, off, f);
      if TableAt(m, off + Len(m, off)) {
        MeetsNext(m, 0, off);
      }
      SurveyGenuine(m, off + Len(m, off), Look(f, m, off));
    }
  }

  lemma {:induction false} MeetsNext(m: seq<u8>, from: nat, off: nat)
    requires Meets(m, from, off) && TableAt(m, off) && TableAt(m, off + Len(m, off))
    ensures Meets(m, from, off + Len(m, off))
    decreases |m| - from
  {
    hide TableAt, Len, Meets;
    MeetsStep(m, from, off);
    LenBounds(m, off);
    LenBounds(m, from);
    MeetsStep(m, from, off + Len(m, off));
    if from == off {
      MeetsStep(m, off + Len(m, off), off + Len(m, off));
    } else {
      MeetsNext(m, from + Len(m, from), off);
    }
  }

  lemma LookGenuine(m: seq<u8>, off: nat, f: Found)
    requires AllGenuine(m, f) && TableAt(m, off) && Meets(m, 0, off)
    ensures AllGenuine(m, Look(f, m, off))
  {
    hide TableAt, Sig, Meets, Listed;
  }

  // ---------- The FADT ----------

  /** An I/O register still given relative to the power management block. */
  function Relocated(m: seq<u8>, a: nat, zeroStays: bool): (r: seq<u8>)
    requires a + 4 <= |m|
    ensures |r| == |m|
  {
    var v := Le32(m, a);
    if v < 0x100 && !(zeroStays && v == 0) then Poke32(m, a, PM_BASE + v) else m
  }

  /** The absolute port for a relative one; a GPE block at 0 is one the machine does not have. */
  function Port(v: u32, zeroStays: bool): u32 {
    if v < 0x100 && !(zeroStays && v == 0) then 0xb000 + v else v
  }

  /** The four register blocks of `r` are those of `m`, made absolute. */
  predicate PortsMoved(m: seq<u8>, r: seq<u8>, f: nat)
    requires f + FADT_FIELDS_END <= |m| && |r| == |m|
  {
    && Le32(r, f + 56) == Port(Le32(m, f + 56), false) && Le32(r, f + 64) == Port(Le32(m, f + 64), false)
    && Le32(r, f + 76) == Port(Le32(m, f + 76), false) && Le32(r, f + 80) == Port(Le32(m, f + 80), true)
  }

  /** The table addresses of an FADT: 32 bits wide, and again 64 bits wide when it is long enough. */
  predicate Pointing(r: seq<u8>, f: nat, len: nat, facs: u32, dsdt: u32)
    requires f + len <= |r| && len >= FADT_FIELDS_END
  {
    && Le32(r, f + 36) == facs && Le32(r, f + 40) == dsdt
    && (len >= 0x94 ==>
          && Le32(r, f + 0x84) == facs && Le32(r, f + 0x88) == 0
          && Le32(r, f + 0x8c) == dsdt && Le32(r, f + 0x90) == 0)
  }

  /** The two table addresses in the FADT's first form, and in its wide form when it is long enough. */
  function Pointed(m: seq<u8>, f: nat, len: nat, facs: u32, dsdt: u32): (r: seq<u8>)
    requires f + len <= |m|
    ensures |r| == |m|
  {
    var m1 := if len >= 44 then Poke32(Poke32(m, f + 36, facs), f + 40, dsdt) else m;
    if len >= FADT_WIDE_END then
      Poke32(Poke32(Poke32(Poke32(m1, f + 0x84, facs), f + 0x88, 0), f + 0x8c, dsdt), f + 0x90, 0)
    else m1
  }

  function Ported(m: seq<u8>, f: nat): (r: seq<u8>)
    requires f + FADT_FIELDS_END <= |m|
    ensures |r| == |m|
  {
    Relocated(Relocated(Relocated(Relocated(m, f + 56, false), f + 64, false), f + 76, false), f + 80, true)
  }

  lemma PokeOutside(m: seq<u8>, a: nat, v: u32, lo: int, hi: int)
    requires a + 4 <= |m| && lo <= a && a + 4 <= hi
    ensures SameOutside(m, Poke32(m, a, v), lo, hi)
  {
    hide Poke32;
  }

  lemma SameJoin(m: seq<u8>, m': seq<u8>, m'': seq<u8>, lo: int, hi: int)
    requires SameOutside(m, m', lo, hi) && SameOutside(m', m'', lo, hi)
    ensures SameOutside(m, m'', lo, hi)
  {
  }

  lemma SameWider(m: seq<u8>, m': seq<u8>, lo: int, hi: int, lo': int, hi': int)
    requires SameOutside(m, m', lo, hi) && lo' <= lo && hi <= hi'
    ensures SameOutside(m, m', lo', hi')
  {
  }

  lemma RelocatedOutside(m: seq<u8>, a: nat, zeroStays: bool, lo: int, hi: int)
    requires a + 4 <= |m| && lo <= a && a + 4 <= hi
    ensures SameOutside(m, Relocated(m, a, zeroStays), lo, hi)
  {
    hide Poke32, Le32, SameOutside;
    SameRefl(m, lo, hi);
    var v := Le32(m, a);
    if v < 0x100 {
      PokeOutside(m, a, PM_BASE + v, lo, hi);
    }
  }

  lemma RelocatedPort(m: seq<u8>, a: nat, zeroStays: bool)
    requires a + 4 <= |m|
    ensures Le32(Relocated(m, a, zeroStays), a) == Port(Le32(m, a), zeroStays)
  {
    hide Le32;
  }

  lemma PortedMoves(m: seq<u8>, f: nat)
    requires f + FADT_FIELDS_END <= |m|
    ensures PortsMoved(m, Ported(m, f), f)
  {
    hide Relocated, SameOutside, Le32, Port;
    var m1 := Relocated(m, f + 56, false);
    var m2 := Relocated(m1, f + 64, false);
    var m3 := Relocated(m2, f + 76, false);
    PortStep(m, f + 56, false, [f + 64, f + 76, f + 80]);
    PortStep(m1, f + 64, false, [f + 56, f + 76, f + 80]);
    PortStep(m2, f + 76, false, [f + 56, f + 64, f + 80]);
    PortStep(m3, f + 80, true, [f + 56, f + 64, f + 76]);
  }

  /** Making one port absolute leaves three others alone. */
  lemma PortStep(m: seq<u8>, a: nat, zeroStays: bool, others: seq<nat>)
    requires a + 4 <= |m| && |others| == 3
    requires forall i :: 0 <= i < 3 ==> others[i] + 4 <= |m| && (others[i] + 4 <= a || a + 4 <= others[i])
    ensures var r := Relocated(m, a, zeroStays);
            && Le32(r, a) == Port(Le32(m, a), zeroStays) && Le32(r, others[0]) == Le32(m, others[0])
            && Le32(r, others[1]) == Le32(m, others[1]) && Le32(r, others[2]) == Le32(m, others[2])
  {
    hide Relocated, SameOutside, Le32, Port;
    var r := Relocated(m, a, zeroStays);
    RelocatedPort(m, a, zeroStays);
    RelocatedOutside(m, a, zeroStays, a, a + 4);
    SameWord(m, r, a, a + 4, others[0]);
    SameWord(m, r, a, a + 4, others[1]);
    SameWord(m, r, a, a + 4, others[2]);
  }

  lemma PortedOutside(m: seq<u8>, f: nat)
    requires f + FADT_FIELDS_END <= |m|
    ensures SameOutside(m, Ported(m, f), f + 56, f + FADT_FIELDS_END)
  {
    hide Relocated, SameOutside;
    var lo, hi := f + 56, f + FADT_FIELDS_END;
    var m1 := Relocated(m, f + 56, false);
    var m2 := Relocated(m1, f + 64, false);
    var m3 := Relocated(m2, f + 76, false);
    RelocatedOutside(m, f + 56, false, lo, hi);
    RelocatedOutside(m1, f + 64, false, lo, hi);
    RelocatedOutside(m2, f + 76, false, lo, hi);
    RelocatedOutside(m3, f + 80, true, lo, hi);
    SameJoin(m, m1, m2, lo, hi);
    SameJoin(m, m2, m3, lo, hi);
    SameJoin(m, m3, Ported(m, f), lo, hi);
  }

  lemma TwoPokes(m: seq<u8>, a: nat, x: u32, y: u32, lo: int, hi: int)
    requires a + 8 <= |m| && lo <= a && a + 8 <= hi
    ensures var r := Poke32(Poke32(m, a, x), a + 4, y);
            SameOutside(m, r, lo, hi) && Le32(r, a) == x && Le32(r, a + 4) == y && |r| == |m|
  {
    hide Poke32, SameOutside, Le32;
    var m1 := Poke32(m, a, x);
    PokeOutside(m, a, x, lo, hi);
    PokeOutside(m1, a + 4, y, lo, hi);
    PokeOutside(m1, a + 4, y, a + 4, a + 8);
    SameJoin(m, m1, Poke32(m1, a + 4, y), lo, hi);
    SameWord(m1, Poke32(m1, a + 4, y), a + 4, a + 8, a);
  }

  lemma PointedFields(m: seq<u8>, f: nat, len: nat, facs: u32, dsdt: u32)
    requires f + len <= |m| && len >= FADT_FIELDS_END
    ensures var r := Pointed(m, f, len, facs, dsdt);
            && SameOutside(m, r, f + 36, f + len) && Pointing(r, f, len, facs, dsdt)
            && (forall x :: f + 44 <= x < f + FADT_FIELDS_END ==> r[x] == m[x])
  {
    hide Poke32, SameOutside, Le32;
    var lo, hi := f + 36, f + len;
    var m1 := Poke32(Poke32(m, f + 36, facs), f + 40, dsdt);
    TwoPokes(m, f + 36, facs, dsdt, lo, f + 44);
    SameWider(m, m1, lo, f + 44, lo, hi);
    OutsideSame(m, m1, lo, f + 44);
    if len >= FADT_WIDE_END {
      var m2 := Poke32(Poke32(m1, f + 0x84, facs), f + 0x88, 0);
      var m3 := Poke32(Poke32(m2, f + 0x8c, dsdt), f + 0x90, 0);
      TwoPokes(m1, f + 0x84, facs, 0, f + 0x84, hi);
      TwoPokes(m2, f + 0x8c, dsdt, 0, f + 0x8c, hi);
      SameWord(m2, m3, f + 0x8c, hi, f + 0x84);
      SameWord(m2, m3, f + 0x8c, hi, f + 0x88);
      SameWider(m2, m3, f + 0x8c, hi, f + 0x84, hi);
      SameJoin(m1, m2, m3, f + 0x84, hi);
      SameWord(m1, m3, f + 0x84, hi, f + 36);
      SameWord(m1, m3, f + 0x84, hi, f + 40);
      OutsideSame(m1, m3, f + 0x84, hi);
      SameWider(m1, m3, f + 0x84, hi, lo, hi);
      SameJoin(m, m1, m3, lo, hi);
    }
  }

  lemma OutsideSame(m: seq<u8>, m': seq<u8>, lo: int, hi: int)
    requires SameOutside(m, m', lo, hi)
    ensures |m'| == |m| && forall x :: 0 <= x < |m| && !(lo <= x < hi) ==> m'[x] == m[x]
  {
  }

  function FadtPatched(m: seq<u8>, f: nat, facs: u32, dsdt: u32): (r: seq<u8>)
    requires TableAt(m, f) && Len(m, f) >= FADT_FIELDS_END
    ensures |r| == |m|
  {
    var m1 := Pointed(Ported(m, f), f, Len(m, f), facs, dsdt);
    FadtStays(m, f, facs, dsdt);
    Fixed(m1, f)
  }

  lemma FadtStays(m: seq<u8>, f: nat, facs: u32, dsdt: u32)
    requires TableAt(m, f) && Len(m, f) >= FADT_FIELDS_END
    ensures var m1 := Pointed(Ported(m, f), f, Len(m, f), facs, dsdt);
            && TableAt(m1, f) && Len(m1, f) == Len(m, f) && Sig(m1, f) == Sig(m, f)
            && SameOutside(m, m1, f + 36, f + Len(m, f)) && Pointing(m1, f, Len(m, f), facs, dsdt)
            && PortsMoved(m, m1, f)
  {
    LenBounds(m, f);
    hide Ported, Pointed, SameOutside, Le32, TableAt, Sig, Len, Pointing, PortsMoved;
    var hi := f + Len(m, f);
    var m0 := Ported(m, f);
    var m1 := Pointed(m0, f, Len(m, f), facs, dsdt);
    PortedOutside(m, f);
    PortedMoves(m, f);
    SameWider(m, m0, f + 56, f + FADT_FIELDS_END, f + 36, hi);
    PointedFields(m0, f, Len(m, f), facs, dsdt);
    SameJoin(m, m0, m1, f + 36, hi);
    SameHeader(m, m1, f + 36, hi, f);
    PortsKept(m, m0, m1, f);
  }

  lemma PortsKept(m: seq<u8>, r: seq<u8>, r': seq<u8>, f: nat)
    requires f + FADT_FIELDS_END <= |m| == |r| == |r'| && PortsMoved(m, r, f)
    requires forall x :: f + 44 <= x < f + FADT_FIELDS_END ==> r'[x] == r[x]
    ensures PortsMoved(m, r', f)
  {
    hide Le32, Port;
    SameBytesSameWord(r, r', f + 56);
    SameBytesSameWord(r, r', f + 64);
    SameBytesSameWord(r, r', f + 76);
    SameBytesSameWord(r, r', f + 80);
  }

  lemma PointersKept(r: seq<u8>, r': seq<u8>, f: nat, len: nat, facs: u32, dsdt: u32)
    requires f + len <= |r| == |r'| && len >= FADT_FIELDS_END && Pointing(r, f, len, facs, dsdt)
    requires forall x :: f + 36 <= x < f + 44 ==> r'[x] == r[x]
    requires len >= FADT_WIDE_END ==> forall x :: f + 0x84 <= x < f + FADT_WIDE_END ==> r'[x] == r[x]
    ensures Pointing(r', f, len, facs, dsdt)
  {
    hide Le32;
    SameBytesSameWord(r, r', f + 36);
    SameBytesSameWord(r, r', f + 40);
    if len >= FADT_WIDE_END {
      SameBytesSameWord(r, r', f + 0x84);
      SameBytesSameWord(r, r', f + 0x88);
      SameBytesSameWord(r, r', f + 0x8c);
      SameBytesSameWord(r, r', f + 0x90);
    }
  }

  /** The FADT afterwards: valid, pointing at the copies, its ports absolute, and nothing outside it changed. */
  lemma FadtPatchedIs(m: seq<u8>, f: nat, facs: u32, dsdt: u32)
    requires TableAt(m, f) && Len(m, f) >= FADT_FIELDS_END
    ensures var r := FadtPatched(m, f, facs, dsdt);
            && SameOutside(m, r, f + 9, f + Len(m, f)) && TableAt(r, f) && Len(r, f) == Len(m, f)
            && Sig(r, f) == Sig(m, f)
            && Valid(r, f) && Pointing(r, f, Len(m, f), facs, dsdt) && PortsMoved(m, r, f)
  {
    FadtStays(m, f, facs, dsdt);
    LenBounds(m, f);
    hide Ported, Pointed, SameOutside, Le32, TableAt, Sig, Len, Fixed, Valid, Pointing, PortsMoved;
    var m1 := Pointed(Ported(m, f), f, Len(m, f), facs, dsdt);
    var hi := f + Len(m, f);
    FixedIsValid(m1, f);
    SameWider(m, m1, f + 36, hi, f + 9, hi);
    SameWider(m1, Fixed(m1, f), f + 9, f + 10, f + 9, hi);
    SameJoin(m, m1, Fixed(m1, f), f + 9, hi);
    OutsideSame(m1, Fixed(m1, f), f + 9, f + 10);
    PortsKept(m, m1, Fixed(m1, f), f);
    PointersKept(m1, Fixed(m1, f), f, Len(m, f), facs, dsdt);
  }
}
