/** ACPI tables laid one after the other in a buffer: walking them, and keeping their checksums right. */
module AcpiWalk {
  import opened Words

  const HEADER := 36

  function Sig(m: seq<u8>, off: nat): u32
    requires off + HEADER <= |m|
  {
    Le32(m, off)
  }

  function Len(m: seq<u8>, off: nat): u32
    requires off + HEADER <= |m|
  {
    Le32(m, off + 4)
  }

  /** The four characters of a signature as the little-endian word they make. */
  function Named(a: char, b: char, c: char, d: char): u32
    requires a < '\U{0100}' && b < '\U{0100}' && c < '\U{0100}' && d < '\U{0100}'
  {
    Le16(a as int, b as int) + 0x1_0000 * (Le16(c as int, d as int) as int)
  }

  const FACS: u32 := Named('F', 'A', 'C', 'S')
  const RSDT: u32 := Named('R', 'S', 'D', 'T')
  const XSDT: u32 := Named('X', 'S', 'D', 'T')
  const DSDT: u32 := Named('D', 'S', 'D', 'T')
  const FACP: u32 := Named('F', 'A', 'C', 'P')

  /** A table starts at `off`: a whole header and a length that stays inside the buffer. */
  predicate TableAt(m: seq<u8>, off: nat) {
    off + HEADER <= |m| && HEADER <= Len(m, off) <= |m| - off
  }

  /** The tables met from `off` on. */
  function Walk(m: seq<u8>, off: nat): seq<nat>
    decreases |m| - off
  {
    if TableAt(m, off) then [off] + Walk(m, off + Len(m, off)) else []
  }

  /** The walk from `off` meets a table at `o`. */
  predicate Meets(m: seq<u8>, off: nat, o: nat)
    decreases |m| - off
  {
    TableAt(m, off) && (o == off || Meets(m, off + Len(m, off), o))
  }

  /** Bytes outside [lo, hi) are the same. */
  ghost predicate SameOutside(m: seq<u8>, m': seq<u8>, lo: int, hi: int) {
    |m'| == |m| && forall i :: 0 <= i < |m| && !(lo <= i < hi) ==> m'[i] == m[i]
  }

  lemma SameWord(m: seq<u8>, m': seq<u8>, lo: int, hi: int, a: nat)
    requires SameOutside(m, m', lo, hi) && a + 4 <= |m| && (a + 4 <= lo || hi <= a)
    ensures Le32(m', a) == Le32(m, a)
  {
    SameBytesSameWord(m, m', a);
  }

  lemma SameHeader(m: seq<u8>, m': seq<u8>, lo: int, hi: int, off: nat)
    requires SameOutside(m, m', lo, hi) && (off + 8 <= lo || hi <= off)
    ensures TableAt(m', off) == TableAt(m, off)
    ensures off + HEADER <= |m| ==> Sig(m', off) == Sig(m, off) && Len(m', off) == Len(m, off)
  {
    hide Le32;
    if off + HEADER <= |m| {
      SameWord(m, m', lo, hi, off);
      SameWord(m, m', lo, hi, off + 4);
    }
  }

  lemma LenBounds(m: seq<u8>, off: nat)
    requires TableAt(m, off)
    ensures HEADER <= Len(m, off) && off + Len(m, off) <= |m| && off + HEADER <= |m|
  {
  }

  lemma MeetsStep(m: seq<u8>, off: nat, o: nat)
    ensures Meets(m, off, o) <==> TableAt(m, off) && (o == off || Meets(m, off + Len(m, off), o))
  {
  }

  /** The tables met are those of the list. */
  lemma {:induction false} MeetsIsWalk(m: seq<u8>, off: nat, o: nat)
    ensures Meets(m, off, o) <==> o in Walk(m, off)
    decreases |m| - off
  {
    hide Len, Sig;
    if TableAt(m, off) {
      LenBounds(m, off);
      MeetsIsWalk(m, off + Len(m, off), o);
    }
  }

  lemma {:induction false} MetIsTable(m: seq<u8>, off: nat, o: nat)
    requires Meets(m, off, o)
    ensures TableAt(m, off) && TableAt(m, o) && off <= o && (o != off ==> off + Len(m, off) <= o)
    decreases |m| - off
  {
    hide TableAt, Len, Meets;
    MeetsStep(m, off, o);
    LenBounds(m, off);
    if o != off {
      MetIsTable(m, off + Len(m, off), o);
    }
  }

  /** A walk sees nothing of what lies before it. */
  lemma {:induction false} MeetsIgnoresBefore(m: seq<u8>, m': seq<u8>, lo: int, hi: int, off: nat, o: nat)
    requires SameOutside(m, m', lo, hi) && hi <= off
    ensures Meets(m', off, o) <==> Meets(m, off, o)
    decreases |m| - off
  {
    hide SameOutside, TableAt, Len, Sig, Meets;
    SameHeader(m, m', lo, hi, off);
    MeetsStep(m, off, o);
    MeetsStep(m', off, o);
    if TableAt(m, off) {
      LenBounds(m, off);
      MeetsIgnoresBefore(m, m', lo, hi, off + Len(m, off), o);
    }
  }

  // ---------- Sums ----------

  function Sum(s: seq<u8>): nat
    decreases |s|
  {
    if s == [] then 0 else Sum(s[..|s| - 1]) + s[|s| - 1]
  }

  lemma {:induction false} SumUpdate(s: seq<u8>, i: nat, v: u8)
    requires i < |s|
    ensures Sum(s[i := v]) == Sum(s) - s[i] + v
    decreases |s|
  {
    var n := |s| - 1;
    if i < n {
      assert s[i := v][..n] == s[..n][i := v];
      SumUpdate(s[..n], i, v);
    } else {
      assert s[i := v][..n] == s[..n];
    }
  }

  function Table(m: seq<u8>, off: nat): seq<u8>
    requires TableAt(m, off)
  {
    m[off..off + Len(m, off)]
  }

  predicate Valid(m: seq<u8>, off: nat)
    requires TableAt(m, off)
  {
    Sum(Table(m, off)) % 0x100 == 0
  }

  /** acpi_fix_table_checksum. */
  function Fixed(m: seq<u8>, off: nat): (r: seq<u8>)
    requires TableAt(m, off)
    ensures |r| == |m|
  {
    m[off + 9 := (0 - Sum(Table(m[off + 9 := 0], off))) % 0x100]
  }

  lemma UpdateOutside(m: seq<u8>, i: nat, v: u8)
    requires i < |m|
    ensures SameOutside(m, m[i := v], i, i + 1)
  {
  }

  lemma TableUpdate(m: seq<u8>, off: nat, v: u8)
    requires TableAt(m, off)
    ensures var m' := m[off + 9 := v];
            && TableAt(m', off) && Len(m', off) == Len(m, off) && Sig(m', off) == Sig(m, off)
            && Table(m', off) == Table(m, off)[9 := v] && |Table(m, off)| == Len(m, off)
  {
    UpdateOutside(m, off + 9, v);
    SameHeader(m, m[off + 9 := v], off + 9, off + 10, off);
    hide Le32, Len, Sig;
  }

  /** The table is valid afterwards, and only its checksum byte has changed. */
  lemma FixedIsValid(m: seq<u8>, off: nat)
    requires TableAt(m, off)
    ensures var m' := Fixed(m, off);
            && SameOutside(m, m', off + 9, off + 10) && TableAt(m', off) && Valid(m', off)
            && Len(m', off) == Len(m, off) && Sig(m', off) == Sig(m, off)
  {
    hide SameOutside, Sum, TableAt, Sig, Len, Table;
    LenBounds(m, off);
    TableUpdate(m, off, 0);
    var sum: int := Sum(Table(m[off + 9 := 0], off));
    TableUpdate(m, off, (0 - sum) % 0x100);
    UpdateOutside(m, off + 9, (0 - sum) % 0x100);
    SumUpdate(Table(m, off), 9, 0);
    SumUpdate(Table(m, off), 9, (0 - sum) % 0x100);
    NegationCancels(sum);
  }

  lemma NegationCancels(sum: nat)
    ensures (sum + (0 - sum) % 0x100) % 0x100 == 0
  {
  }

  // ---------- The final pass ----------

  /** The image after the table at `off` has been seen to. */
  function FixedUnlessFacs(m: seq<u8>, off: nat): (r: seq<u8>)
    requires TableAt(m, off)
    ensures |r| == |m|
  {
    if Sig(m, off) != FACS then Fixed(m, off) else m
  }

  function FixAll(m: seq<u8>, off: nat): (r: seq<u8>)
    ensures |r| == |m|
    decreases |m| - off
  {
    if TableAt(m, off) then FixAll(FixedUnlessFacs(m, off), off + Len(m, off)) else m
  }

  lemma OneFixed(m: seq<u8>, off: nat)
    requires TableAt(m, off)
    ensures var m1 := FixedUnlessFacs(m, off);
            && SameOutside(m, m1, off + 9, off + 10) && TableAt(m1, off)
            && Len(m1, off) == Len(m, off) && Sig(m1, off) == Sig(m, off)
            && (Sig(m, off) != FACS ==> Valid(m1, off))
  {
    hide Fixed, Sum, SameOutside, TableAt, Len, Sig, Valid;
    FixedIsValid(m, off);
    SameRefl(m, off + 9, off + 10);
  }

  lemma OneStep(m: seq<u8>, off: nat)
    requires TableAt(m, off)
    ensures var m1 := FixedUnlessFacs(m, off); FixAll(m, off) == FixAll(m1, off + Len(m, off)) && |m1| == |m|
  {
    hide FixedUnlessFacs;
  }

  lemma OneStepMeets(m: seq<u8>, off: nat, o: nat)
    requires TableAt(m, off)
    ensures Meets(FixedUnlessFacs(m, off), off + Len(m, off), o) <==> Meets(m, off + Len(m, off), o)
  {
    hide FixedUnlessFacs, Le32, Meets, SameOutside;
    OneFixed(m, off);
    LenBounds(m, off);
    MeetsIgnoresBefore(m, FixedUnlessFacs(m, off), off + 9, off + 10, off + Len(m, off), o);
  }

  lemma SameRefl(m: seq<u8>, lo: int, hi: int)
    ensures SameOutside(m, m, lo, hi)
  {
  }

  /** Nothing before the starting point changes. */
  lemma {:induction false} FixAllFrom(m: seq<u8>, off: nat)
    ensures SameOutside(m, FixAll(m, off), off, |m|)
    decreases |m| - off
  {
    hide TableAt, Len, Sig, FixAll, FixedUnlessFacs;
    if TableAt(m, off) {
      OneFixed(m, off);
      OneStep(m, off);
      LenBounds(m, off);
      var m1 := FixedUnlessFacs(m, off);
      FixAllFrom(m1, off + Len(m, off));
    } else {
      NoTable(m, off);
    }
  }

  lemma NoTable(m: seq<u8>, off: nat)
    requires !TableAt(m, off)
    ensures FixAll(m, off) == m
  {
  }

  lemma ValidKept(m: seq<u8>, m': seq<u8>, off: nat, lo: int, hi: int)
    requires TableAt(m, off) && SameOutside(m, m', lo, hi) && off + Len(m, off) <= lo
    ensures TableAt(m', off) && Sig(m', off) == Sig(m, off) && Len(m', off) == Len(m, off)
            && Table(m', off) == Table(m, off)
  {
    SameHeader(m, m', lo, hi, off);
    hide Le32, Len, Sig;
  }

  /** The final pass leaves the tables where they are, and every one of them but FACS with a valid checksum. */
  lemma {:induction false} FixAllValid(m: seq<u8>, off: nat, o: nat)
    requires Meets(m, off, o)
    ensures var m' := FixAll(m, off);
            && TableAt(m, o) && TableAt(m', o) && Sig(m', o) == Sig(m, o) && Len(m', o) == Len(m, o)
            && (Sig(m, o) != FACS ==> Valid(m', o))
    decreases |m| - off
  {
    hide TableAt, Len, Sig, FixAll, FixedUnlessFacs, Valid, SameOutside, Meets;
    MetIsTable(m, off, o);
    MeetsStep(m, off, o);
    OneFixed(m, off);
    OneStep(m, off);
    LenBounds(m, off);
    var m1 := FixedUnlessFacs(m, off);
    var next := off + Len(m, off);
    if o == off {
      FixAllFrom(m1, next);
      ValidStays(m1, FixAll(m1, next), off, next, |m1|);
    } else {
      OneStepMeets(m, off, o);
      FixAllValid(m1, next, o);
      SameHeader(m, m1, off + 9, off + 10, o);
      LenBounds(m, o);
    }
  }

  lemma ValidStays(m: seq<u8>, m': seq<u8>, off: nat, lo: int, hi: int)
    requires TableAt(m, off) && SameOutside(m, m', lo, hi) && off + Len(m, off) <= lo
    ensures TableAt(m', off) && Sig(m', off) == Sig(m, off) && Len(m', off) == Len(m, off)
            && (Valid(m, off) ==> Valid(m', off))
  {
    ValidKept(m, m', off, lo, hi);
    hide TableAt, Len, Sig, Sum;
  }

  /** Inside a table only the checksum byte is touched. */
  lemma {:induction false} FixAllKeeps(m: seq<u8>, off: nat, o: nat, x: nat)
    requires Meets(m, off, o) && TableAt(m, o) && o <= x < o + Len(m, o) && x != o + 9
    ensures x < |m| && FixAll(m, off)[x] == m[x]
    decreases |m| - off
  {
    hide TableAt, Len, Sig, FixAll, FixedUnlessFacs, Valid, Meets;
    MetIsTable(m, off, o);
    MeetsStep(m, off, o);
    OneFixed(m, off);
    OneStep(m, off);
    LenBounds(m, off);
    LenBounds(m, o);
    var m1 := FixedUnlessFacs(m, off);
    var next := off + Len(m, off);
    if o == off {
      FixAllFrom(m1, next);
    } else {
      OneStepMeets(m, off, o);
      SameHeader(m, m1, off + 9, off + 10, o);
      FixAllKeeps(m1, next, o, x);
    }
  }
}
