/**
 * What an RSDT that gives up slots does to the second walk: it goes on behind the shortened list, where the entries
 * given up still stand, and not at the next table.
 */
module AcpiDerail {
  import opened Words
  import opened AcpiWalk
  import opened AcpiPatch
  import opened AcpiTables

  // ---------- What a walk does to the sum of any range ----------

  predicate Owing(x: int) {
    MultipleOf(x, 0x100)
  }

  /** What a walk from `off` takes away from the sum of [lo, hi): the sum of every table whose checksum lies there. */
  function Owed(m: seq<u8>, off: nat, lo: nat, hi: nat): nat
    decreases |m| - off
  {
    if TableAt(m, off) then OwedBy(m, off, lo, hi) + Owed(m, off + Len(m, off), lo, hi) else 0
  }

  function OwedBy(m: seq<u8>, off: nat, lo: nat, hi: nat): nat
    requires TableAt(m, off)
  {
    if Sig(m, off) != FACS && lo <= off + 9 < hi then Sum(Table(m, off)) else 0
  }

  lemma OwedStep(m: seq<u8>, off: nat, lo: nat, hi: nat)
    requires TableAt(m, off)
    ensures Owed(m, off, lo, hi) == OwedBy(m, off, lo, hi) + Owed(m, off + Len(m, off), lo, hi)
  {
  }

  lemma OwedNone(m: seq<u8>, off: nat, lo: nat, hi: nat)
    requires !TableAt(m, off)
    ensures Owed(m, off, lo, hi) == 0
  {
  }

  lemma SameTable(m: seq<u8>, m': seq<u8>, off: nat, lo: int, hi: int)
    requires TableAt(m, off) && SameOutside(m, m', lo, hi) && hi <= off
    ensures TableAt(m', off) && Sig(m', off) == Sig(m, off) && Len(m', off) == Len(m, off)
            && Table(m', off) == Table(m, off)
  {
    SameHeader(m, m', lo, hi, off);
    hide Le32, Len, Sig;
  }

  lemma {:induction false} OwedIgnoresBefore(m: seq<u8>, m': seq<u8>, lo: int, hi: int, off: nat, a: nat, b: nat)
    requires SameOutside(m, m', lo, hi) && hi <= off
    ensures Owed(m', off, a, b) == Owed(m, off, a, b)
    decreases |m| - off
  {
    hide SameOutside, TableAt, Len, Sig, Owed, Table, Sum;
    SameHeader(m, m', lo, hi, off);
    if TableAt(m, off) {
      SameTable(m, m', off, lo, hi);
      LenBounds(m, off);
      OwedStep(m, off, a, b);
      OwedStep(m', off, a, b);
      OwedIgnoresBefore(m, m', lo, hi, off + Len(m, off), a, b);
    } else {
      OwedNone(m, off, a, b);
      OwedNone(m', off, a, b);
    }
  }

  /** Tables in front of a range owe it nothing. */
  lemma {:induction false} OwedFrom(m: seq<u8>, off: nat, r: nat, lo: nat, hi: nat)
    requires Meets(m, off, r) && TableAt(m, r) && r + Len(m, r) <= lo
    ensures Owed(m, off, lo, hi) == Owed(m, r + Len(m, r), lo, hi)
    decreases |m| - off
  {
    hide TableAt, Len, Sig, Owed, Table, Sum, Meets;
    MetIsTable(m, off, r);
    MeetsStep(m, off, r);
    LenBounds(m, off);
    LenBounds(m, r);
    OwedStep(m, off, lo, hi);
    if off != r {
      OwedFrom(m, off + Len(m, off), r, lo, hi);
    }
  }

  lemma FixedChange(m: seq<u8>, off: nat)
    requires TableAt(m, off)
    ensures off + HEADER <= |m|
    ensures var v := Fixed(m, off)[off + 9];
            Fixed(m, off) == m[off + 9 := v] && Owing(v + Sum(Table(m, off)) - m[off + 9])
  {
    hide Sum, TableAt, Sig, Len, Table;
    LenBounds(m, off);
    TableUpdate(m, off, 0);
    var t := Table(m, off);
    assert t[9] == m[off + 9] by { TableByte(m, off, 9); }
    SumUpdate(t, 9, 0);
    var sum: int := Sum(t[9 := 0]);
    var v: u8 := (0 - sum) % 0x100;
    NegationCancels(sum);
    assert Fixed(m, off) == m[off + 9 := v];
  }

  lemma TableByte(m: seq<u8>, off: nat, i: nat)
    requires TableAt(m, off) && i < HEADER
    ensures |Table(m, off)| == Len(m, off) && i < Len(m, off) && Table(m, off)[i] == m[off + i]
  {
    hide Le32;
  }

  lemma SumRange(m: seq<u8>, lo: nat, hi: nat, x: nat, v: u8)
    requires lo <= hi <= |m| && x < |m|
    ensures Sum(m[x := v][lo..hi]) == Sum(m[lo..hi]) + if lo <= x < hi then v - m[x] else 0
  {
    hide Sum;
    if lo <= x < hi {
      assert m[x := v][lo..hi] == m[lo..hi][x - lo := v];
      SumUpdate(m[lo..hi], x - lo, v);
    } else {
      assert m[x := v][lo..hi] == m[lo..hi];
    }
  }

  lemma OneFixedSum(m: seq<u8>, off: nat, lo: nat, hi: nat)
    requires TableAt(m, off) && lo <= hi <= |m|
    ensures Owing(Sum(FixedUnlessFacs(m, off)[lo..hi]) + OwedBy(m, off, lo, hi) - Sum(m[lo..hi]))
  {
    hide Sum, TableAt, Sig, Len, Table, Fixed;
    LenBounds(m, off);
    if Sig(m, off) != FACS {
      FixedChange(m, off);
      SumRange(m, lo, hi, off + 9, Fixed(m, off)[off + 9]);
    }
  }

  /** After the walk, every range has lost what it owed, modulo 256. */
  lemma {:induction false} FixAllSum(m: seq<u8>, off: nat, lo: nat, hi: nat)
    requires lo <= hi <= |m|
    ensures Owing(Sum(FixAll(m, off)[lo..hi]) + Owed(m, off, lo, hi) - Sum(m[lo..hi]))
    decreases |m| - off
  {
    hide Sum, TableAt, Sig, Len, OwedBy, Owed, FixAll, FixedUnlessFacs, Owing, SameOutside;
    if TableAt(m, off) {
      var m1 := FixedUnlessFacs(m, off);
      LenBounds(m, off);
      OneStep(m, off);
      OneFixed(m, off);
      OwedStep(m, off, lo, hi);
      OwedIgnoresBefore(m, m1, off + 9, off + 10, off + Len(m, off), lo, hi);
      OneFixedSum(m, off, lo, hi);
      FixAllSum(m1, off + Len(m, off), lo, hi);
      OwingSum(Sum(FixAll(m, off)[lo..hi]) + Owed(m1, off + Len(m, off), lo, hi) - Sum(m1[lo..hi]),
               Sum(m1[lo..hi]) + OwedBy(m, off, lo, hi) - Sum(m[lo..hi]));
    } else {
      NoTable(m, off);
      OwedNone(m, off, lo, hi);
      OwingZero();
    }
  }

  lemma OwingSum(x: int, y: int)
    requires Owing(x) && Owing(y)
    ensures Owing(x + y) && Owing(x - y)
  {
    hide MultipleOf;
    MultipleSum(x, y, 0x100);
  }

  lemma OwingZero()
    ensures Owing(0)
  {
  }

  // ---------- Which bytes and which tables survive the walk ----------

  lemma SumOne(s: seq<u8>)
    requires |s| == 1
    ensures Sum(s) == s[0]
  {
    assert Sum(s[..0]) == 0;
  }

  /** A byte survives if and only if it owes a multiple of 256. */
  lemma ByteSurvivesIff(m: seq<u8>, off: nat, x: nat)
    requires x < |m|
    ensures FixAll(m, off)[x] == m[x] <==> Owing(Owed(m, off, x, x + 1))
  {
    hide Sum, TableAt, Owed, FixAll, MultipleOf;
    FixAllSum(m, off, x, x + 1);
    SumOne(m[x..x + 1]);
    SumOne(FixAll(m, off)[x..x + 1]);
    var now: int, was: int := FixAll(m, off)[x], m[x];
    var owed: int := Owed(m, off, x, x + 1);
    ByteApart(now, was);
    if Owing(owed) {
      OwingSum(now + owed - was, owed);
    }
  }

  lemma ByteApart(a: int, b: int)
    requires 0 <= a < 0x100 && 0 <= b < 0x100
    ensures Owing(a - b) <==> a == b
  {
  }

  /** The walk owes nothing to the bytes of [lo, hi). */
  ghost predicate Spared(m: seq<u8>, off: nat, lo: nat, hi: nat) {
    forall x :: lo <= x < hi ==> SparesByte(m, off, x)
  }

  predicate SparesByte(m: seq<u8>, off: nat, x: nat) {
    Owing(Owed(m, off, x, x + 1))
  }

  lemma SparedIff(m: seq<u8>, off: nat, lo: nat, hi: nat)
    requires lo <= hi <= |m|
    ensures Spared(m, off, lo, hi) <==> forall x :: lo <= x < hi ==> FixAll(m, off)[x] == m[x]
  {
    hide Owed, FixAll, Owing;
    forall x | lo <= x < hi ensures SparesByte(m, off, x) <==> FixAll(m, off)[x] == m[x] {
      ByteSurvivesIff(m, off, x);
    }
  }

  /** Two equal words have equal bytes. */
  lemma SameWordSameBytes(m: seq<u8>, m': seq<u8>, a: nat)
    requires a + 4 <= |m| == |m'| && Le32(m', a) == Le32(m, a)
    ensures forall x :: a <= x < a + 4 ==> m'[x] == m[x]
  {
    LittleEndianInjective(m[a..a + 4], m'[a..a + 4]);
    forall x | a <= x < a + 4 ensures m'[x] == m[x] {
      assert m[x] == m[a..a + 4][x - a] && m'[x] == m'[a..a + 4][x - a];
    }
  }

  lemma {:induction false} LittleEndianInjective(b: seq<u8>, c: seq<u8>)
    requires |b| == |c| && LittleEndian(b) == LittleEndian(c)
    ensures b == c
    decreases |b|
  {
    if b != [] {
      LowByte(b[0], LittleEndian(b[1..]), c[0], LittleEndian(c[1..]));
      LittleEndianInjective(b[1..], c[1..]);
      assert b == [b[0]] + b[1..] && c == [c[0]] + c[1..];
    }
  }

  lemma LowByte(a: u8, x: nat, b: u8, y: nat)
    requires a + 0x100 * x == b + 0x100 * y
    ensures a == b && x == y
  {
  }

  /** The walk from `off` leaves the header of table `o` alone and its sum right: it settles what it owes it. */
  ghost predicate Settles(m: seq<u8>, off: nat, o: nat)
    requires TableAt(m, o)
  {
    && Spared(m, off, o, o + 8)
    && (Sig(m, o) != FACS ==> Owing(Sum(Table(m, o)) - Owed(m, off, o, o + Len(m, o))))
  }

  predicate SameHead(m: seq<u8>, m': seq<u8>, o: nat)
    requires TableAt(m, o)
  {
    TableAt(m', o) && Sig(m', o) == Sig(m, o) && Len(m', o) == Len(m, o)
  }

  lemma HeaderSurvivesIff(m: seq<u8>, off: nat, o: nat)
    requires TableAt(m, o)
    ensures SameHead(m, FixAll(m, off), o) <==> Spared(m, off, o, o + 8)
  {
    hide Owed, FixAll, Owing, Le32, Spared;
    var m' := FixAll(m, off);
    SparedIff(m, off, o, o + 8);
    if SameHead(m, m', o) {
      SameWordSameBytes(m, m', o);
      SameWordSameBytes(m, m', o + 4);
    }
    if Spared(m, off, o, o + 8) {
      SameBytesSameWord(m, m', o);
      SameBytesSameWord(m, m', o + 4);
    }
  }

  lemma TableIs(m: seq<u8>, m': seq<u8>, o: nat)
    requires TableAt(m, o) && |m'| == |m| && SameHead(m, m', o)
    ensures o + Len(m, o) <= |m| && Table(m, o) == m[o..o + Len(m, o)] && Table(m', o) == m'[o..o + Len(m, o)]
  {
    hide Le32;
  }

  lemma SumSurvivesIff(m: seq<u8>, off: nat, o: nat)
    requires TableAt(m, o) && SameHead(m, FixAll(m, off), o)
    ensures Valid(FixAll(m, off), o) <==> Owing(Sum(Table(m, o)) - Owed(m, off, o, o + Len(m, o)))
  {
    hide Owed, FixAll, TableAt, Len, Sig, Sum, Owing, Valid, Table, SameHead;
    var m' := FixAll(m, off);
    TableIs(m, m', o);
    SameHeadTable(m, m', o);
    FixAllSum(m, off, o, o + Len(m, o));
    ValidIsOwing(m', o);
    SumsAgree(Sum(Table(m', o)), Sum(Table(m, o)), Owed(m, off, o, o + Len(m, o)));
  }

  lemma SameHeadTable(m: seq<u8>, m': seq<u8>, o: nat)
    requires TableAt(m, o) && SameHead(m, m', o)
    ensures TableAt(m', o)
  {
  }

  /** A table is where it was and valid after the walk if and only if the walk settles what it owes it. */
  lemma TableSurvivesIff(m: seq<u8>, off: nat, o: nat)
    requires TableAt(m, o)
    ensures var m' := FixAll(m, off);
            SameHead(m, m', o) && (Sig(m, o) != FACS ==> Valid(m', o)) <==> Settles(m, off, o)
  {
    hide Owed, FixAll, Len, Sig, Sum, Owing, Valid, Table, Spared, Le32;
    HeaderSurvivesIff(m, off, o);
    if SameHead(m, FixAll(m, off), o) {
      SumSurvivesIff(m, off, o);
    }
  }

  lemma SumsAgree(now: int, was: int, owed: int)
    requires Owing(now + owed - was)
    ensures Owing(now) <==> Owing(was - owed)
  {
    hide Owing;
    if Owing(now) {
      OwingSum(now, now + owed - was);
    }
    if Owing(was - owed) {
      OwingSum(now + owed - was, was - owed);
    }
  }

  lemma ValidIsOwing(m: seq<u8>, o: nat)
    requires TableAt(m, o)
    ensures Valid(m, o) <==> Owing(Sum(Table(m, o)))
  {
  }

  // ---------- The exact condition ----------

  /**
   * Where the second walk goes on behind the RSDT: at the first entry given up, or at the next table if there is none.
   */
  function Resume(r: nat, addrs: seq<u32>): nat {
    r + NewLength(|addrs|)
  }

  lemma {:induction false} SettlesFrom(m: seq<u8>, r: nat, o: nat)
    requires Meets(m, 0, r) && TableAt(m, r) && TableAt(m, o) && r + Len(m, r) <= o
    ensures Settles(m, 0, o) <==> Settles(m, r + Len(m, r), o)
  {
    SparedFrom(m, r, o, o + 8);
    LenBounds(m, o);
    OwedFrom(m, 0, r, o, o + Len(m, o));
    hide Owed, TableAt, Sig, Sum, Owing, Table, Spared, Meets, Le32;
  }

  lemma SparedFrom(m: seq<u8>, r: nat, lo: nat, hi: nat)
    requires Meets(m, 0, r) && TableAt(m, r) && r + Len(m, r) <= lo
    ensures Spared(m, 0, lo, hi) <==> Spared(m, r + Len(m, r), lo, hi)
  {
    hide TableAt, Len, Meets, SparesByte;
    LenBounds(m, r);
    var at := r + Len(m, r);
    forall x | lo <= x < hi ensures SparesByte(m, 0, x) <==> SparesByte(m, at, x) {
      SparesFrom(m, r, x);
    }
  }

  lemma SparesFrom(m: seq<u8>, r: nat, x: nat)
    requires Meets(m, 0, r) && TableAt(m, r) && r + Len(m, r) <= x
    ensures SparesByte(m, 0, x) <==> SparesByte(m, r + Len(m, r), x)
  {
    OwedFrom(m, 0, r, x, x + 1);
    hide Owed;
  }

  /** A table behind the RSDT ends in order if and only if the walk from where it resumes settles what it owes it. */
  lemma CheckedIff(m: seq<u8>, f: nat, r: nat, facs: u32, dsdt: u32, addrs: seq<u32>, o: nat)
    requires Ready(m, f, r, addrs) && Meets(m, 0, o) && TableAt(m, o) && r < o
    ensures var m2 := Middle(m, f, r, facs, dsdt, addrs);
            && TableAt(m2, o)
            && (Checked(m, Rewritten(m, f, r, facs, dsdt, addrs), r, addrs, o) <==> Settles(m2, Resume(r, addrs), o))
  {
    hide Meets, Sig, Len, TableAt, Middle, FixAll, Valid, Settles, Lists;
    var m2 := Middle(m, f, r, facs, dsdt, addrs);
    MiddleTable(m, f, r, facs, dsdt, addrs, o);
    MiddleMet(m, f, r, facs, dsdt, addrs, r);
    MiddleTable(m, f, r, facs, dsdt, addrs, r);
    TablesApart(m, 0, r, o);
    LenBounds(m, o);
    SettlesFrom(m2, r, o);
    TableSurvivesIff(m2, 0, o);
  }

  ghost predicate LaterSettled(m: seq<u8>, m2: seq<u8>, r: nat, at: nat) {
    forall o: nat :: Meets(m, 0, o) && TableAt(m2, o) && r < o ==> Settles(m2, at, o)
  }

  /** Any number of entries given up, whatever they hold: when all tables end in order. */
  lemma AllValidIff(m: seq<u8>, f: nat, r: nat, facs: u32, dsdt: u32, addrs: seq<u32>)
    requires Ready(m, f, r, addrs)
    ensures AllValid(m, Rewritten(m, f, r, facs, dsdt, addrs), r, addrs)
            <==> LaterSettled(m, Middle(m, f, r, facs, dsdt, addrs), r, Resume(r, addrs))
  {
    hide Ready, Rewritten, Meets, TableAt, Checked, Middle, Settles;
    var m', m2 := Rewritten(m, f, r, facs, dsdt, addrs), Middle(m, f, r, facs, dsdt, addrs);
    forall o: nat | Meets(m, 0, o) ensures TableAt(m, o) && TableAt(m2, o) {
      MetIsTable(m, 0, o);
      MiddleTable(m, f, r, facs, dsdt, addrs, o);
    }
    forall o: nat | Meets(m, 0, o) && TableAt(m, o)
      ensures Checked(m, m', r, addrs, o) <==> r < o ==> TableAt(m2, o) && Settles(m2, Resume(r, addrs), o)
    {
      if r < o {
        CheckedIff(m, f, r, facs, dsdt, addrs, o);
      } else {
        ChecksumsHold(m, f, r, facs, dsdt, addrs, o);
      }
    }
  }

  ghost predicate PointersSpared(m: seq<u8>, at: nat, f: nat, len: nat) {
    Spared(m, at, f + 36, f + 44) && (len >= FADT_WIDE_END ==> Spared(m, at, f + 0x84, f + FADT_WIDE_END))
  }

  lemma PointersSurviveIff(m: seq<u8>, at: nat, f: nat, len: nat, facs: u32, dsdt: u32)
    requires f + len <= |m| && len >= FADT_FIELDS_END && Pointing(m, f, len, facs, dsdt)
    ensures Pointing(FixAll(m, at), f, len, facs, dsdt) <==> PointersSpared(m, at, f, len)
  {
    hide FixAll, Spared, Le32;
    var m' := FixAll(m, at);
    SparedIff(m, at, f + 36, f + 44);
    if len >= FADT_WIDE_END {
      SparedIff(m, at, f + 0x84, f + FADT_WIDE_END);
    }
    if PointersSpared(m, at, f, len) {
      PointersKept(m, m', f, len, facs, dsdt);
    }
    if Pointing(m', f, len, facs, dsdt) {
      SameWordSameBytes(m, m', f + 36);
      SameWordSameBytes(m, m', f + 40);
      if len >= FADT_WIDE_END {
        SameWordSameBytes(m, m', f + 0x84);
        SameWordSameBytes(m, m', f + 0x88);
        SameWordSameBytes(m, m', f + 0x8c);
        SameWordSameBytes(m, m', f + 0x90);
      }
    }
  }

  lemma PointersFrom(m: seq<u8>, r: nat, f: nat, len: nat)
    requires Meets(m, 0, r) && TableAt(m, r) && r + Len(m, r) <= f
    ensures PointersSpared(m, 0, f, len) <==> PointersSpared(m, r + Len(m, r), f, len)
  {
    SparedFrom(m, r, f + 36, f + 44);
    SparedFrom(m, r, f + 0x84, f + FADT_WIDE_END);
  }

  /** The exact condition for a good outcome, for every image the patch accepts. */
  lemma SoundIff(m: seq<u8>, f: nat, r: nat, facs: u32, dsdt: u32, addrs: seq<u32>)
    requires Ready(m, f, r, addrs)
    ensures var m2 := Middle(m, f, r, facs, dsdt, addrs);
            Sound(m, Rewritten(m, f, r, facs, dsdt, addrs), f, r, facs, dsdt, addrs)
            <==> LaterSettled(m, m2, r, Resume(r, addrs))
                 && (r < f ==> PointersSpared(m2, Resume(r, addrs), f, Len(m, f)))
  {
    hide Meets, Sig, Len, TableAt, AllValid, Lists, Pointing, LaterSettled, PointersSpared, Middle, FixAll;
    LenBounds(m, f);
    AllValidIff(m, f, r, facs, dsdt, addrs);
    RsdtLists(m, f, r, facs, dsdt, addrs);
    if r < f {
      var m2 := Middle(m, f, r, facs, dsdt, addrs);
      MiddleFadt(m, f, r, facs, dsdt, addrs);
      MiddleMet(m, f, r, facs, dsdt, addrs, r);
      MiddleTable(m, f, r, facs, dsdt, addrs, r);
      TablesApart(m, 0, r, f);
      PointersFrom(m2, r, f, Len(m, f));
      PointersSurviveIff(m2, 0, f, Len(m, f), facs, dsdt);
    } else {
      FadtPoints(m, f, r, facs, dsdt, addrs);
    }
  }

  /** A table the derailed walk happens to meet ends in order. */
  lemma MetAgainIsSettled(m: seq<u8>, at: nat, o: nat)
    requires Meets(m, at, o) && TableAt(m, o)
    ensures Settles(m, at, o)
  {
    hide Meets, Sig, Len, TableAt, FixAll, Valid, Settles;
    FixAllValid(m, at, o);
    TableSurvivesIff(m, at, o);
  }

  // ---------- A walk that stops behind the RSDT ----------

  /** The rewriting does not change whether the walk goes on. */
  lemma ResumeKept(m: seq<u8>, f: nat, r: nat, facs: u32, dsdt: u32, addrs: seq<u32>)
    requires Ready(m, f, r, addrs)
    ensures TableAt(Middle(m, f, r, facs, dsdt, addrs), Resume(r, addrs)) <==> TableAt(m, Resume(r, addrs))
  {
    hide Meets, Sig, Len, TableAt, Middle, SameOutside, Lists, FadtPatched;
    MiddleRsdt(m, f, r, facs, dsdt, addrs);
    var m1, m2 := FadtPatched(m, f, facs, dsdt), Middle(m, f, r, facs, dsdt, addrs);
    LenBounds(m, f);
    LenBounds(m, r);
    SameHeader(m, m1, f + 9, f + Len(m, f), Resume(r, addrs));
    SameHeader(m1, m2, r + 4, Resume(r, addrs), Resume(r, addrs));
  }

  /**
   * The word that decides it, taken for a length, stands in the image as it comes: the second entry given up; with
   * one entry given up the signature of the next table; with none the length of the next table.
   */
  lemma ResumeTest(m: seq<u8>, r: nat, addrs: seq<u32>)
    requires TableAt(m, r) && NewLength(|addrs|) <= Len(m, r) && Resume(r, addrs) + HEADER <= |m|
    ensures var next := r + Len(m, r);
            var word := if NewLength(|addrs|) + 8 <= Len(m, r) then EntryAt(m, r + HEADER, |addrs| + 1)
                        else Le32(m, Resume(r, addrs) + 4);
            && (TableAt(m, Resume(r, addrs)) <==> HEADER <= word <= |m| - Resume(r, addrs))
            && (NewLength(|addrs|) + 4 == Len(m, r) && next + HEADER <= |m| ==> word == Sig(m, next))
            && (NewLength(|addrs|) == Len(m, r) ==> word == Len(m, next))
  {
    hide Le32;
  }

  /** Then no table behind the RSDT is met. */
  lemma SpareSlotStopsWalk(m: seq<u8>, f: nat, r: nat, facs: u32, dsdt: u32, addrs: seq<u32>, o: nat)
    requires Ready(m, f, r, addrs) && !TableAt(m, Resume(r, addrs))
    ensures Meets(Middle(m, f, r, facs, dsdt, addrs), 0, o) ==> o <= r
  {
    hide Meets, Sig, Len, TableAt, Middle, Lists;
    var m2 := Middle(m, f, r, facs, dsdt, addrs);
    ResumeKept(m, f, r, facs, dsdt, addrs);
    MiddleMet(m, f, r, facs, dsdt, addrs, r);
    MiddleTable(m, f, r, facs, dsdt, addrs, r);
    if Meets(m2, 0, o) && r < o {
      NextOfMet(m2, 0, r, o);
    }
  }

  lemma MiddleValid(m: seq<u8>, f: nat, r: nat, facs: u32, dsdt: u32, addrs: seq<u32>, o: nat)
    requires Ready(m, f, r, addrs) && Meets(m, 0, o) && TableAt(m, o) && o != r
    ensures var m2 := Middle(m, f, r, facs, dsdt, addrs); TableAt(m2, o) && (Valid(m2, o) <==> o == f || Valid(m, o))
  {
    hide Meets, Sig, TableAt, Middle, SameOutside, Lists, FadtPatched, Table, Sum, Len, Pointing, PortsMoved;
    MiddleRsdt(m, f, r, facs, dsdt, addrs);
    var m1, m2 := FadtPatched(m, f, facs, dsdt), Middle(m, f, r, facs, dsdt, addrs);
    FadtPatchedIs(m, f, facs, dsdt);
    if o != f {
      TablesApart(m, 0, o, f);
      LenBounds(m, f);
      ApartSameTable(m, m1, f + 9, f + Len(m, f), o);
    }
    TablesApart(m, 0, o, r);
    LenBounds(m, r);
    ApartSameTable(m1, m2, r + 4, Resume(r, addrs), o);
  }

  lemma ApartSameTable(m: seq<u8>, m': seq<u8>, lo: int, hi: int, o: nat)
    requires TableAt(m, o) && SameOutside(m, m', lo, hi) && (o + Len(m, o) <= lo || hi <= o)
    ensures TableAt(m', o) && Len(m', o) == Len(m, o) && Table(m', o) == Table(m, o)
  {
    LenBounds(m, o);
    SameHeader(m, m', lo, hi, o);
    hide Le32, Len, Sig;
  }

  /** Each table behind it keeps place, name, length and validity, but for the FADT, which is valid. */
  lemma StoppedTable(m: seq<u8>, f: nat, r: nat, facs: u32, dsdt: u32, addrs: seq<u32>, o: nat)
    requires Ready(m, f, r, addrs) && !TableAt(m, Resume(r, addrs)) && Meets(m, 0, o) && TableAt(m, o) && r < o
    ensures var m' := Rewritten(m, f, r, facs, dsdt, addrs);
            SameHead(m, m', o) && TableAt(m', o) && (Valid(m', o) <==> o == f || Valid(m, o))
  {
    hide Meets, Sig, Len, TableAt, Middle, Valid, FixAll, Owed, Owing, Spared, Lists, Table, Sum;
    var m2, at := Middle(m, f, r, facs, dsdt, addrs), Resume(r, addrs);
    ResumeKept(m, f, r, facs, dsdt, addrs);
    MiddleTable(m, f, r, facs, dsdt, addrs, o);
    MiddleTable(m, f, r, facs, dsdt, addrs, r);
    MiddleValid(m, f, r, facs, dsdt, addrs, o);
    MiddleMet(m, f, r, facs, dsdt, addrs, r);
    TablesApart(m, 0, r, o);
    LenBounds(m, o);
    SparedFrom(m2, r, o, o + 8);
    StoppedSpares(m2, at, o, o + 8);
    HeaderSurvivesIff(m2, 0, o);
    SumSurvivesIff(m2, 0, o);
    OwedFrom(m2, 0, r, o, o + Len(m, o));
    OwedNone(m2, at, o, o + Len(m, o));
    ValidIsOwing(m2, o);
  }

  /**
   * All tables behind the RSDT are valid before the patch, but for FACS and the FADT, whose sum is put right anyway.
   */
  ghost predicate LaterValid(m: seq<u8>, f: nat, r: nat) {
    forall o: nat :: Meets(m, 0, o) && TableAt(m, o) && r < o && o != f && Sig(m, o) != FACS ==> Valid(m, o)
  }

  lemma StoppedSettles(m: seq<u8>, at: nat, o: nat)
    requires TableAt(m, o) && !TableAt(m, at)
    ensures Settles(m, at, o) <==> (Sig(m, o) != FACS ==> Valid(m, o))
  {
    hide TableAt, Len, Sig, Sum, Table, Owing, Owed;
    LenBounds(m, o);
    StoppedSpares(m, at, o, o + 8);
    OwedNone(m, at, o, o + Len(m, o));
    ValidIsOwing(m, o);
  }

  lemma StoppedSpares(m: seq<u8>, at: nat, lo: nat, hi: nat)
    requires !TableAt(m, at)
    ensures Spared(m, at, lo, hi)
  {
    hide TableAt, Owed;
    forall x | lo <= x < hi ensures SparesByte(m, at, x) {
      OwedNone(m, at, x, x + 1);
    }
  }

  /**
   * When nothing that passes for a table stands where the walk resumes: a good outcome if and only if the tables
   * behind the RSDT came with valid checksums.
   */
  lemma StoppedIsSoundIff(m: seq<u8>, f: nat, r: nat, facs: u32, dsdt: u32, addrs: seq<u32>)
    requires Ready(m, f, r, addrs) && !TableAt(m, Resume(r, addrs))
    ensures AllValid(m, Rewritten(m, f, r, facs, dsdt, addrs), r, addrs) <==> LaterValid(m, f, r)
    ensures Sound(m, Rewritten(m, f, r, facs, dsdt, addrs), f, r, facs, dsdt, addrs) <==> LaterValid(m, f, r)
  {
    hide Meets, Sig, Len, TableAt, Sound, Middle, Valid, Settles, Spared, Rewritten, AllValid;
    var m2, at := Middle(m, f, r, facs, dsdt, addrs), Resume(r, addrs);
    AllValidIff(m, f, r, facs, dsdt, addrs);
    SoundIff(m, f, r, facs, dsdt, addrs);
    ResumeKept(m, f, r, facs, dsdt, addrs);
    StoppedSpares(m2, at, f + 36, f + 44);
    StoppedSpares(m2, at, f + 0x84, f + FADT_WIDE_END);
    forall o: nat | Meets(m, 0, o) && r < o
      ensures TableAt(m, o) && TableAt(m2, o) && o + HEADER <= |m|
      ensures Settles(m2, at, o) <==> (o != f && Sig(m, o) != FACS ==> Valid(m, o))
    {
      MetIsTable(m, 0, o);
      LenBounds(m, o);
      MiddleTable(m, f, r, facs, dsdt, addrs, o);
      MiddleValid(m, f, r, facs, dsdt, addrs, o);
      StoppedSettles(m2, at, o);
    }
  }
}
