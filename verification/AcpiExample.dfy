/**
 * An image whose RSDT has spare slots in front of a table that came without a checksum: the patch leaves it invalid.
 */
module AcpiExample {
  import opened Words
  import opened AcpiWalk
  import opened AcpiPatch
  import opened AcpiTables
  import opened AcpiDerail
  import opened AcpiArea

  function Blank(n: nat): (r: seq<u8>)
    ensures |r| == n && forall i :: 0 <= i < n ==> r[i] == 0
  {
    seq(n, _ => 0)
  }

  /** A table of zeros with the given name. */
  function Empty(name: seq<u8>, len: u8): (r: seq<u8>)
    requires |name| == 4 && len >= HEADER
    ensures |r| == len
  {
    name + [len, 0, 0, 0] + Blank(len - 8)
  }

  const FACP_NAME: seq<u8> := ['F' as int, 'A' as int, 'C' as int, 'P' as int]
  const RSDT_NAME: seq<u8> := ['R' as int, 'S' as int, 'D' as int, 'T' as int]
  const DSDT_NAME: seq<u8> := ['D' as int, 'S' as int, 'D' as int, 'T' as int]

  /** FADT at 0, RSDT with three slots at 84, DSDT at 132. */
  const IMAGE: seq<u8> := Empty(FACP_NAME, 84) + Empty(RSDT_NAME, 48) + Empty(DSDT_NAME, 36)

  lemma WordOf(b: seq<u8>)
    requires |b| == 4
    ensures LittleEndian(b) == Le16(b[0], b[1]) + 0x1_0000 * (Le16(b[2], b[3]) as int)
  {
    FourBytes(b);
  }

  /** An empty table inside a larger image is met as one. */
  lemma EmptyAt(before: seq<u8>, name: seq<u8>, len: u8, after: seq<u8>)
    requires |name| == 4 && len >= HEADER
    ensures var m, off := before + Empty(name, len) + after, |before|;
            TableAt(m, off) && Len(m, off) == len && Sig(m, off) == LittleEndian(name)
            && Table(m, off) == Empty(name, len)
  {
    hide LittleEndian, Empty;
    var t := Empty(name, len);
    var m, off := before + t + after, |before|;
    assert m[off..off + len] == t;
    EmptyParts(name, len);
    assert m[off..off + 4] == t[..4] && m[off + 4..off + 8] == t[4..8];
    WordOf([len, 0, 0, 0]);
  }

  lemma EmptyParts(name: seq<u8>, len: u8)
    requires |name| == 4 && len >= HEADER
    ensures Empty(name, len)[..4] == name && Empty(name, len)[4..8] == [len, 0, 0, 0]
  {
  }

  lemma ImageTables()
    ensures |IMAGE| == 168
    ensures TableAt(IMAGE, 0) && Len(IMAGE, 0) == 84 && Sig(IMAGE, 0) == FACP
    ensures TableAt(IMAGE, 84) && Len(IMAGE, 84) == 48 && Sig(IMAGE, 84) == RSDT
    ensures TableAt(IMAGE, 132) && Len(IMAGE, 132) == 36 && Sig(IMAGE, 132) == DSDT
    ensures Table(IMAGE, 132) == Empty(DSDT_NAME, 36)
  {
    hide TableAt, Len, Sig, LittleEndian, Table, Empty;
    var a, b, c := Empty(FACP_NAME, 84), Empty(RSDT_NAME, 48), Empty(DSDT_NAME, 36);
    EmptyAt([], FACP_NAME, 84, b + c);
    assert [] + a + (b + c) == IMAGE;
    EmptyAt(a, RSDT_NAME, 48, c);
    EmptyAt(a + b, DSDT_NAME, 36, []);
    assert a + b + c + [] == IMAGE;
    WordOf(FACP_NAME);
    WordOf(RSDT_NAME);
    WordOf(DSDT_NAME);
  }

  /** Behind the one entry that is needed stand two zeros. */
  lemma ImageStops()
    ensures !TableAt(IMAGE, 124)
  {
    ImageTables();
    FourBytes(IMAGE[128..132]);
    var a, b, c := Empty(FACP_NAME, 84), Empty(RSDT_NAME, 48), Empty(DSDT_NAME, 36);
    assert IMAGE[128..132] == b[44..48] == Blank(40)[36..40] == [0, 0, 0, 0];
  }

  lemma {:induction false} SumBlank(s: seq<u8>, n: nat)
    ensures Sum(s + Blank(n)) == Sum(s)
    decreases n
  {
    if n == 0 {
      assert s + Blank(0) == s;
    } else {
      SumBlank(s, n - 1);
      assert (s + Blank(n))[..|s| + n - 1] == s + Blank(n - 1);
    }
  }

  lemma DsdtInvalid()
    ensures Sum(Empty(DSDT_NAME, 36)) == 339
  {
    var head := DSDT_NAME + [36, 0, 0, 0];
    SumBlank(head, 28);
    SumEight(head);
  }

  lemma SumPlus(s: seq<u8>, b: u8, all: seq<u8>)
    requires all == s + [b]
    ensures Sum(all) == Sum(s) + b
  {
    assert all[..|s|] == s;
  }

  lemma SumEight(s: seq<u8>)
    requires |s| == 8
    ensures Sum(s) == Sum(s[..4]) + s[4] + s[5] + s[6] + s[7]
    ensures Sum(s[..4]) == Sum([]) + s[0] + s[1] + s[2] + s[3]
  {
    hide Sum;
    SumPlus(s[..7], s[7], s);
    SumPlus(s[..6], s[6], s[..7]);
    SumPlus(s[..5], s[5], s[..6]);
    SumPlus(s[..4], s[4], s[..5]);
    SumPlus(s[..3], s[3], s[..4]);
    SumPlus(s[..2], s[2], s[..3]);
    SumPlus(s[..1], s[1], s[..2]);
    SumPlus([], s[0], s[..1]);
  }

  lemma ImageSurvey()
    ensures Survey(IMAGE, 0, NOTHING) == Found(Some(84), Some(0), Some(132), None, [0])
  {
    ImageTables();
    NamesDiffer();
    hide TableAt, Len, Sig;
    var f1 := Look(NOTHING, IMAGE, 0);
    var f2 := Look(f1, IMAGE, 84);
    assert !TableAt(IMAGE, 168) by { NothingAtEnd(IMAGE); }
    SurveyStep(IMAGE, 0, NOTHING);
    SurveyStep(IMAGE, 84, f1);
    SurveyStep(IMAGE, 132, f2);
    assert [] + [0] == [0];
  }

  lemma SurveyStep(m: seq<u8>, off: nat, f: Found)
    requires TableAt(m, off)
    ensures Survey(m, off, f) == Survey(m, off + Len(m, off), Look(f, m, off))
  {
  }

  lemma NothingAtEnd(m: seq<u8>)
    ensures !TableAt(m, |m|)
  {
  }

  lemma NamesDiffer()
    ensures FACP != RSDT && FACP != DSDT && FACP != FACS && FACP != XSDT && RSDT != DSDT && RSDT != FACS && DSDT != FACS
  {
  }

  lemma ImageReady(base: nat)
    requires base + 168 <= TWO32
    ensures |IMAGE| == 168 && LongFadt(IMAGE) && Complete(Survey(IMAGE, 0, NOTHING)) && Stops(IMAGE, base)
  {
    ImageTables();
    ImageSurvey();
    ImageStops();
    hide Survey, TableAt, Len;
    assert LongFadt(IMAGE);
    ChosenReady(IMAGE, base);
    assert |Chosen(base, [0], 3)| == 1;
  }

  /** The patch succeeds, and the DSDT it came with, which is 83 too much, still sums to 83 afterwards. */
  lemma SpareSlotsLeaveInvalid(base: nat)
    requires base + 168 <= TWO32
    ensures |IMAGE| == 168 && LongFadt(IMAGE) && Complete(Survey(IMAGE, 0, NOTHING)) && Stops(IMAGE, base)
    ensures Patched(IMAGE, base).Some? && !WellPatched(IMAGE, base, Patched(IMAGE, base).value)
    ensures var m' := Patched(IMAGE, base).value; TableAt(m', 132) && Sig(m', 132) == DSDT && !Valid(m', 132)
  {
    ImageReady(base);
    ImageTables();
    ImageSurvey();
    DsdtInvalid();
    ChosenReady(IMAGE, base);
    StoppedPatchIff(IMAGE, base);
    MetThird(IMAGE);
    hide Survey, TableAt, Len, Sig, Meets, Sum, Rewritten, WellPatched, Empty, LongFadt, Table;
    var addrs := Chosen(base, [0], 3);
    assert !TableAt(IMAGE, Resume(84, addrs));
    StoppedTable(IMAGE, 0, 84, Address(base, None), Address(base, Some(132)), addrs, 132);
    assert !Valid(IMAGE, 132);
    NamesDiffer();
    assert !LaterCameValid(IMAGE);
  }

  lemma MetThird(m: seq<u8>)
    requires TableAt(m, 0) && Len(m, 0) == 84 && TableAt(m, 84) && Len(m, 84) == 48 && TableAt(m, 132)
    ensures Meets(m, 0, 132)
  {
    hide TableAt, Len, Meets;
    MeetsStep(m, 0, 132);
    MeetsStep(m, 84, 132);
    MeetsStep(m, 132, 132);
  }
}
