/** The bus-master descriptor table of an IDE transfer, built in C and, for a hardware check, again in Python. */
module PrdTable {
  import opened Words

  const MAX_PRD := 32
  const BANK: nat := 0x1_0000
  const END_OF_TABLE := 0x8000_0000

  datatype Prd = Prd(base: u32, countEot: u32) {
    /** Bytes this entry transfers; the 16-bit field 0 stands for 64 KiB. */
    function Size(): nat {
      if countEot % 0x1_0000 == 0 then 0x1_0000 else countEot % 0x1_0000
    }

    predicate Last() {
      countEot >= 0x8000_0000
    }

    /** Nothing is in the second word but the count and perhaps the end mark. */
    predicate Clean() {
      countEot == Size() % 0x1_0000 + (if Last() then 0x8000_0000 else 0)
    }
  }

  const EMPTY := Prd(0, 0)

  function Chunk(dest: nat, bytes: nat): (r: nat)
    requires bytes > 0
    ensures 0 < r <= bytes && r <= BANK
  {
    var boundary := BANK - dest % BANK;
    var chunk := if bytes > boundary then boundary else bytes;
    if chunk > BANK then BANK else chunk
  }

  /** The entries before the end mark is set. */
  function Entries(dest: nat, bytes: nat): seq<Prd>
    requires dest + bytes <= TWO32
    decreases bytes
  {
    if bytes == 0 then []
    else
      var c := Chunk(dest, bytes);
      [Prd(dest, if c == BANK then 0 else c)] + Entries(dest + c, bytes - c)
  }

  function Marked(e: Prd): Prd {
    if e.countEot < END_OF_TABLE then Prd(e.base, e.countEot + END_OF_TABLE) else e
  }

  function MarkLast(es: seq<Prd>): (r: seq<Prd>)
    requires es != []
    ensures |r| == |es|
  {
    es[|es| - 1 := Marked(es[|es| - 1])]
  }

  /** The finished table. */
  function Table(dest: nat, bytes: nat): seq<Prd>
    requires 0 < bytes && dest + bytes <= TWO32
  {
    NotEmpty(dest, bytes);
    MarkLast(Entries(dest, bytes))
  }

  lemma NotEmpty(dest: nat, bytes: nat)
    requires 0 < bytes && dest + bytes <= TWO32
    ensures Entries(dest, bytes) != []
  {
  }

  // ---------- What a table has to be ----------

  /** Consecutive from `dest`, `bytes` in all, and no entry leaves its 64 KiB bank. */
  predicate Covers(es: seq<Prd>, dest: nat, bytes: nat)
    decreases |es|
  {
    if es == [] then bytes == 0
    else
      var e := es[0];
      && e.base == dest && e.Size() <= bytes && SameBank(dest, e.Size())
      && Covers(es[1..], dest + e.Size(), bytes - e.Size())
  }

  predicate SameBank(base: nat, size: nat) {
    base % 0x1_0000 + size <= 0x1_0000
  }

  lemma ChunkInBank(dest: nat, bytes: nat)
    requires bytes > 0
    ensures SameBank(dest, Chunk(dest, bytes))
    ensures Prd(0, if Chunk(dest, bytes) == BANK then 0 else Chunk(dest, bytes)).Size() == Chunk(dest, bytes)
  {
  }

  lemma {:induction false} EntriesCover(dest: nat, bytes: nat)
    requires dest + bytes <= TWO32
    ensures Covers(Entries(dest, bytes), dest, bytes)
    ensures forall i :: 0 <= i < |Entries(dest, bytes)| ==> Entries(dest, bytes)[i].countEot < BANK
    decreases bytes
  {
    hide Chunk, SameBank;
    if bytes > 0 {
      var c := Chunk(dest, bytes);
      ChunkInBank(dest, bytes);
      EntriesCover(dest + c, bytes - c);
    }
  }

  lemma MarkedSize(e: Prd)
    requires e.countEot < BANK
    ensures Marked(e).Size() == e.Size() && Marked(e).base == e.base && Marked(e).Last() && !e.Last()
  {
  }

  lemma MarkedIsClean(e: Prd)
    requires e.countEot < BANK
    ensures e.Clean() && Marked(e).Clean()
  {
  }

  lemma {:induction false} MarkKeepsCover(es: seq<Prd>, dest: nat, bytes: nat)
    requires es != [] && Covers(es, dest, bytes) && forall i :: 0 <= i < |es| ==> es[i].countEot < BANK
    ensures Covers(MarkLast(es), dest, bytes)
    ensures forall i :: 0 <= i < |es| ==> (MarkLast(es)[i].Last() <==> i == |es| - 1)
    decreases |es|
  {
    hide SameBank, Marked;
    MarkedSize(es[|es| - 1]);
    if |es| > 1 {
      assert MarkLast(es)[1..] == MarkLast(es[1..]);
      MarkKeepsCover(es[1..], dest + es[0].Size(), bytes - es[0].Size());
      forall i | 0 <= i < |es| ensures MarkLast(es)[i].Last() <==> i == |es| - 1 {
        if i > 0 {
          assert MarkLast(es)[i] == MarkLast(es[1..])[i - 1];
        } else {
          MarkedSize(es[0]);
        }
      }
    } else {
      assert MarkLast(es)[1..] == [] && es[1..] == [];
    }
  }

  /** How many banks the range touches. */
  function Banks(dest: nat, bytes: nat): nat {
    (dest % 0x1_0000 + bytes + 0xffff) / 0x1_0000
  }

  lemma {:induction false} OneEntryPerBank(dest: nat, bytes: nat)
    requires 0 < bytes && dest + bytes <= TWO32
    ensures |Entries(dest, bytes)| == Banks(dest, bytes)
    decreases bytes
  {
    var c := Chunk(dest, bytes);
    if c < bytes {
      NextBank(dest, bytes);
      OneEntryPerBank(dest + c, bytes - c);
    } else {
      OnlyBank(dest, bytes);
      assert Entries(dest + c, 0) == [];
    }
  }

  lemma NextBank(dest: nat, bytes: nat)
    requires 0 < bytes && Chunk(dest, bytes) < bytes
    ensures Banks(dest + Chunk(dest, bytes), bytes - Chunk(dest, bytes)) == Banks(dest, bytes) - 1
  {
    var c := Chunk(dest, bytes);
    DivModUnique(dest + c, BANK, dest / BANK + 1, 0);
  }

  lemma OnlyBank(dest: nat, bytes: nat)
    requires 0 < bytes && Chunk(dest, bytes) == bytes
    ensures Banks(dest, bytes) == 1
  {
    DivModUnique(dest % BANK + bytes + BANK - 1, BANK, 1, dest % BANK + bytes - 1);
  }

  /**
   * For every transfer the finished table covers the buffer exactly, stays inside 64 KiB banks, ends at its last
   * entry and only there, and up to 1 MiB has no more than 17 entries.
   */
  lemma TableIsSound(dest: nat, bytes: nat)
    requires 0 < bytes && dest + bytes <= TWO32
    ensures var t := Table(dest, bytes);
            && Covers(t, dest, bytes)
            && (forall i :: 0 <= i < |t| ==> t[i].Clean() && (t[i].Last() <==> i == |t| - 1))
            && |t| == Banks(dest, bytes)
            && (bytes <= 0x10_0000 ==> |t| <= 17)
  {
    hide Entries, Covers;
    NotEmpty(dest, bytes);
    EntriesCover(dest, bytes);
    MarkKeepsCover(Entries(dest, bytes), dest, bytes);
    OneEntryPerBank(dest, bytes);
    forall i | 0 <= i < |Table(dest, bytes)| ensures Table(dest, bytes)[i].Clean() {
      MarkedIsClean(Entries(dest, bytes)[i]);
    }
  }

  // ---------- The builders ----------

  method ClearPrd(prd: array<Prd>)
    modifies prd
    ensures forall i :: 0 <= i < prd.Length ==> prd[i] == EMPTY
  {
    for i := 0 to prd.Length
      invariant forall j :: 0 <= j < i ==> prd[j] == EMPTY
    {
      prd[i] := EMPTY;
    }
  }

  /** The loop over the chunks of the buffer; `used` entries when there is room for all. */
  method FillPrd(prd: array<Prd>, dest0: u32, bytes0: u32) returns (ok: bool, used: nat)
    requires prd.Length == MAX_PRD && dest0 + (bytes0 as int) <= TWO32
    modifies prd
    ensures ok <==> |Entries(dest0, bytes0)| <= MAX_PRD
    ensures ok ==> used == |Entries(dest0, bytes0)| && prd[..used] == Entries(dest0, bytes0)
                   && prd[used..] == old(prd[used..])
  {
    hide Chunk, Entries;
    var dest: nat, bytes: nat := dest0, bytes0;
    used := 0;
    while bytes != 0
      invariant used <= MAX_PRD && dest + bytes == dest0 + bytes0
      invariant Entries(dest0, bytes0) == prd[..used] + Entries(dest, bytes)
      invariant prd[used..] == old(prd[used..])
    {
      EntriesStep(dest, bytes);
      var chunk := Chunk(dest, bytes);
      if used >= MAX_PRD {
        return false, used;
      }
      ghost var before := prd[..used];
      prd[used] := Prd(dest, if chunk == BANK then 0 else chunk);
      assert prd[..used + 1] == before + [prd[used]];
      dest, bytes, used := dest + chunk, bytes - chunk, used + 1;
    }
    NoMoreEntries(dest);
    return true, used;
  }

  /** ide_build_prd: fills the table in place; fails for an empty transfer or one that needs more than 32 entries. */
  method IdeBuildPrd(prd: array<Prd>, dest: u32, bytes: u32) returns (ok: bool)
    requires prd.Length == 32 && dest + (bytes as int) <= TWO32
    modifies prd
    ensures ok <==> bytes > 0 && Banks(dest, bytes) <= 32
    ensures ok ==> |Table(dest, bytes)| <= 32 && prd[..|Table(dest, bytes)|] == Table(dest, bytes)
    ensures ok ==> forall i :: |Table(dest, bytes)| <= i < 32 ==> prd[i] == Prd(0, 0)
  {
    hide Entries, Marked, Banks;
    if bytes == 0 {
      return false;
    }
    OneEntryPerBank(dest, bytes);
    ClearPrd(prd);
    ghost var cleared := prd[..];
    var used;
    ok, used := FillPrd(prd, dest, bytes);
    if ok {
      NotEmpty(dest, bytes);
      ghost var es := prd[..used];
      prd[used - 1] := Marked(prd[used - 1]);
      assert prd[..used] == MarkLast(es);
      assert prd[used..] == cleared[used..];
    }
  }

  lemma EntriesStep(dest: nat, bytes: nat)
    requires 0 < bytes && dest + bytes <= TWO32
    ensures var c := Chunk(dest, bytes);
            Entries(dest, bytes) == [Prd(dest, if c == BANK then 0 else c)] + Entries(dest + c, bytes - c)
  {
  }

  lemma NoMoreEntries(dest: nat)
    requires dest <= TWO32
    ensures Entries(dest, 0) == []
  {
  }

  /**
   * build_prd of the hardware check: the same list, so both sides of a DMA experiment agree. An empty transfer has no
   * last entry to mark, which is an error there.
   */
  method PythonBuildPrd(dest0: u32, bytes0: nat) returns (r: Option<seq<Prd>>)
    requires dest0 + bytes0 <= TWO32
    ensures r == if bytes0 == 0 then None else Some(Table(dest0, bytes0))
  {
    hide Chunk, Entries;
    var dest: nat, bytes := dest0, bytes0;
    var entries: seq<Prd> := [];
    while bytes != 0
      invariant dest + bytes == dest0 + bytes0
      invariant Entries(dest0, bytes0) == entries + Entries(dest, bytes)
    {
      EntriesStep(dest, bytes);
      var chunk := Chunk(dest, bytes);
      var countField := if chunk == BANK then 0 else chunk;
      entries := entries + [Prd(dest, countField)];
      dest, bytes := dest + chunk, bytes - chunk;
    }
    NoMoreEntries(dest);
    assert entries + [] == entries;
    if bytes0 > 0 {
      NotEmpty(dest0, bytes0);
    } else {
      NoMoreEntries(dest0);
    }
    if entries == [] {
      return None;
    }
    var last := entries[|entries| - 1];
    return Some(entries[|entries| - 1 := Marked(last)]);
  }
}
