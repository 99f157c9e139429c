/** Which tables a patch is about, by the letters they begin with. */
module AcpiNames {
  import opened Words
  import opened AcpiWalk
  import opened AcpiPatch
  import opened AcpiTables

  /** The four bytes at `o` are the letters of `name`. */
  predicate Spells(m: seq<u8>, o: nat, name: string) {
    o + |name| <= |m| && forall i :: 0 <= i < |name| ==> m[o + i] == name[i] as int
  }

  /** A table that belongs in the RSDT. */
  predicate Ordinary(m: seq<u8>, o: nat) {
    !Spells(m, o, "RSDT") && !Spells(m, o, "XSDT") && !Spells(m, o, "FACS") && !Spells(m, o, "DSDT")
  }

  lemma TwoDigits(a: u8, b: u8, c: u8, d: u8)
    ensures Le16(a, b) == Le16(c, d) <==> a == c && b == d
  {
  }

  lemma SigSpelled(m: seq<u8>, o: nat, a: char, b: char, c: char, d: char)
    requires o + HEADER <= |m|
    requires a < '\U{0100}' && b < '\U{0100}' && c < '\U{0100}' && d < '\U{0100}'
    ensures Sig(m, o) == Named(a, b, c, d) <==> Spells(m, o, [a, b, c, d])
  {
    var w := m[o..o + 4];
    FourBytes(w);
    assert w[0] == m[o] && w[1] == m[o + 1] && w[2] == m[o + 2] && w[3] == m[o + 3];
    var lo: int, hi: int := Le16(m[o], m[o + 1]), Le16(m[o + 2], m[o + 3]);
    assert Sig(m, o) == lo + 0x1_0000 * hi;
    TwoDigits(m[o], m[o + 1], a as int, b as int);
    TwoDigits(m[o + 2], m[o + 3], c as int, d as int);
    FourLetters(m, o, a, b, c, d);
    hide Le16, Sig, Spells;
  }

  lemma FourLetters(m: seq<u8>, o: nat, a: char, b: char, c: char, d: char)
    requires o + 4 <= |m|
    ensures Spells(m, o, [a, b, c, d]) <==>
            m[o] == a as int && m[o + 1] == b as int && m[o + 2] == c as int && m[o + 3] == d as int
  {
    var name := [a, b, c, d];
    if Spells(m, o, name) {
      assert m[o + 0] == name[0] as int && m[o + 1] == name[1] as int;
      assert m[o + 2] == name[2] as int && m[o + 3] == name[3] as int;
    }
  }

  lemma NamesSpelled(m: seq<u8>, o: nat)
    requires o + HEADER <= |m|
    ensures Sig(m, o) == RSDT <==> Spells(m, o, "RSDT")
    ensures Sig(m, o) == FACP <==> Spells(m, o, "FACP")
    ensures Sig(m, o) == DSDT <==> Spells(m, o, "DSDT")
    ensures Sig(m, o) == FACS <==> Spells(m, o, "FACS")
    ensures Listed(Sig(m, o)) <==> Ordinary(m, o)
  {
    hide Sig, Spells;
    SigSpelled(m, o, 'R', 'S', 'D', 'T');
    SigSpelled(m, o, 'X', 'S', 'D', 'T');
    SigSpelled(m, o, 'D', 'S', 'D', 'T');
    SigSpelled(m, o, 'F', 'A', 'C', 'S');
    SigSpelled(m, o, 'F', 'A', 'C', 'P');
  }

  // ---------- The last table of each name ----------

  /** `at` is the last table called `name` of those met before `off`, if there is one. */
  ghost predicate IsLast(m: seq<u8>, at: Option<nat>, name: string, off: nat) {
    match at
    case None => forall o: nat :: o < off && Meets(m, 0, o) ==> !Spells(m, o, name)
    case Some(a) =>
      && a < off && Meets(m, 0, a) && Spells(m, a, name)
      && forall o: nat :: a < o < off && Meets(m, 0, o) ==> !Spells(m, o, name)
  }

  ghost predicate AllLast(m: seq<u8>, f: Found, off: nat) {
    && IsLast(m, f.rsdt, "RSDT", off) && IsLast(m, f.fadt, "FACP", off)
    && IsLast(m, f.dsdt, "DSDT", off) && IsLast(m, f.facs, "FACS", off)
  }

  /** `off` is where the walk from `from` comes by. */
  predicate Comes(m: seq<u8>, from: nat, off: nat)
    decreases |m| - from
  {
    off == from || (TableAt(m, from) && Comes(m, from + Len(m, from), off))
  }

  lemma {:induction false} ComesNext(m: seq<u8>, from: nat, off: nat)
    requires Comes(m, from, off) && TableAt(m, off)
    ensures Comes(m, from, off + Len(m, off)) && Meets(m, from, off)
    decreases |m| - from
  {
    hide TableAt, Len;
    LenBounds(m, off);
    if off != from {
      LenBounds(m, from);
      ComesNext(m, from + Len(m, from), off);
    }
  }

  /** Of the tables met none begins between `off` and the end of the table at `off`. */
  lemma {:induction false} NoneBetween(m: seq<u8>, from: nat, off: nat, o: nat)
    requires Comes(m, from, off) && Meets(m, from, o) && off <= o
    ensures from <= off && TableAt(m, off) && (o == off || off + Len(m, off) <= o)
    decreases |m| - from
  {
    hide TableAt, Len, Meets;
    MetIsTable(m, from, o);
    if off != from {
      LenBounds(m, from);
      ComesBehind(m, from + Len(m, from), off);
      MeetsStep(m, from, o);
      NoneBetween(m, from + Len(m, from), off, o);
    }
  }

  lemma {:induction false} ComesBehind(m: seq<u8>, from: nat, off: nat)
    requires Comes(m, from, off)
    ensures from <= off
    decreases |m| - from
  {
    hide TableAt, Len;
    if off != from {
      LenBounds(m, from);
      ComesBehind(m, from + Len(m, from), off);
    }
  }

  lemma LastUntil(m: seq<u8>, at: Option<nat>, name: string, off: nat, off': nat)
    requires IsLast(m, at, name, off) && off <= off'
    requires forall o: nat :: off <= o < off' && Meets(m, 0, o) ==> !Spells(m, o, name)
    ensures IsLast(m, at, name, off')
  {
    hide Meets, Spells;
  }

  lemma LastHere(m: seq<u8>, name: string, off: nat, off': nat)
    requires Meets(m, 0, off) && Spells(m, off, name) && off < off'
    requires forall o: nat :: off < o < off' ==> !Meets(m, 0, o)
    ensures IsLast(m, Some(off), name, off')
  {
    hide Meets, Spells;
  }

  /** One table further. */
  lemma LastStep(m: seq<u8>, at: Option<nat>, name: string, off: nat, at': Option<nat>)
    requires IsLast(m, at, name, off) && Comes(m, 0, off) && TableAt(m, off)
    requires at' == if Spells(m, off, name) then Some(off) else at
    ensures IsLast(m, at', name, off + Len(m, off))
  {
    hide TableAt, Len, Meets, Spells, IsLast, Comes;
    LenBounds(m, off);
    ComesNext(m, 0, off);
    var off' := off + Len(m, off);
    forall o: nat | off < o < off' ensures !Meets(m, 0, o) {
      if Meets(m, 0, o) {
        NoneBetween(m, 0, off, o);
      }
    }
    if Spells(m, off, name) {
      LastHere(m, name, off, off');
    } else {
      LastUntil(m, at, name, off, off');
    }
  }

  lemma LookSpelled(f: Found, m: seq<u8>, off: nat)
    requires TableAt(m, off)
    ensures var g := Look(f, m, off);
            && g.rsdt == (if Spells(m, off, "RSDT") then Some(off) else f.rsdt)
            && g.fadt == (if Spells(m, off, "FACP") then Some(off) else f.fadt)
            && g.dsdt == (if Spells(m, off, "DSDT") then Some(off) else f.dsdt)
            && g.facs == (if Spells(m, off, "FACS") then Some(off) else f.facs)
  {
    NamesSpelled(m, off);
    hide Spells, Listed, Sig;
    assert RSDT != FACP && RSDT != DSDT && RSDT != FACS && FACP != DSDT && FACP != FACS && DSDT != FACS;
  }

  lemma {:induction false} SurveyLast(m: seq<u8>, off: nat, f: Found)
    requires Comes(m, 0, off) && AllLast(m, f, off)
    ensures AllLast(m, Survey(m, off, f), |m|)
    decreases |m| - off
  {
    hide TableAt, Len, Meets, Spells, IsLast, Comes, Look;
    if TableAt(m, off) {
      LenBounds(m, off);
      var g := Look(f, m, off);
      LookSpelled(f, m, off);
      LastStep(m, f.rsdt, "RSDT", off, g.rsdt);
      LastStep(m, f.fadt, "FACP", off, g.fadt);
      LastStep(m, f.dsdt, "DSDT", off, g.dsdt);
      LastStep(m, f.facs, "FACS", off, g.facs);
      ComesNext(m, 0, off);
      SurveyLast(m, off + Len(m, off), g);
    } else {
      LastAtEnd(m, f.rsdt, "RSDT", off);
      LastAtEnd(m, f.fadt, "FACP", off);
      LastAtEnd(m, f.dsdt, "DSDT", off);
      LastAtEnd(m, f.facs, "FACS", off);
    }
  }

  /** Where no table begins the walk ends. */
  lemma LastAtEnd(m: seq<u8>, at: Option<nat>, name: string, off: nat)
    requires IsLast(m, at, name, off) && Comes(m, 0, off) && !TableAt(m, off)
    ensures IsLast(m, at, name, |m|)
  {
    hide TableAt, Len, Meets, Spells, Comes;
    forall o: nat | Meets(m, 0, o) ensures o < off && o < |m| {
      MetIsTable(m, 0, o);
      LenBounds(m, o);
      if off <= o {
        NoneBetween(m, 0, off, o);
      }
    }
  }

  /** RSDT, FADT, DSDT and FACS of the first walk are the last tables with those names. */
  lemma SurveyFindsLast(m: seq<u8>)
    ensures AllLast(m, Survey(m, 0, NOTHING), |m|)
  {
    hide TableAt, Meets, Spells, Survey;
    SurveyLast(m, 0, NOTHING);
  }

  // ---------- The tables to be listed ----------

  /**
   * `s` is the beginning of the list of ordinary tables, in the order of the walk: all of them, or the first `n` when
   * there are more.
   */
  ghost predicate FirstOrdinary(m: seq<u8>, s: seq<nat>, n: nat) {
    && |s| <= n
    && (forall i :: 0 <= i < |s| ==> Meets(m, 0, s[i]) && Ordinary(m, s[i]))
    && (forall i, j :: 0 <= i < j < |s| ==> s[i] < s[j])
    && (forall o: nat :: Meets(m, 0, o) && Ordinary(m, o) ==>
                           o in s || (|s| == n && forall i :: 0 <= i < n ==> s[i] < o))
  }

  ghost predicate Ascending(s: seq<nat>) {
    forall i, j :: 0 <= i < j < |s| ==> s[i] < s[j]
  }

  lemma AscendsFrom(o: nat, s: seq<nat>)
    requires Ascending(s) && forall x :: x in s ==> o < x
    ensures Ascending([o] + s)
  {
    forall i, j | 0 <= i < j < |[o] + s| ensures ([o] + s)[i] < ([o] + s)[j] {
      assert ([o] + s)[j] == s[j - 1];
      assert s[j - 1] in s;
    }
  }

  lemma {:induction false} WalkAscends(m: seq<u8>, off: nat)
    ensures Ascending(Walk(m, off)) && forall o :: o in Walk(m, off) ==> off <= o && TableAt(m, o)
    decreases |m| - off
  {
    hide TableAt, Len;
    if TableAt(m, off) {
      LenBounds(m, off);
      var next := off + Len(m, off);
      WalkAscends(m, next);
      AscendsFrom(off, Walk(m, next));
      hide Ascending;
    }
  }

  lemma {:induction false} ListedOfIs(m: seq<u8>, ws: seq<nat>)
    requires Ascending(ws) && forall o :: o in ws ==> TableAt(m, o)
    ensures var s := ListedOf(m, ws); Ascending(s) && forall o :: o in s <==> o in ws && Ordinary(m, o)
    decreases |ws|
  {
    hide TableAt, Sig, Listed, Ordinary;
    if ws != [] {
      var o := ws[0];
      assert TableAt(m, o);
      LenBounds(m, o);
      NamesSpelled(m, o);
      forall i, j | 0 <= i < j < |ws[1..]| ensures ws[1..][i] < ws[1..][j] {
        assert ws[i + 1] < ws[j + 1];
      }
      ListedOfIs(m, ws[1..]);
      assert forall x :: x in ws[1..] ==> o < x;
      assert ws == [o] + ws[1..];
      AscendsFrom(o, ListedOf(m, ws[1..]));
      hide Ascending;
    }
  }

  lemma FirstIsFirst(m: seq<u8>, n: nat)
    ensures FirstOrdinary(m, First(ListedOf(m, Walk(m, 0)), n), n)
  {
    hide Walk, ListedOf, Meets, Ordinary;
    var all := ListedOf(m, Walk(m, 0));
    WalkAscends(m, 0);
    ListedOfIs(m, Walk(m, 0));
    forall o: nat ensures Meets(m, 0, o) <==> o in Walk(m, 0) {
      MeetsIsWalk(m, 0, o);
    }
    if |all| > n {
      forall o | o in all && o !in all[..n] ensures forall i :: 0 <= i < n ==> all[..n][i] < o {
        assert all == all[..n] + all[n..];
        assert o in all[n..];
      }
    }
  }
}
