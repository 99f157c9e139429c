/** The monitor's stack as a list of words, and whole runs of nested INT/IRET and PUSHF/POPF pairs. */
module Vm86Trace {
  import opened Words
  import opened Vm86

  const SEGMENT := 0x1_0000

  // ---------- Offsets wrap, words do not collide ----------

  lemma UpUp(sp: u16, a: int, b: int)
    ensures Up(Up(sp, a), b) == Up(sp, a + b)
  {
    var x, y: int := sp + a, Up(sp, a);
    var q := x / SEGMENT;
    DivModUnique(x + b, SEGMENT, q + (y + b) / SEGMENT, (y + b) % SEGMENT);
  }

  lemma UpApart(sp: u16, d: int)
    requires 2 <= d <= SEGMENT - 2
    ensures var o: int, at: int := Up(sp, d), sp; o - at >= 2 || at - o >= 2
  {
    var x: int := sp + d;
    if x < SEGMENT {
      DivModUnique(x, SEGMENT, 0, x);
    } else {
      DivModUnique(x, SEGMENT, 1, x - SEGMENT);
    }
  }

  /** The two bytes of the word at stack offset `sp`. */
  function WordAt(ss: u32, sp: u16): set<nat> {
    {Linear(ss, sp), Linear(ss, sp) + 1}
  }

  lemma WordsApart(ss: u32, sp: u16, d: int)
    requires 2 <= d <= SEGMENT - 2
    ensures WordAt(ss, sp) !! WordAt(ss, Up(sp, d))
  {
    UpApart(sp, d);
    hide Up;
    LinearOf(ss, sp);
    LinearOf(ss, Up(sp, d));
  }

  lemma LinearOf(ss: u32, sp: u16)
    ensures Linear(ss, sp) == 16 * (Low16(ss) as int) + (sp as int)
  {
  }

  // ---------- Push and pop refine a list ----------

  /** The words from the stack pointer upwards are `ws`. */
  predicate Stacked(s: State, ws: seq<u16>) {
    && 2 * |ws| <= SEGMENT
    && forall k :: 0 <= k < |ws| ==> WordAbove(s, k) == ws[k]
  }

  function WordAbove(s: State, k: int): u16 {
    Peek16(s.mem, Linear(s.cpu.ss, Up(Sp(s.cpu), 2 * k)))
  }

  /** Memory differs at most at these addresses. */
  ghost predicate OnlyAt(m: seq<u8>, m': seq<u8>, bytes: set<nat>) {
    |m'| == |m| && forall b: nat :: b !in bytes ==> Peek(m', b) == Peek(m, b)
  }

  lemma OnlyAtJoin(m: seq<u8>, m': seq<u8>, m'': seq<u8>, x: set<nat>, y: set<nat>)
    requires OnlyAt(m, m', x) && OnlyAt(m', m'', y)
    ensures OnlyAt(m, m'', x + y)
  {
    hide Peek;
  }

  lemma PokedOnly(m: seq<u8>, a: nat, v: u16)
    ensures OnlyAt(m, Poke16(m, a, v), {a, a + 1})
  {
    hide Poke16, Peek;
  }

  lemma WordKept(m: seq<u8>, m': seq<u8>, bytes: set<nat>, a: nat)
    requires OnlyAt(m, m', bytes) && a !in bytes && a + 1 !in bytes
    ensures Peek16(m', a) == Peek16(m, a)
  {
    hide Peek;
  }

  lemma PushedPart(s: State, v: u16)
    requires Wide(s.mem)
    ensures var r := Push(s, v);
            var sp := Up(Sp(s.cpu), -2);
            && Sp(r.cpu) == sp && r.cpu.ss == s.cpu.ss && Peek16(r.mem, Linear(s.cpu.ss, sp)) == v && |r.mem| == |s.mem|
            && r.cpu.esp == WithLow(s.cpu.esp, sp) && OnlyAt(s.mem, r.mem, WordAt(s.cpu.ss, sp))
  {
    hide Linear, Up, OnlyAt, Poke16, Peek16;
    PokedOnly(s.mem, Linear(s.cpu.ss, Up(Sp(s.cpu), -2)), v);
  }

  /** A push in front of a list that still fits the 64 KiB segment, wherever the pointer wraps. */
  lemma PushRefines(s: State, v: u16, ws: seq<u16>)
    requires Wide(s.mem) && Stacked(s, ws) && 2 * (|ws| + 1) <= SEGMENT
    ensures Stacked(Push(s, v), [v] + ws)
  {
    hide Push, WordAbove;
    forall k | 0 <= k < |ws| + 1 ensures WordAbove(Push(s, v), k) == ([v] + ws)[k] {
      if k == 0 {
        PushedFirst(s, v);
      } else {
        assert WordAbove(s, k - 1) == ws[k - 1];
        PushedOther(s, v, k - 1);
      }
    }
  }

  lemma PushedFirst(s: State, v: u16)
    requires Wide(s.mem)
    ensures WordAbove(Push(s, v), 0) == v
  {
    PushedPart(s, v);
    hide Push, Peek16, Linear, Up;
    SpUp(Up(Sp(s.cpu), -2));
  }

  lemma PushedOther(s: State, v: u16, k: nat)
    requires Wide(s.mem) && 2 * (k + 2) <= SEGMENT
    ensures WordAbove(Push(s, v), k + 1) == WordAbove(s, k)
  {
    hide Push, Peek16, Linear, Up, OnlyAt, Sp, WithLow, WordAt, Wide;
    var sp := Sp(s.cpu);
    PushedPart(s, v);
    UpUp(sp, -2, 2 * (k + 1));
    WordsApart(s.cpu.ss, Up(sp, -2), 2 * (k + 1));
    WordBytes(s.cpu.ss, Up(sp, 2 * k));
    WordKept(s.mem, Push(s, v).mem, WordAt(s.cpu.ss, Up(sp, -2)), Linear(s.cpu.ss, Up(sp, 2 * k)));
  }

  lemma WordBytes(ss: u32, sp: u16)
    ensures Linear(ss, sp) in WordAt(ss, sp) && Linear(ss, sp) + 1 in WordAt(ss, sp)
  {
  }

  lemma SpUp(sp: u16)
    ensures Up(sp, 0) == sp
  {
  }

  lemma SameWord(m: seq<u8>, m': seq<u8>, a: nat)
    requires Peek(m', a) == Peek(m, a) && Peek(m', a + 1) == Peek(m, a + 1)
    ensures Peek16(m', a) == Peek16(m, a)
  {
  }

  lemma PoppedPart(s: State)
    ensures Sp(Pop(s).cpu) == Up(Sp(s.cpu), 2) && Pop(s).cpu.ss == s.cpu.ss && Pop(s).mem == s.mem
  {
    hide Up;
  }

  lemma PopRefines(s: State, ws: seq<u16>)
    requires ws != [] && Stacked(s, ws)
    ensures Top(s) == ws[0] && Stacked(Pop(s), ws[1..])
  {
    var sp := Sp(s.cpu);
    PoppedPart(s);
    SpUp(sp);
    hide Peek16, Linear, Pop;
    assert WordAbove(s, 0) == ws[0];
    forall k | 0 <= k < |ws| - 1 ensures WordAbove(Pop(s), k) == ws[1..][k] {
      UpUp(sp, 2, 2 * k);
      assert WordAbove(s, k + 1) == ws[k + 1];
    }
  }

  // ---------- Runs ----------

  /**
   * One stretch of a guest's life: code that does not trap, one trap that leaves the stack alone, or a bracket,
   * which is an INT up to its IRET or a PUSHF up to its POPF.
   */
  datatype Item = Untrapped(after: State) | Single | Bracket(call: bool, body: seq<Item>)

  function RunItems(h: Host, s: State, items: seq<Item>): State
    decreases items, 0
  {
    if items == [] then s else RunItems(h, RunItem(h, s, items[0]), items[1..])
  }

  function RunItem(h: Host, s: State, item: Item): State
    decreases item, 1
  {
    match item
    case Untrapped(after) => after
    case Single => Trap(h, s).0
    case Bracket(_, body) => Trap(h, RunItems(h, Trap(h, s).0, body)).0
  }

  /** The bytes a bracket's first instruction pushes: three words for INT, one for PUSHF. */
  function PushedBytes(s: State, call: bool): set<nat> {
    var sp := Sp(s.cpu);
    WordAt(s.cpu.ss, Up(sp, -2)) +
    if call then WordAt(s.cpu.ss, Up(sp, -4)) + WordAt(s.cpu.ss, Up(sp, -6)) else {}
  }

  ghost predicate SameBytes(m: seq<u8>, m': seq<u8>, held: set<nat>) {
    |m'| == |m| && forall a :: a in held ==> Peek(m', a) == Peek(m, a)
  }

  /** The guest is at an INT it serves itself. */
  predicate AtGuestInt(h: Host, s: State) {
    var d := AtTrap(s);
    var v := Peek(s.mem, Linear(s.cpu.cs, (d.eip + 1) % TWO32));
    d.opcode == 0xcd && v != 0xff && !IsThunk(h, s, v)
  }

  /**
   * The run is well bracketed, and code outside the monitor (guest instructions that do not trap, host services)
   * leaves the words in `held` alone: the pushed words of all brackets open at this point.
   */
  ghost predicate Proper(h: Host, s: State, items: seq<Item>, held: set<nat>)
    decreases items, 0
  {
    items == [] || (ProperOne(h, s, items[0], held) && Proper(h, RunItem(h, s, items[0]), items[1..], held))
  }

  ghost predicate ProperOne(h: Host, s: State, item: Item, held: set<nat>)
    decreases item, 1
  {
    match item
    case Untrapped(after) => SameBytes(s.mem, after.mem, held)
    case Single =>
      && !(AtTrap(s).opcode in {0x9c, 0x9d, 0xcf}) && !AtGuestInt(h, s)
      && SameBytes(s.mem, Trap(h, s).0.mem, held)
    case Bracket(call, body) =>
      var s1 := Trap(h, s).0;
      var s2 := RunItems(h, s1, body);
      && (if call then AtGuestInt(h, s) else AtTrap(s).opcode == 0x9c)
      && PushedBytes(s, call) !! held
      && Proper(h, s1, body, held + PushedBytes(s, call))
      && s2.cpu.ss == s1.cpu.ss && s2.cpu.esp == s1.cpu.esp
      && AtTrap(s2).opcode == (if call then 0xcf else 0x9d)
  }

  // ---------- The parts of a bracket ----------

  /** The monitor's three pushes before a guest's interrupt handler runs. */
  function CallPushes(s: State): State {
    Push(Push(Push(s, Flags16(s.cpu)), Low16(s.cpu.cs)), (s.cpu.eip + 2) % 0x1_0000)
  }

  lemma GuestIntIs(s: State, vector: u8)
    ensures var r, p := GuestInt(s, vector), CallPushes(s);
            r.mem == p.mem && r.cpu.ss == p.cpu.ss && r.cpu.esp == p.cpu.esp
  {
    hide Push, Vector, ClearIf;
  }

  /** Nothing else in memory changes. */
  lemma CallPushesOnly(s: State)
    requires Wide(s.mem)
    ensures OnlyAt(s.mem, CallPushes(s).mem, PushedBytes(s, true))
  {
    var s1 := Push(s, Flags16(s.cpu));
    var s2 := Push(s1, Low16(s.cpu.cs));
    var ss, sp := s.cpu.ss, Sp(s.cpu);
    var x, y, z := WordAt(ss, Up(sp, -2)), WordAt(ss, Up(sp, -4)), WordAt(ss, Up(sp, -6));
    PushedPart(s, Flags16(s.cpu));
    PushedPart(s1, Low16(s.cpu.cs));
    PushedPart(s2, (s.cpu.eip + 2) % 0x1_0000);
    hide Push, Up, OnlyAt, WordAt, Peek16, Sp, Low16, Flags16, Linear, WithLow;
    UpUp(Sp(s.cpu), -2, -2);
    UpUp(Sp(s.cpu), -4, -2);
    OnlyAtJoin(s.mem, s1.mem, s2.mem, x, y);
    OnlyAtJoin(s.mem, s2.mem, CallPushes(s).mem, x + y, z);
    assert x + y + z == PushedBytes(s, true);
  }

  /** After INT three words lie on the stack, in the order IRET takes them. */
  lemma GuestIntPushes(s: State, vector: u8)
    requires Wide(s.mem)
    ensures var r := GuestInt(s, vector);
            && r.cpu.esp == WithLow(s.cpu.esp, Up(Sp(s.cpu), -6)) && r.cpu.ss == s.cpu.ss && |r.mem| == |s.mem|
            && Stacked(r, [(s.cpu.eip + 2) % 0x1_0000, Low16(s.cpu.cs), Flags16(s.cpu)])
  {
    var flags, cs, ip := Flags16(s.cpu), Low16(s.cpu.cs), (s.cpu.eip + 2) % 0x1_0000;
    hide Push, Up, Stacked, GuestInt, WithLow;
    GuestIntIs(s, vector);
    ThreePushed(s, flags, cs, ip);
    SameStack(CallPushes(s), GuestInt(s, vector), [ip, cs, flags]);
    LowOfPushes(s, flags, cs, ip);
  }

  lemma SameStack(s: State, t: State, ws: seq<u16>)
    requires Stacked(s, ws) && t.mem == s.mem && t.cpu.ss == s.cpu.ss && t.cpu.esp == s.cpu.esp
    ensures Stacked(t, ws)
  {
    hide Peek16, Linear, Up;
    forall k | 0 <= k < |ws| ensures WordAbove(t, k) == ws[k] {
      assert WordAbove(s, k) == ws[k];
    }
  }

  lemma ThreePushed(s: State, flags: u16, cs: u16, ip: u16)
    requires Wide(s.mem)
    ensures Stacked(Push(Push(Push(s, flags), cs), ip), [ip, cs, flags])
  {
    var s1 := Push(s, flags);
    var s2 := Push(s1, cs);
    EmptyStack(s);
    PushRefines(s, flags, []);
    PushRefines(s1, cs, [flags]);
    PushRefines(s2, ip, [cs, flags]);
    assert [flags] + [] == [flags] && [cs] + [flags] == [cs, flags] && [ip] + [cs, flags] == [ip, cs, flags];
  }

  lemma EmptyStack(s: State)
    ensures Stacked(s, [])
  {
  }

  lemma WithLowTwice(x: u32, a: u16, b: u16)
    ensures WithLow(WithLow(x, a), b) == WithLow(x, b)
  {
  }

  lemma LowOfPushes(s: State, flags: u16, cs: u16, ip: u16)
    requires Wide(s.mem)
    ensures var r := Push(Push(Push(s, flags), cs), ip);
            r.cpu.esp == WithLow(s.cpu.esp, Up(Sp(s.cpu), -6)) && r.cpu.ss == s.cpu.ss
  {
    var s1 := Push(s, flags);
    var s2 := Push(s1, cs);
    PushedPart(s, flags);
    PushedPart(s1, cs);
    PushedPart(s2, ip);
    hide Push, Peek16, Linear, Up, WithLow;
    UpUp(Sp(s.cpu), -2, -2);
    UpUp(Sp(s.cpu), -4, -2);
    WithLowTwice(s.cpu.esp, Up(Sp(s.cpu), -2), Up(Sp(s.cpu), -4));
    WithLowTwice(s.cpu.esp, Up(Sp(s.cpu), -4), Up(Sp(s.cpu), -6));
  }

  /** IRET takes three words, in order, and moves the pointer past them. */
  lemma IretPops(s: State, ip: u16, cs: u16, flags: u16)
    requires Stacked(s, [ip, cs, flags])
    ensures Iret(s) == s.(cpu := s.cpu.(eip := ip, cs := cs, eflags := FLAG_VM + (flags as int),
                                        esp := WithLow(s.cpu.esp, Up(Sp(s.cpu), 6))))
  {
    var s1 := Pop(s);
    var s2 := Pop(s1);
    PopRefines(s, [ip, cs, flags]);
    assert [ip, cs, flags][1..] == [cs, flags] && [cs, flags][1..] == [flags];
    PopRefines(s1, [cs, flags]);
    PopRefines(s2, [flags]);
    PoppedPart(s);
    PoppedPart(s1);
    hide Up, WithLow, Stacked, Top;
    UpUp(Sp(s.cpu), 2, 2);
    UpUp(Sp(s.cpu), 4, 2);
    WithLowTwice(s.cpu.esp, Up(Sp(s.cpu), 2), Up(Sp(s.cpu), 4));
    WithLowTwice(s.cpu.esp, Up(Sp(s.cpu), 4), Up(Sp(s.cpu), 6));
  }

  /** Pushed words that nobody wrote over are still on the stack when the pointer is back. */
  lemma StillStacked(s1: State, s2: State, ws: seq<u16>, held: set<nat>)
    requires Stacked(s1, ws) && s2.cpu.ss == s1.cpu.ss && s2.cpu.esp == s1.cpu.esp && SameBytes(s1.mem, s2.mem, held)
    requires forall k :: 0 <= k < |ws| ==> WordAt(s1.cpu.ss, Up(Sp(s1.cpu), 2 * k)) <= held
    ensures Stacked(s2, ws)
  {
    hide Peek16, Linear, Up;
    forall k | 0 <= k < |ws| ensures WordAbove(s2, k) == ws[k] {
      assert WordAbove(s1, k) == ws[k];
      assert WordAt(s1.cpu.ss, Up(Sp(s1.cpu), 2 * k)) <= held;
      SameWord(s1.mem, s2.mem, Linear(s1.cpu.ss, Up(Sp(s1.cpu), 2 * k)));
    }
  }

  lemma CallWords(ss: u32, sp: u16, k: int)
    requires 0 <= k < 3
    ensures WordAt(ss, Up(Up(sp, -6), 2 * k)) ==
            if k == 0 then WordAt(ss, Up(sp, -6)) else if k == 1 then WordAt(ss, Up(sp, -4)) else WordAt(ss, Up(sp, -2))
  {
    UpUp(sp, -6, 2 * k);
  }

  lemma BackAgain(x: u32, d: int)
    ensures WithLow(WithLow(x, Up(Low16(x), -d)), Up(Up(Low16(x), -d), d)) == x
  {
    UpUp(Low16(x), -d, d);
    SpUp(Low16(x));
    WithLowTwice(x, Up(Low16(x), -d), Low16(x));
    WithOwnLow(x);
  }

  /** The state at the trapping instruction itself, past its prefixes. */
  function AtOpcode(s: State): State {
    s.(cpu := s.cpu.(eip := AtTrap(s).eip))
  }

  lemma TrapAtInt(h: Host, s: State)
    requires AtGuestInt(h, s)
    ensures exists v: u8 :: Trap(h, s).0 == GuestInt(AtOpcode(s), v)
  {
    hide GuestInt, Decode, Vector, Linear;
    var v := Peek(s.mem, Linear(s.cpu.cs, (AtTrap(s).eip + 1) % TWO32));
    assert !IsThunk(h, AtOpcode(s), v) by { SameVectors(h, s, v); }
    assert Trap(h, s).0 == GuestInt(AtOpcode(s), v);
  }

  lemma SameVectors(h: Host, s: State, v: u8)
    ensures IsThunk(h, AtOpcode(s), v) == IsThunk(h, s, v)
  {
  }

  /** Each IRET restores its caller: CS, the address after the INT, FLAGS and the stack pointer. */
  predicate Restored(s: State, r: State) {
    && r.cpu.cs == Low16(s.cpu.cs) && r.cpu.eip == (AtTrap(s).eip + 2) % 0x1_0000
    && r.cpu.eflags == FLAG_VM + (Flags16(s.cpu) as int) && r.cpu.esp == s.cpu.esp && r.cpu.ss == s.cpu.ss
  }

  /** The pushed words are found again after the handler. */
  lemma CallStillStacked(s: State, v: u8, s2: State, held: set<nat>)
    requires Wide(s.mem) && PushedBytes(s, true) <= held
    requires var s1 := GuestInt(s, v);
             s2.cpu.ss == s1.cpu.ss && s2.cpu.esp == s1.cpu.esp && SameBytes(s1.mem, s2.mem, held)
    ensures Stacked(s2, [(s.cpu.eip + 2) % 0x1_0000, Low16(s.cpu.cs), Flags16(s.cpu)])
    ensures s2.cpu.esp == WithLow(s.cpu.esp, Up(Sp(s.cpu), -6)) && s2.cpu.ss == s.cpu.ss
  {
    var s1, sp := GuestInt(s, v), Sp(s.cpu);
    GuestIntPushes(s, v);
    hide GuestInt, Up, WithLow, Stacked, Linear, WordAt, SameBytes;
    SpOfWithLow(s.cpu.esp, Up(sp, -6));
    var ws := [(s.cpu.eip + 2) % 0x1_0000, Low16(s.cpu.cs), Flags16(s.cpu)];
    forall k | 0 <= k < 3 ensures WordAt(s1.cpu.ss, Up(Sp(s1.cpu), 2 * k)) <= held {
      CallWords(s.cpu.ss, sp, k);
    }
    StillStacked(s1, s2, ws, held);
  }

  lemma CallReturns(s: State, v: u8, s2: State, held: set<nat>)
    requires Wide(s.mem) && PushedBytes(s, true) <= held
    requires var s1 := GuestInt(s, v);
             s2.cpu.ss == s1.cpu.ss && s2.cpu.esp == s1.cpu.esp && SameBytes(s1.mem, s2.mem, held)
    ensures var r := Iret(s2);
            && r.cpu.cs == Low16(s.cpu.cs) && r.cpu.eip == (s.cpu.eip + 2) % 0x1_0000
            && r.cpu.eflags == FLAG_VM + (Flags16(s.cpu) as int) && r.cpu.esp == s.cpu.esp && r.cpu.ss == s.cpu.ss
            && r.mem == s2.mem
  {
    hide GuestInt, Iret, Up, WithLow, Stacked, Linear, WordAt, SameBytes, PushedBytes;
    CallStillStacked(s, v, s2, held);
    SpOfWithLow(s.cpu.esp, Up(Sp(s.cpu), -6));
    IretPops(s2, (s.cpu.eip + 2) % 0x1_0000, Low16(s.cpu.cs), Flags16(s.cpu));
    BackAgain(s.cpu.esp, 6);
  }

  lemma SpOfWithLow(x: u32, low: u16)
    ensures Low16(WithLow(x, low)) == low
  {
  }

  lemma TrapAtIret(h: Host, s: State)
    requires AtTrap(s).opcode == 0xcf
    ensures Trap(h, s).0 == Iret(AtOpcode(s)) && Iret(AtOpcode(s)).mem == s.mem
  {
    hide Decode, Pop, Top;
    PoppedPart(AtOpcode(s));
    PoppedPart(Pop(AtOpcode(s)));
    PoppedPart(Pop(Pop(AtOpcode(s))));
  }

  lemma TrapAtFlagOps(h: Host, s: State)
    ensures AtTrap(s).opcode == 0x9c ==> Trap(h, s).0 == Pushf(AtOpcode(s))
    ensures AtTrap(s).opcode == 0x9d ==> Trap(h, s).0 == Popf(AtOpcode(s)) && Popf(AtOpcode(s)).mem == s.mem
  {
    hide Decode, Push, Top, Peek16;
  }

  lemma OnlyAtSame(m: seq<u8>, m': seq<u8>, bytes: set<nat>, held: set<nat>)
    requires OnlyAt(m, m', bytes) && bytes !! held
    ensures SameBytes(m, m', held)
  {
    hide Peek;
  }

  lemma SameTwice(m: seq<u8>, m': seq<u8>, m'': seq<u8>, held: set<nat>, more: set<nat>)
    requires SameBytes(m, m', held) && SameBytes(m', m'', more) && held <= more
    ensures SameBytes(m, m'', held)
  {
    hide Peek;
  }

  /** What the first instruction of a bracket does to memory. */
  lemma OpeningPushes(h: Host, s: State, call: bool)
    requires Wide(s.mem) && if call then AtGuestInt(h, s) else AtTrap(s).opcode == 0x9c
    ensures OnlyAt(s.mem, Trap(h, s).0.mem, PushedBytes(s, call))
  {
    hide GuestInt, Trap, OnlyAt, AtTrap, PushedBytes, CallPushes, AtGuestInt;
    PushedAtOpcode(s, call);
    if call {
      TrapAtInt(h, s);
      var v: u8 :| Trap(h, s).0 == GuestInt(AtOpcode(s), v);
      GuestIntIs(AtOpcode(s), v);
      CallPushesOnly(AtOpcode(s));
    } else {
      TrapAtFlagOps(h, s);
      PushfPushes(AtOpcode(s));
    }
  }

  lemma PushfPushes(s: State)
    requires Wide(s.mem)
    ensures OnlyAt(s.mem, Pushf(s).mem, PushedBytes(s, false))
    ensures Pushf(s).cpu.esp == WithLow(s.cpu.esp, Up(Sp(s.cpu), -2)) && Pushf(s).cpu.ss == s.cpu.ss
    ensures Stacked(Pushf(s), [Flags16(s.cpu)])
  {
    var flags := Flags16(s.cpu);
    hide Push, OnlyAt, WordAt, Up, WithLow, Stacked, Peek16;
    PushedPart(s, flags);
    EmptyStack(s);
    PushRefines(s, flags, []);
    assert [flags] + [] == [flags];
    assert WordAt(s.cpu.ss, Up(Sp(s.cpu), -2)) + {} == WordAt(s.cpu.ss, Up(Sp(s.cpu), -2));
    SameStack(Push(s, flags), Pushf(s), [flags]);
  }

  lemma PushedAtOpcode(s: State, call: bool)
    ensures PushedBytes(AtOpcode(s), call) == PushedBytes(s, call)
  {
    hide Decode, WordAt, Up;
  }

  /** Everything held at the start of a proper run is still there at its end, however deep the nesting. */
  lemma {:induction false} RunKeepsHeld(h: Host, s: State, items: seq<Item>, held: set<nat>)
    requires Wide(s.mem) && Proper(h, s, items, held)
    ensures SameBytes(s.mem, RunItems(h, s, items).mem, held)
    decreases items, 0
  {
    hide ProperOne, RunItem, Peek;
    if items != [] {
      var s1 := RunItem(h, s, items[0]);
      RunOneKeepsHeld(h, s, items[0], held);
      RunKeepsHeld(h, s1, items[1..], held);
      SameTwice(s.mem, s1.mem, RunItems(h, s1, items[1..]).mem, held, held);
    }
  }

  lemma {:induction false} RunOneKeepsHeld(h: Host, s: State, item: Item, held: set<nat>)
    requires Wide(s.mem) && ProperOne(h, s, item, held)
    ensures SameBytes(s.mem, RunItem(h, s, item).mem, held)
    decreases item, 1
  {
    hide Proper, RunItems, SameBytes, Trap, AtTrap, PushedBytes, AtGuestInt, OnlyAt;
    if item.Bracket? {
      var s1 := Trap(h, s).0;
      var s2 := RunItems(h, s1, item.body);
      var more := held + PushedBytes(s, item.call);
      OpeningPushes(h, s, item.call);
      OnlyAtSame(s.mem, s1.mem, PushedBytes(s, item.call), held);
      SameSizes(s.mem, s1.mem, held);
      RunKeepsHeld(h, s1, item.body, more);
      SameTwice(s.mem, s1.mem, s2.mem, held, more);
      ClosingKeepsMemory(h, s2, item.call);
    }
  }

  lemma SameSizes(m: seq<u8>, m': seq<u8>, held: set<nat>)
    requires SameBytes(m, m', held)
    ensures |m'| == |m|
  {
  }

  lemma ClosingKeepsMemory(h: Host, s: State, call: bool)
    requires AtTrap(s).opcode == (if call then 0xcf else 0x9d)
    ensures Trap(h, s).0.mem == s.mem
  {
    hide Trap, AtTrap;
    if call {
      TrapAtIret(h, s);
    } else {
      TrapAtFlagOps(h, s);
    }
  }

  // ---------- The theorem ----------

  lemma BodyKeepsPushed(h: Host, s: State, item: Item, held: set<nat>)
    requires Wide(s.mem) && item.Bracket? && ProperOne(h, s, item, held)
    ensures var s1 := Trap(h, s).0;
            SameBytes(s1.mem, RunItems(h, s1, item.body).mem, held + PushedBytes(s, item.call)) && |s1.mem| == |s.mem|
  {
    hide Proper, RunItems, SameBytes, Trap, AtTrap, PushedBytes, AtGuestInt, OnlyAt;
    var s1 := Trap(h, s).0;
    OpeningPushes(h, s, item.call);
    OnlyAtSame(s.mem, s1.mem, PushedBytes(s, item.call), held);
    SameSizes(s.mem, s1.mem, held);
    RunKeepsHeld(h, s1, item.body, held + PushedBytes(s, item.call));
  }

  /** In a proper run every IRET returns to the INT it belongs to: code segment, address, flags, stack. */
  lemma InterruptReturns(h: Host, s: State, body: seq<Item>, held: set<nat>)
    requires Wide(s.mem) && ProperOne(h, s, Bracket(true, body), held)
    ensures Restored(s, RunItem(h, s, Bracket(true, body)))
  {
    hide Proper, RunItems, SameBytes, Trap, AtTrap, PushedBytes, AtGuestInt, GuestInt, Iret;
    var s1 := Trap(h, s).0;
    var s2 := RunItems(h, s1, body);
    BodyKeepsPushed(h, s, Bracket(true, body), held);
    TrapAtInt(h, s);
    var v: u8 :| s1 == GuestInt(AtOpcode(s), v);
    PushedAtOpcode(s, true);
    CallReturns(AtOpcode(s), v, AtOpcode(s2), held + PushedBytes(s, true));
    TrapAtIret(h, s2);
  }

  /** And every POPF brings back the flags its PUSHF saved. */
  lemma FlagsReturn(h: Host, s: State, body: seq<Item>, held: set<nat>)
    requires Wide(s.mem) && ProperOne(h, s, Bracket(false, body), held)
    ensures var r := RunItem(h, s, Bracket(false, body));
            r.cpu.eflags == FLAG_VM + (Flags16(s.cpu) as int) && r.cpu.esp == s.cpu.esp && r.cpu.ss == s.cpu.ss
  {
    hide Proper, RunItems, SameBytes, Trap, AtTrap, PushedBytes, AtGuestInt, Pushf, Popf;
    var s1 := Trap(h, s).0;
    var s2 := RunItems(h, s1, body);
    BodyKeepsPushed(h, s, Bracket(false, body), held);
    TrapAtFlagOps(h, s);
    TrapAtFlagOps(h, s2);
    PushedAtOpcode(s, false);
    SaveReturns(AtOpcode(s), AtOpcode(s2), held + PushedBytes(s, false));
  }

  lemma SaveReturns(s: State, s2: State, held: set<nat>)
    requires Wide(s.mem) && PushedBytes(s, false) <= held
    requires var s1 := Pushf(s); s2.cpu.ss == s1.cpu.ss && s2.cpu.esp == s1.cpu.esp && SameBytes(s1.mem, s2.mem, held)
    ensures var r := Popf(s2);
            r.cpu.eflags == FLAG_VM + (Flags16(s.cpu) as int) && r.cpu.esp == s.cpu.esp && r.cpu.ss == s.cpu.ss
  {
    hide Pushf, Up, WithLow, Stacked, Linear, WordAt, SameBytes, Pop, Top, OnlyAt, PushedBytes;
    SaveStillStacked(s, s2, held);
    SpOfWithLow(s.cpu.esp, Up(Sp(s.cpu), -2));
    PopRefines(s2, [Flags16(s.cpu)]);
    PopEsp(s2);
    BackAgain(s.cpu.esp, 2);
  }

  lemma SaveStillStacked(s: State, s2: State, held: set<nat>)
    requires Wide(s.mem) && PushedBytes(s, false) <= held
    requires var s1 := Pushf(s); s2.cpu.ss == s1.cpu.ss && s2.cpu.esp == s1.cpu.esp && SameBytes(s1.mem, s2.mem, held)
    ensures Stacked(s2, [Flags16(s.cpu)])
    ensures s2.cpu.esp == WithLow(s.cpu.esp, Up(Sp(s.cpu), -2)) && s2.cpu.ss == s.cpu.ss
  {
    hide Pushf, Up, WithLow, Stacked, Linear, WordAt, SameBytes, OnlyAt, PushedBytes, Flags16, Wide;
    PushfPushes(s);
    SpOfWithLow(s.cpu.esp, Up(Sp(s.cpu), -2));
    SpUp(Up(Sp(s.cpu), -2));
    SavedWord(s);
    StillStacked(Pushf(s), s2, [Flags16(s.cpu)], held);
  }

  lemma SavedWord(s: State)
    ensures WordAt(s.cpu.ss, Up(Sp(s.cpu), -2)) <= PushedBytes(s, false)
  {
    hide WordAt, Up;
  }

  lemma PopEsp(s: State)
    ensures Pop(s).cpu == s.cpu.(esp := WithLow(s.cpu.esp, Up(Sp(s.cpu), 2)))
  {
  }

  // ---------- The stack pointer comes back by itself ----------

  /** A trap that is neither PUSHF, POPF, IRET nor an INT served by the guest. */
  predicate NoStackTrap(h: Host, s: State) {
    var op := AtTrap(s).opcode;
    op != 0x9c && op != 0x9d && op != 0xcf && !AtGuestInt(h, s)
  }

  predicate SameStackPointer(s: State, r: State) {
    r.cpu.ss == s.cpu.ss && r.cpu.esp == s.cpu.esp
  }

  /** Such a trap does not move the stack pointer, whatever the host service does. */
  lemma SingleKeepsStack(h: Host, s: State)
    requires NoStackTrap(h, s)
    ensures SameStackPointer(s, Trap(h, s).0)
  {
    hide Decode, Vector, Linear, Peek16, GuestInt, Fill, ClearIf, SetIf, Merge, Cut;
    var v := Peek(s.mem, Linear(s.cpu.cs, (AtTrap(s).eip + 1) % TWO32));
    SameVectors(h, s, v);
  }

  /**
   * As `Proper`, but of the stack pointer only that code which does not trap puts it back: at the end of each bracket
   * nothing is asked of it.
   */
  ghost predicate Matched(h: Host, s: State, items: seq<Item>, held: set<nat>)
    decreases items, 0
  {
    items == [] || (MatchedOne(h, s, items[0], held) && Matched(h, RunItem(h, s, items[0]), items[1..], held))
  }

  ghost predicate MatchedOne(h: Host, s: State, item: Item, held: set<nat>)
    decreases item, 1
  {
    match item
    case Untrapped(after) => SameBytes(s.mem, after.mem, held) && SameStackPointer(s, after)
    case Single => NoStackTrap(h, s) && SameBytes(s.mem, Trap(h, s).0.mem, held)
    case Bracket(call, body) =>
      var s1 := Trap(h, s).0;
      && (if call then AtGuestInt(h, s) else AtTrap(s).opcode == 0x9c)
      && PushedBytes(s, call) !! held
      && Matched(h, s1, body, held + PushedBytes(s, call))
      && AtTrap(RunItems(h, s1, body)).opcode == (if call then 0xcf else 0x9d)
  }

  /** A matched run is proper, and ends with the stack pointer where it began. */
  lemma {:induction false} MatchedIsProper(h: Host, s: State, items: seq<Item>, held: set<nat>)
    requires Wide(s.mem) && Matched(h, s, items, held)
    ensures Proper(h, s, items, held) && SameStackPointer(s, RunItems(h, s, items))
    decreases items, 0
  {
    hide MatchedOne, ProperOne, RunItem;
    if items != [] {
      var s1 := RunItem(h, s, items[0]);
      MatchedOneIsProper(h, s, items[0], held);
      RunOneKeepsHeld(h, s, items[0], held);
      SameSizes(s.mem, s1.mem, held);
      MatchedIsProper(h, s1, items[1..], held);
    }
  }

  lemma {:induction false} MatchedOneIsProper(h: Host, s: State, item: Item, held: set<nat>)
    requires Wide(s.mem) && MatchedOne(h, s, item, held)
    ensures ProperOne(h, s, item, held) && SameStackPointer(s, RunItem(h, s, item))
    decreases item, 1
  {
    hide Matched, Proper, RunItems, SameBytes, Trap, AtTrap, PushedBytes, AtGuestInt, OnlyAt;
    match item
    case Untrapped(after) =>
    case Single => SingleKeepsStack(h, s);
    case Bracket(call, body) =>
      var s1 := Trap(h, s).0;
      OpeningPushes(h, s, call);
      OnlyAtSame(s.mem, s1.mem, PushedBytes(s, call), held);
      SameSizes(s.mem, s1.mem, held);
      MatchedIsProper(h, s1, body, held + PushedBytes(s, call));
      if call {
        InterruptReturns(h, s, body, held);
      } else {
        FlagsReturn(h, s, body, held);
      }
  }

  /** Every IRET of a matched run restores its caller. */
  lemma MatchedInterruptReturns(h: Host, s: State, body: seq<Item>, held: set<nat>)
    requires Wide(s.mem) && MatchedOne(h, s, Bracket(true, body), held)
    ensures Restored(s, RunItem(h, s, Bracket(true, body)))
  {
    hide MatchedOne, ProperOne, RunItem, AtTrap;
    MatchedOneIsProper(h, s, Bracket(true, body), held);
    InterruptReturns(h, s, body, held);
  }

  /**
   * A bracket always has room when everything held lies above the stack pointer in its segment and the words still
   * to be pushed fit the 64 KiB, even if the pointer wraps on the way.
   */
  lemma RoomBelow(s: State, held: set<nat>, span: nat, call: bool)
    requires span + 8 <= SEGMENT
    requires forall a :: a in held ==> AboveBy(s, a, span)
    ensures PushedBytes(s, call) !! held
  {
    var sp := Sp(s.cpu);
    forall a | a in held ensures a !in PushedBytes(s, call) {
      assert AboveBy(s, a, span);
      var d: nat :| d <= span && a in WordAt(s.cpu.ss, Up(sp, d));
      BelowMisses(s, d, 2);
      BelowMisses(s, d, 4);
      BelowMisses(s, d, 6);
    }
  }

  ghost predicate AboveBy(s: State, a: nat, span: nat) {
    exists d: nat :: d <= span && a in WordAt(s.cpu.ss, Up(Sp(s.cpu), d))
  }

  lemma BelowMisses(s: State, d: int, below: int)
    requires 0 <= d && 2 <= below && d + below <= SEGMENT - 2
    ensures WordAt(s.cpu.ss, Up(Sp(s.cpu), -below)) !! WordAt(s.cpu.ss, Up(Sp(s.cpu), d))
  {
    hide WordAt, Up;
    WordsApart(s.cpu.ss, Up(Sp(s.cpu), -below), d + below);
    UpUp(Sp(s.cpu), -below, d + below);
  }
}
