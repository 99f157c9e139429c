/** What a trap does, told from the bytes at CS:IP and on the stack. */
module Vm86Meaning {
  import opened Words
  import opened Vm86
  import opened Vm86Trace

  // ---------- From the bytes to the instruction ----------

  /** The byte at seg:off. */
  function ByteAt(m: seq<u8>, seg: u32, off: int): u8 {
    Peek(m, 16 * (seg % 0x1_0000) + off % 0x1_0000)
  }

  /** The word `d` bytes above the top of the stack. */
  function StackWord(s: State, d: int): int {
    var a: nat := 16 * (s.cpu.ss % 0x1_0000) + (s.cpu.esp + d) % 0x1_0000;
    Peek(s.mem, a) + 0x100 * Peek(s.mem, a + 1)
  }

  /** At `a` lie the bytes `pre`, all of them prefixes, and then `op`, which is none. */
  predicate Lies(m: seq<u8>, a: nat, pre: seq<u8>, op: u8) {
    && (forall i :: 0 <= i < |pre| ==> pre[i] in {0x26, 0x2e, 0x36, 0x3e, 0x66, 0xf2, 0xf3} && Peek(m, a + i) == pre[i])
    && op !in {0x26, 0x2e, 0x36, 0x3e, 0x66, 0xf2, 0xf3} && Peek(m, a + |pre|) == op
  }

  predicate Fetches(s: State, pre: seq<u8>, op: u8) {
    Lies(s.mem, 16 * (s.cpu.cs % 0x1_0000) + s.cpu.eip % 0x1_0000, pre, op)
  }

  /** How many of the prefixes are 0x66. */
  function Sizes(pre: seq<u8>): nat {
    if pre == [] then 0 else (if pre[0] == 0x66 then 1 else 0) + Sizes(pre[1..])
  }

  lemma {:induction false} DecodeSkips(m: seq<u8>, a: nat, ip: u32, op32: bool, pre: seq<u8>, op: u8)
    requires Lies(m, a, pre, op)
    ensures var d := Decode(m, a, ip, op32);
            && d.opcode == op && d.eip % 0x1_0000 == (ip + |pre|) % 0x1_0000
            && d.op32 == (op32 != (Sizes(pre) % 2 == 1))
    decreases |pre|
  {
    if pre != [] {
      assert Peek(m, a + 0) == pre[0];
      if pre[0] == 0x66 || IsPrefix(pre[0]) {
        forall i | 0 <= i < |pre[1..]| ensures Peek(m, a + 1 + i) == pre[1..][i] {
          assert Peek(m, a + (i + 1)) == pre[i + 1];
        }
        DecodeSkips(m, a + 1, (ip + 1) % 0x1_0000, if pre[0] == 0x66 then !op32 else op32, pre[1..], op);
      }
    }
  }

  lemma ModAgain(x: int, y: int, k: int)
    requires x % 0x1_0000 == y % 0x1_0000
    ensures (x + k) % 0x1_0000 == (y + k) % 0x1_0000
  {
    DivModUnique(x + k, 0x1_0000, (x / 0x1_0000 - y / 0x1_0000) + (y + k) / 0x1_0000, (y + k) % 0x1_0000);
  }

  lemma WordOfNext(x: u32)
    ensures Low16((x + 1) % TWO32) == (x + 1) % 0x1_0000
  {
    if x + 1 == TWO32 {
      DivModUnique(x + 1, 0x1_0000, 0x1_0000, 0);
    }
  }

  /** The instruction that a trap executes, and where it begins. */
  lemma TrapRuns(h: Host, s: State, pre: seq<u8>, op: u8)
    requires Fetches(s, pre, op)
    ensures var d := AtTrap(s);
            && Trap(h, s) == Execute(h, s.(cpu := s.cpu.(eip := d.eip)), d)
            && d.opcode == op && d.op32 == (Sizes(pre) % 2 == 1)
            && d.eip % 0x1_0000 == (s.cpu.eip + |pre|) % 0x1_0000
  {
    hide Decode, Execute, Lies;
    DecodeSkips(s.mem, Linear(s.cpu.cs, s.cpu.eip), s.cpu.eip, false, pre, op);
  }

  /** The byte behind the opcode. */
  lemma SecondByte(s: State, at: u32, n: int)
    requires at % 0x1_0000 == n % 0x1_0000
    ensures Peek(s.mem, Linear(s.cpu.cs, (at + 1) % TWO32)) == ByteAt(s.mem, s.cpu.cs, n + 1)
  {
    WordOfNext(at);
    ModAgain(at, n, 1);
  }

  /** Advancing from there. */
  lemma Advanced(c: Cpu, at: u32, n: int, k: nat)
    requires at % 0x1_0000 == n % 0x1_0000
    ensures Advance(c.(eip := at), k) == c.(eip := (n + k) % 0x1_0000)
  {
    ModAgain(at, n, k);
  }

  // ---------- Ports ----------

  /** Only the instruction pointer has moved, by `len`, and EAX may have changed. */
  predicate Passed(s: State, t: State, len: nat) {
    && t.mem == s.mem
    && t.cpu == s.cpu.(eip := (s.cpu.eip + len) % 0x1_0000, regs := s.cpu.regs.(eax := t.cpu.regs.eax))
  }

  /** The low `span` of EAX has been replaced by that of `value`. */
  predicate Received(eax: u32, eax': u32, value: u32, span: nat)
    requires span > 0
  {
    eax' % span == value % span && eax' / span == eax / span
  }

  /** A port instruction: one access to the port it names, as wide as it says. */
  predicate PortDone(h: Host, s: State, t: State, op: u8, op32: bool, port: u16) {
    var size := if op % 2 == 0 then 1 else if op32 then 4 else 2;
    var span := if size == 1 then 0x100 else if size == 2 then 0x1_0000 else 0x1_0000_0000;
    if op in {0xe4, 0xe5, 0xec, 0xed} then
      t.io == s.io + [In(port, size)] && Received(s.cpu.regs.eax, t.cpu.regs.eax, h.input(s.io, port, size), span)
    else
      t.io == s.io + [Out(port, size, s.cpu.regs.eax % span)] && t.cpu.regs.eax == s.cpu.regs.eax
  }

  /** IN AL/AX/EAX, imm8 and OUT imm8, AL/AX/EAX: two bytes, and the second one is the port. */
  lemma ImmediatePortTrap(h: Host, s: State, pre: seq<u8>, op: u8)
    requires Fetches(s, pre, op) && op in {0xe4, 0xe5, 0xe6, 0xe7}
    ensures var (t, o) := Trap(h, s);
            && o == Continue && Passed(s, t, |pre| + 2)
            && PortDone(h, s, t, op, Sizes(pre) % 2 == 1, ByteAt(s.mem, s.cpu.cs, s.cpu.eip + |pre| + 1))
  {
    hide *;
    TrapRuns(h, s, pre, op);
    var d := AtTrap(s);
    SecondByte(s, d.eip, s.cpu.eip + |pre|);
    PortRuns(h, s, d.eip, s.cpu.eip + |pre|, op, d.op32);
    PortExecutes(h, s.(cpu := s.cpu.(eip := d.eip)), d);
  }

  /** IN AL/AX/EAX, DX and OUT DX, AL/AX/EAX: one byte. */
  lemma DxPortTrap(h: Host, s: State, pre: seq<u8>, op: u8)
    requires Fetches(s, pre, op) && op in {0xec, 0xed, 0xee, 0xef}
    ensures var (t, o) := Trap(h, s);
            && o == Continue && Passed(s, t, |pre| + 1)
            && PortDone(h, s, t, op, Sizes(pre) % 2 == 1, s.cpu.regs.edx % 0x1_0000)
  {
    hide *;
    TrapRuns(h, s, pre, op);
    var d := AtTrap(s);
    PortRuns(h, s, d.eip, s.cpu.eip + |pre|, op, d.op32);
    PortExecutes(h, s.(cpu := s.cpu.(eip := d.eip)), d);
  }

  lemma PortExecutes(h: Host, s: State, d: Decoded)
    requires d.opcode in {0xe4, 0xe5, 0xe6, 0xe7, 0xec, 0xed, 0xee, 0xef}
    ensures Execute(h, s, d) == (InOut(h, s, d.opcode, d.op32), Continue)
  {
    hide InOut;
  }

  lemma PortRuns(h: Host, s: State, at: u32, n: nat, op: u8, op32: bool)
    requires op in {0xe4, 0xe5, 0xe6, 0xe7, 0xec, 0xed, 0xee, 0xef} && at % 0x1_0000 == n % 0x1_0000
    requires n >= s.cpu.eip
    ensures var t := InOut(h, s.(cpu := s.cpu.(eip := at)), op, op32);
            var port: u16 := if op <= 0xe7 then Peek(s.mem, Linear(s.cpu.cs, (at + 1) % TWO32))
                             else s.cpu.regs.edx % 0x1_0000;
            PortDone(h, s, t, op, op32, port) && Passed(s, t, n - s.cpu.eip + (if op <= 0xe7 then 2 else 1))
  {
    hide Merge, Cut, Linear, Advance;
    var size := AccessSize(op, op32);
    var port: u16 := if op <= 0xe7 then Peek(s.mem, Linear(s.cpu.cs, (at + 1) % TWO32))
                     else s.cpu.regs.edx % 0x1_0000;
    PortsMoveLowBytes(s.cpu.regs.eax, h.input(s.io, port, size), size);
    var value := h.input(s.io, port, size);
    var len := if op <= 0xe7 then 2 else 1;
    Advanced(s.cpu, at, n, len);
    Advanced(s.cpu.(regs := s.cpu.regs.(eax := Merge(s.cpu.regs.eax, value, size))), at, n, len);
  }

  // ---------- Flags ----------

  /** The low half of EFLAGS is `flags`, and the bit that keeps the guest in virtual-8086 mode is set. */
  predicate FlagsAre(c: Cpu, flags: int) {
    c.eflags == 0x2_0000 + flags
  }

  /** Bit 9 is `on`, and the other 15 bits are those of `flags`. */
  predicate OnlyIf(flags: int, flags': int, on: bool) {
    (flags' / 0x200 % 2 == 1 <==> on) && flags' % 0x200 == flags % 0x200 && flags' / 0x400 == flags / 0x400
  }

  /** CLI is 0xfa, STI is 0xfb. */
  lemma FlagTrap(h: Host, s: State, pre: seq<u8>, op: u8)
    requires Fetches(s, pre, op) && op in {0xfa, 0xfb}
    ensures var (t, o) := Trap(h, s);
            var flags: int := t.cpu.eflags % 0x1_0000;
            && o == Continue && FlagsAre(t.cpu, flags) && OnlyIf(s.cpu.eflags % 0x1_0000, flags, op == 0xfb)
            && t == s.(cpu := s.cpu.(eip := (s.cpu.eip + |pre| + 1) % 0x1_0000, eflags := t.cpu.eflags))
  {
    hide *;
    TrapRuns(h, s, pre, op);
    var d := AtTrap(s);
    FlagStep(h, s, d.eip, s.cpu.eip + |pre|, d);
  }

  lemma FlagStep(h: Host, s: State, at: u32, n: int, d: Decoded)
    requires d.opcode in {0xfa, 0xfb} && at % 0x1_0000 == n % 0x1_0000
    ensures var (t, o) := Execute(h, s.(cpu := s.cpu.(eip := at)), d);
            var flags: int := t.cpu.eflags % 0x1_0000;
            && o == Continue && FlagsAre(t.cpu, flags) && OnlyIf(s.cpu.eflags % 0x1_0000, flags, d.opcode == 0xfb)
            && t == s.(cpu := s.cpu.(eip := (n + 1) % 0x1_0000, eflags := t.cpu.eflags))
  {
    var flags := Flags16(s.cpu);
    var flags' := if d.opcode == 0xfb then SetIf(flags) else ClearIf(flags);
    OnlyIfCleared(flags);
    FlagsLow(flags');
    hide ClearIf, SetIf, OnlyIf, Advance;
    Advanced(SetFlags(s.cpu, flags'), at, n, 1);
  }

  // ---------- The stack ----------

  lemma WordAboveIs(s: State, k: nat)
    ensures WordAbove(s, k) == StackWord(s, 2 * k)
  {
    ModAgain(Sp(s.cpu), s.cpu.esp, 2 * k);
  }

  lemma LowIs(x: u32, low: int)
    requires 0 <= low < 0x1_0000
    ensures WithLow(x, low) == x - x % 0x1_0000 + low
  {
  }

  /** The stack pointer has moved by `d` within its low half. */
  predicate Moved(c: Cpu, c': Cpu, d: int) {
    c'.esp == c.esp - c.esp % 0x1_0000 + (c.esp + d) % 0x1_0000
  }

  lemma MovedIs(c: Cpu, c': Cpu, d: int)
    requires c'.esp == WithLow(c.esp, Up(Sp(c), d))
    ensures Moved(c, c', d)
  {
    ModAgain(Sp(c), c.esp, d);
    LowIs(c.esp, Up(Sp(c), d));
  }

  lemma PushStep(s: State, v: u16)
    requires Wide(s.mem)
    ensures var r := Push(s, v);
            && r == s.(cpu := s.cpu.(esp := r.cpu.esp), mem := r.mem) && Moved(s.cpu, r.cpu, -2)
            && StackWord(r, 0) == v && OnlyAt(s.mem, r.mem, PushedBytes(s, false))
  {
    var r := Push(s, v);
    PushedPart(s, v);
    PushedFirst(s, v);
    hide Peek, Poke16, WordAt, Linear, Moved, WordAbove, StackWord, OnlyAt, WithLow, Up;
    WordAboveIs(r, 0);
    MovedIs(s.cpu, r.cpu, -2);
    assert WordAt(s.cpu.ss, Up(Sp(s.cpu), -2)) + {} == PushedBytes(s, false);
  }

  /** PUSHF: FLAGS is the new top of the stack, and nothing else is written. */
  lemma PushfTrap(h: Host, s: State, pre: seq<u8>)
    requires Fetches(s, pre, 0x9c) && Wide(s.mem)
    ensures var (t, o) := Trap(h, s);
            && o == Continue && Moved(s.cpu, t.cpu, -2) && StackWord(t, 0) == s.cpu.eflags % 0x1_0000
            && OnlyAt(s.mem, t.mem, PushedBytes(s, false))
            && t == s.(cpu := s.cpu.(eip := (s.cpu.eip + |pre| + 1) % 0x1_0000, esp := t.cpu.esp), mem := t.mem)
  {
    hide *;
    TrapRuns(h, s, pre, 0x9c);
    var d := AtTrap(s);
    var at := s.(cpu := s.cpu.(eip := d.eip));
    var p := Push(at, Flags16(at.cpu));
    PushStep(at, Flags16(at.cpu));
    PushfIs(h, at, d, s.cpu.eip + |pre|);
    SamePushedWord(s, at);
    StackSame(p, Trap(h, s).0);
    MovedSame(at.cpu, p.cpu, s.cpu, Trap(h, s).0.cpu, -2);
  }

  lemma PushfIs(h: Host, s: State, d: Decoded, n: int)
    requires d.opcode == 0x9c && s.cpu.eip % 0x1_0000 == n % 0x1_0000
    ensures var p := Push(s, Flags16(s.cpu));
            Execute(h, s, d) == (p.(cpu := p.cpu.(eip := (n + 1) % 0x1_0000)), Continue)
    ensures Flags16(s.cpu) == s.cpu.eflags % 0x1_0000
  {
    PushOnly(s, Flags16(s.cpu));
    var p := Push(s, Flags16(s.cpu));
    hide Push, Advance;
    Advanced(p.cpu, s.cpu.eip, n, 1);
  }

  lemma SamePushedWord(s: State, t: State)
    requires t.cpu.ss == s.cpu.ss && t.cpu.esp == s.cpu.esp
    ensures PushedBytes(s, false) == PushedBytes(t, false)
  {
    hide WordAt, Up;
  }

  lemma StackSame(s: State, t: State)
    requires t.mem == s.mem && t.cpu.ss == s.cpu.ss && t.cpu.esp == s.cpu.esp
    ensures StackWord(t, 0) == StackWord(s, 0)
  {
  }

  /** Only ESP matters. */
  lemma MovedSame(c: Cpu, c': Cpu, b: Cpu, b': Cpu, d: int)
    requires Moved(c, c', d) && b.esp == c.esp && b'.esp == c'.esp
    ensures Moved(b, b', d)
  {
  }

  /** POPF: FLAGS is the word that was on top of the stack. */
  lemma PopfTrap(h: Host, s: State, pre: seq<u8>)
    requires Fetches(s, pre, 0x9d)
    ensures var (t, o) := Trap(h, s);
            && o == Continue && Moved(s.cpu, t.cpu, 2) && FlagsAre(t.cpu, StackWord(s, 0))
            && t == s.(cpu := s.cpu.(eip := (s.cpu.eip + |pre| + 1) % 0x1_0000, esp := t.cpu.esp,
                                     eflags := t.cpu.eflags))
  {
    TrapRuns(h, s, pre, 0x9d);
    var d := AtTrap(s);
    var p := Pop(s);
    WordAboveIs(s, 0);
    SpUp(Sp(s.cpu));
    MovedIs(s.cpu, p.cpu, 2);
    hide Fetches, AtTrap, Trap, Advance, Peek, Moved, Up, WithLow, StackWord, Linear, Peek16;
    Advanced(SetFlags(p.cpu, Top(s)), d.eip, s.cpu.eip + |pre|, 1);
    MovedSame(s.cpu, p.cpu, s.cpu, Popf(s.(cpu := s.cpu.(eip := d.eip))).cpu, 2);
  }

  /** IRET takes IP, CS and FLAGS from the stack. */
  lemma IretTrap(h: Host, s: State, pre: seq<u8>)
    requires Fetches(s, pre, 0xcf)
    ensures var (t, o) := Trap(h, s);
            && o == Continue && Moved(s.cpu, t.cpu, 6)
            && t.cpu.eip == StackWord(s, 0) && t.cpu.cs == StackWord(s, 2) && FlagsAre(t.cpu, StackWord(s, 4))
            && t == s.(cpu := s.cpu.(eip := t.cpu.eip, cs := t.cpu.cs, esp := t.cpu.esp, eflags := t.cpu.eflags))
  {
    TrapRuns(h, s, pre, 0xcf);
    var d := AtTrap(s);
    WordAboveIs(s, 0);
    WordAboveIs(s, 1);
    WordAboveIs(s, 2);
    hide Fetches, AtTrap, Trap, Peek, Moved, Up, WithLow, StackWord, Linear, Peek16, WordAbove, Iret, Stacked;
    var at := s.(cpu := s.cpu.(eip := d.eip));
    var ip, cs, flags := WordAbove(s, 0), WordAbove(s, 1), WordAbove(s, 2);
    ThreeAbove(at, ip, cs, flags);
    IretPops(at, ip, cs, flags);
    MovedIs(s.cpu, Iret(at).cpu, 6);
  }

  lemma ThreeAbove(s: State, a: u16, b: u16, c: u16)
    requires WordAbove(s, 0) == a && WordAbove(s, 1) == b && WordAbove(s, 2) == c
    ensures Stacked(s, [a, b, c])
  {
    hide WordAbove;
  }

  // ---------- INT ----------

  /** The number behind the opcode. */
  function VectorOf(s: State, pre: seq<u8>): u8 {
    ByteAt(s.mem, s.cpu.cs, s.cpu.eip + |pre| + 1)
  }

  /** Offset and segment of a handler, in the table at address 0. */
  function HandlerWord(m: seq<u8>, vector: u8, at: nat): int {
    var a: nat := 4 * (vector as nat) + at;
    Peek(m, a) + 0x100 * Peek(m, a + 1)
  }

  /** The handler is one of the host's, by where it is. */
  predicate IsHosts(h: Host, s: State, vector: u8) {
    h.thunkBase <= 16 * HandlerWord(s.mem, vector, 2) + HandlerWord(s.mem, vector, 0) < h.thunkBase + 0x1_0000
  }

  lemma ThunkIs(h: Host, s: State, at: State, vector: u8)
    requires at.mem == s.mem
    ensures IsThunk(h, at, vector) <==> IsHosts(h, s, vector)
  {
    var off, seg := HandlerWord(s.mem, vector, 0), HandlerWord(s.mem, vector, 2);
    assert Vector(at.mem, vector) == (off, seg) by {
      hide Peek, Linear;
    }
    LowHalf(off);
    LowHalf(seg);
    hide Peek, Vector, HandlerWord, Low16;
  }

  lemma LowHalf(x: int)
    requires 0 <= x < 0x1_0000
    ensures Low16(x) == x
  {
  }

  lemma IntRuns(h: Host, s: State, pre: seq<u8>)
    requires Fetches(s, pre, 0xcd)
    ensures var at := s.(cpu := s.cpu.(eip := AtTrap(s).eip));
            && Trap(h, s) == Int(h, at, VectorOf(s, pre))
            && (IsThunk(h, at, VectorOf(s, pre)) <==> IsHosts(h, s, VectorOf(s, pre)))
            && AtTrap(s).eip % 0x1_0000 == (s.cpu.eip + |pre|) % 0x1_0000
  {
    TrapRuns(h, s, pre, 0xcd);
    var d := AtTrap(s);
    SecondByte(s, d.eip, s.cpu.eip + |pre|);
    ThunkIs(h, s, s.(cpu := s.cpu.(eip := d.eip)), VectorOf(s, pre));
    hide Fetches, AtTrap, Trap, Peek, Int, ByteAt, IsThunk, IsHosts, Linear;
  }

  /** An INT that the guest serves: its handler is entered, interrupts are off, and IRET will find its way back. */
  lemma GuestIntTrap(h: Host, s: State, pre: seq<u8>)
    requires Fetches(s, pre, 0xcd) && VectorOf(s, pre) != 0xff && !IsHosts(h, s, VectorOf(s, pre)) && Wide(s.mem)
    ensures var (t, o) := Trap(h, s);
            var flags: int := t.cpu.eflags % 0x1_0000;
            && o == Continue && Moved(s.cpu, t.cpu, -6) && OnlyAt(s.mem, t.mem, PushedBytes(s, true))
            && StackWord(t, 0) == (s.cpu.eip + |pre| + 2) % 0x1_0000 && StackWord(t, 2) == s.cpu.cs % 0x1_0000
            && StackWord(t, 4) == s.cpu.eflags % 0x1_0000
            && t.cpu.eip == HandlerWord(s.mem, VectorOf(s, pre), 0)
            && t.cpu.cs == HandlerWord(s.mem, VectorOf(s, pre), 2)
            && FlagsAre(t.cpu, flags) && OnlyIf(s.cpu.eflags % 0x1_0000, flags, false)
            && t == s.(cpu := s.cpu.(eip := t.cpu.eip, cs := t.cpu.cs, esp := t.cpu.esp, eflags := t.cpu.eflags),
                       mem := t.mem)
  {
    hide *;
    IntRuns(h, s, pre);
    var v := VectorOf(s, pre);
    var at := s.(cpu := s.cpu.(eip := AtTrap(s).eip));
    ModAgain(at.cpu.eip, s.cpu.eip + |pre|, 2);
    GuestIntDoes(at, v);
    IntIsGuest(h, at, v);
    MovedSame(at.cpu, GuestInt(at, v).cpu, s.cpu, GuestInt(at, v).cpu, -6);
    SameHandler(s, at, v);
    SamePushed(s, at);
  }

  lemma SamePushed(s: State, t: State)
    requires t.cpu.ss == s.cpu.ss && t.cpu.esp == s.cpu.esp
    ensures PushedBytes(s, true) == PushedBytes(t, true)
  {
    hide WordAt, Up;
  }

  lemma IntIsGuest(h: Host, s: State, v: u8)
    requires v != 0xff && !IsThunk(h, s, v)
    ensures Int(h, s, v) == (GuestInt(s, v), Continue)
  {
  }

  lemma SameHandler(s: State, t: State, v: u8)
    requires s.mem == t.mem
    ensures HandlerWord(s.mem, v, 0) == HandlerWord(t.mem, v, 0) && HandlerWord(s.mem, v, 2) == HandlerWord(t.mem, v, 2)
  {
  }

  lemma GuestIntDoes(s: State, v: u8)
    requires Wide(s.mem)
    ensures var t := GuestInt(s, v);
            var flags: int := t.cpu.eflags % 0x1_0000;
            && Moved(s.cpu, t.cpu, -6) && OnlyAt(s.mem, t.mem, PushedBytes(s, true))
            && StackWord(t, 0) == (s.cpu.eip + 2) % 0x1_0000 && StackWord(t, 2) == s.cpu.cs % 0x1_0000
            && StackWord(t, 4) == s.cpu.eflags % 0x1_0000
            && t.cpu.eip == HandlerWord(s.mem, v, 0) && t.cpu.cs == HandlerWord(s.mem, v, 2)
            && FlagsAre(t.cpu, flags) && OnlyIf(s.cpu.eflags % 0x1_0000, flags, false)
            && t == s.(cpu := s.cpu.(eip := t.cpu.eip, cs := t.cpu.cs, esp := t.cpu.esp, eflags := t.cpu.eflags),
                       mem := t.mem)
  {
    var t := GuestInt(s, v);
    GuestIntPushes(s, v);
    CallPushesOnly(s);
    GuestIntIs(s, v);
    GuestIntKeeps(s, v);
    hide GuestInt, Push, Peek, Peek16, ClearIf, SetIf, OnlyAt, PushedBytes, CallPushes, WithLow, Up, Linear;
    MovedIs(s.cpu, t.cpu, -6);
    assert WordAbove(t, 0) == (s.cpu.eip + 2) % 0x1_0000 && WordAbove(t, 1) == Low16(s.cpu.cs);
    assert WordAbove(t, 2) == Flags16(s.cpu);
    WordAboveIs(t, 0);
    WordAboveIs(t, 1);
    WordAboveIs(t, 2);
  }

  lemma GuestIntKeeps(s: State, v: u8)
    ensures var t := GuestInt(s, v);
            var flags: int := t.cpu.eflags % 0x1_0000;
            && t.cpu.eip == HandlerWord(s.mem, v, 0) && t.cpu.cs == HandlerWord(s.mem, v, 2)
            && FlagsAre(t.cpu, flags) && OnlyIf(s.cpu.eflags % 0x1_0000, flags, false)
            && t == s.(cpu := s.cpu.(eip := t.cpu.eip, cs := t.cpu.cs, esp := t.cpu.esp, eflags := t.cpu.eflags),
                       mem := t.mem)
  {
    hide *;
    GuestIntShape(s, v);
    CallPushesKeep(s);
    VectorIs(s.mem, v);
    OnlyIfCleared(Flags16(s.cpu));
    LowFlags(s.cpu);
    FlagsLow(ClearIf(Flags16(s.cpu)));
    FlagsAreSo(GuestInt(s, v).cpu, ClearIf(Flags16(s.cpu)));
  }

  lemma GuestIntShape(s: State, v: u8)
    ensures var p := CallPushes(s);
            var (off, seg) := Vector(s.mem, v);
            var flags: int := ClearIf(Flags16(s.cpu));
            GuestInt(s, v) == p.(cpu := p.cpu.(eflags := 0x2_0000 + flags, cs := seg, eip := off))
  {
    hide Push, Vector, ClearIf;
  }

  lemma CallPushesKeep(s: State)
    ensures var p := CallPushes(s); p == s.(cpu := s.cpu.(esp := p.cpu.esp), mem := p.mem)
  {
    var s1 := Push(s, Flags16(s.cpu));
    var s2 := Push(s1, Low16(s.cpu.cs));
    PushOnly(s, Flags16(s.cpu));
    PushOnly(s1, Low16(s.cpu.cs));
    PushOnly(s2, (s.cpu.eip + 2) % 0x1_0000);
    hide Push, Low16, Flags16;
  }

  lemma VectorIs(m: seq<u8>, v: u8)
    ensures Vector(m, v) == (HandlerWord(m, v, 0), HandlerWord(m, v, 2))
  {
    hide Peek;
  }

  lemma LowFlags(c: Cpu)
    ensures Flags16(c) == c.eflags % 0x1_0000
  {
  }

  lemma FlagsAreSo(c: Cpu, flags: u16)
    requires c.eflags == 0x2_0000 + (flags as int)
    ensures FlagsAre(c, flags)
  {
  }

  lemma PushOnly(s: State, v: u16)
    ensures var r := Push(s, v); r == s.(cpu := s.cpu.(esp := r.cpu.esp), mem := r.mem)
  {
    hide Poke16, WithLow, Up, Linear;
  }

  lemma FlagsLow(flags: u16)
    ensures (0x2_0000 + (flags as int)) % 0x1_0000 == flags
  {
  }

  lemma OnlyIfCleared(flags: u16)
    ensures OnlyIf(flags, ClearIf(flags), false) && OnlyIf(flags, SetIf(flags), true)
  {
    CliStiMean(flags);
    hide ClearIf, SetIf;
  }

  /** The frame a service is shown: the low halves of all registers, and the wide ones. */
  predicate FrameShows(f: RmFrame, c: Cpu, ip: int) {
    var r := c.regs;
    && f.ax == r.eax % 0x1_0000 && f.bx == r.ebx % 0x1_0000 && f.cx == r.ecx % 0x1_0000 && f.dx == r.edx % 0x1_0000
    && f.si == r.esi % 0x1_0000 && f.di == r.edi % 0x1_0000 && f.bp == r.ebp % 0x1_0000
    && f.es == r.es % 0x1_0000 && f.ds == r.ds % 0x1_0000 && f.fs == r.fs % 0x1_0000 && f.gs == r.gs % 0x1_0000
    && f.ip == ip && f.cs == c.cs % 0x1_0000 && f.flags == c.eflags % 0x1_0000 && f.wide == r
  }

  /** `x` has its low half from `low` and its high half from `wide`. */
  predicate Halves(x: u32, wide: u32, low: u16) {
    x % 0x1_0000 == low && x / 0x1_0000 == wide / 0x1_0000
  }

  /** The registers afterwards are those the service has left in its frame. */
  predicate FrameTaken(f: RmFrame, r: Regs) {
    && Halves(r.eax, f.wide.eax, f.ax) && Halves(r.ebx, f.wide.ebx, f.bx) && Halves(r.ecx, f.wide.ecx, f.cx)
    && Halves(r.edx, f.wide.edx, f.dx) && Halves(r.esi, f.wide.esi, f.si) && Halves(r.edi, f.wide.edi, f.di)
    && Halves(r.ebp, f.wide.ebp, f.bp) && r.es == f.es && r.ds == f.ds && r.fs == f.fs && r.gs == f.gs
  }

  /** An INT that the host serves: the service works on frame and memory, and the guest goes on behind the INT. */
  lemma HostIntTrap(h: Host, s: State, pre: seq<u8>) returns (f: RmFrame)
    requires Fetches(s, pre, 0xcd) && VectorOf(s, pre) != 0xff && IsHosts(h, s, VectorOf(s, pre))
    ensures FrameShows(f, s.cpu, (s.cpu.eip + |pre|) % 0x1_0000)
    ensures var (g, m) := h.service(VectorOf(s, pre), f, s.mem);
            var (t, o) := Trap(h, s);
            && o == Continue && FrameTaken(g, t.cpu.regs) && FlagsAre(t.cpu, g.flags)
            && t == s.(cpu := s.cpu.(eip := (s.cpu.eip + |pre| + 2) % 0x1_0000, eflags := t.cpu.eflags,
                                     regs := t.cpu.regs), mem := m)
  {
    IntRuns(h, s, pre);
    var v := VectorOf(s, pre);
    var at := s.(cpu := s.cpu.(eip := AtTrap(s).eip));
    f := Fill(at.cpu);
    ModAgain(at.cpu.eip, s.cpu.eip + |pre|, 2);
    HostIntDoes(h, at, v);
    ShownAnywhere(at.cpu, s.cpu, (s.cpu.eip + |pre|) % 0x1_0000);
    hide *;
    IntIsHosts(h, at, v);
  }

  lemma ShownAnywhere(c: Cpu, b: Cpu, ip: int)
    requires b == c.(eip := b.eip) && c.eip % 0x1_0000 == ip
    ensures FrameShows(Fill(c), b, ip)
  {
  }

  lemma IntIsHosts(h: Host, s: State, v: u8)
    requires v != 0xff && IsThunk(h, s, v)
    ensures Int(h, s, v) == (HostInt(h, s, v), Continue)
  {
  }

  lemma HostIntDoes(h: Host, s: State, v: u8)
    ensures var (g, m) := h.service(v, Fill(s.cpu), s.mem);
            var t := HostInt(h, s, v);
            && FrameTaken(g, t.cpu.regs) && FlagsAre(t.cpu, g.flags)
            && t == s.(cpu := s.cpu.(eip := (s.cpu.eip + 2) % 0x1_0000, eflags := t.cpu.eflags, regs := t.cpu.regs),
                       mem := m)
  {
    hide Fill, WithLow;
  }

  // ---------- The end ----------

  /** Instructions the monitor knows. */
  predicate Known(op: u8) {
    op in {0xfa, 0xfb, 0x9c, 0x9d, 0xcf, 0xcd, 0xf4, 0xe4, 0xe5, 0xe6, 0xe7, 0xec, 0xed, 0xee, 0xef}
  }

  /** INT 0xff and HLT end the guest with success, an instruction the monitor does not know ends it with -1. */
  lemma StopTrap(h: Host, s: State, pre: seq<u8>, op: u8)
    requires Fetches(s, pre, op)
    ensures var (t, o) := Trap(h, s);
            && (o == Stop(0) <==> op == 0xf4 || (op == 0xcd && VectorOf(s, pre) == 0xff))
            && (o == Stop(-1) <==> !Known(op))
            && (o.Stop? ==> t == s.(cpu := s.cpu.(eip := t.cpu.eip))
                            && t.cpu.eip % 0x1_0000 == (s.cpu.eip + |pre|) % 0x1_0000)
  {
    TrapRuns(h, s, pre, op);
    if op == 0xcd {
      IntRuns(h, s, pre);
    }
    hide Fetches, AtTrap, Trap, ByteAt, VectorOf, IsThunk, IsHosts, GuestInt, HostInt, InOut, Iret, Pushf, Popf, Cli,
      Sti, Linear, Peek;
  }
}
