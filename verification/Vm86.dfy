/** The virtual-8086 monitor: what one trap does to the guest's registers and memory. */
module Vm86 {
  import opened Words

  const FLAG_IF: int := 0x200
  const FLAG_VM: int := 0x2_0000
  const MEMORY_MIN := 0x11_0000

  /** General and data-segment registers of the guest. */
  datatype Regs = Regs(eax: u32, ebx: u32, ecx: u32, edx: u32, esi: u32, edi: u32, ebp: u32, es: u32, ds: u32, fs: u32,
                       gs: u32)

  datatype Cpu = Cpu(eip: u32, cs: u32, eflags: u32, esp: u32, ss: u32, regs: Regs)

  /** Port accesses made for the guest. */
  datatype Access = In(port: u16, size: nat) | Out(port: u16, size: nat, value: u32)

  datatype State = State(cpu: Cpu, mem: seq<u8>, io: seq<Access>)

  /** All addresses a segment and an offset can form are backed by memory. */
  predicate Wide(mem: seq<u8>) {
    |mem| >= MEMORY_MIN
  }

  datatype Outcome = Continue | Stop(result: int)

  /** The registers a host service sees, in 16-bit and 32-bit form. */
  datatype RmFrame = RmFrame(ax: u16, bx: u16, cx: u16, dx: u16, si: u16, di: u16, es: u16, ds: u16, bp: u16, ip: u16,
                             cs: u16, flags: u16, wide: Regs, fs: u16, gs: u16)

  /** The host's side: services, ports, and where the service thunks live. */
  datatype Host = Host(service: (u8, RmFrame, seq<u8>) -> (RmFrame, seq<u8>), input: (seq<Access>, u16, nat) -> u32,
                       thunkBase: u32)

  // ---------- Words in memory ----------

  function Low16(x: u32): u16 {
    x % 0x1_0000
  }

  /** `x` with its low half replaced. */
  function WithLow(x: u32, low: u16): (r: u32)
    ensures r % 0x1_0000 == low && r / 0x1_0000 == x / 0x1_0000
  {
    var high: int := x - x % 0x1_0000;
    high + low
  }

  function Linear(seg: u32, off: u32): (r: nat)
    ensures r < MEMORY_MIN - 1
  {
    var s: int, o: int := Low16(seg), Low16(off);
    16 * s + o
  }

  /** Addresses without memory read as ones. */
  function Peek(mem: seq<u8>, a: nat): u8 {
    if a < |mem| then mem[a] else 0xff
  }

  function Peek16(mem: seq<u8>, a: nat): u16 {
    Le16(Peek(mem, a), Peek(mem, a + 1))
  }

  /** And writes to them are lost. */
  function Poke(mem: seq<u8>, a: nat, v: u8): (r: seq<u8>)
    ensures |r| == |mem| && (a < |mem| ==> r[a] == v)
    ensures forall b: nat :: b != a ==> Peek(r, b) == Peek(mem, b)
  {
    if a < |mem| then mem[a := v] else mem
  }

  function Poke16(mem: seq<u8>, a: nat, v: u16): (r: seq<u8>)
    ensures |r| == |mem| && (a + 1 < |mem| ==> Peek16(r, a) == v)
    ensures forall b: nat :: b != a && b != a + 1 ==> Peek(r, b) == Peek(mem, b)
  {
    Poke(Poke(mem, a, v % 0x100), a + 1, v / 0x100)
  }

  // ---------- The guest's stack ----------

  function Sp(c: Cpu): u16 {
    Low16(c.esp)
  }

  /** Stack offset `d` bytes above the current one, in 16 bits. */
  function Up(sp: u16, d: int): u16 {
    (sp + d) % 0x1_0000
  }

  function Push(s: State, v: u16): (r: State)
    ensures |r.mem| == |s.mem|
  {
    var sp := Up(Sp(s.cpu), -2);
    s.(cpu := s.cpu.(esp := WithLow(s.cpu.esp, sp)), mem := Poke16(s.mem, Linear(s.cpu.ss, sp), v))
  }

  function Top(s: State): u16 {
    Peek16(s.mem, Linear(s.cpu.ss, Sp(s.cpu)))
  }

  function Pop(s: State): State {
    s.(cpu := s.cpu.(esp := WithLow(s.cpu.esp, Up(Sp(s.cpu), 2))))
  }

  // ---------- Flags and instruction pointer ----------

  function Flags16(c: Cpu): u16 {
    Low16(c.eflags)
  }

  function SetFlags(c: Cpu, flags: u16): Cpu {
    c.(eflags := FLAG_VM + (flags as int))
  }

  function ClearIf(flags: u16): u16 {
    if flags / FLAG_IF % 2 == 1 then flags - FLAG_IF else flags
  }

  function SetIf(flags: u16): u16 {
    if flags / FLAG_IF % 2 == 1 then flags else flags + FLAG_IF
  }

  function Advance(c: Cpu, bytes: nat): Cpu {
    c.(eip := (c.eip + bytes) % 0x1_0000)
  }

  // ---------- Host services ----------

  function Fill(c: Cpu): RmFrame {
    var r := c.regs;
    RmFrame(Low16(r.eax), Low16(r.ebx), Low16(r.ecx), Low16(r.edx), Low16(r.esi), Low16(r.edi), Low16(r.es),
            Low16(r.ds), Low16(r.ebp), Low16(c.eip), Low16(c.cs), Flags16(c), r, Low16(r.fs), Low16(r.gs))
  }

  /** The 32-bit halves come from the wide registers, the low halves from the 16-bit ones. */
  function Store(c: Cpu, f: RmFrame): Cpu {
    var w := f.wide;
    SetFlags(c.(regs := Regs(WithLow(w.eax, f.ax), WithLow(w.ebx, f.bx), WithLow(w.ecx, f.cx), WithLow(w.edx, f.dx),
                             WithLow(w.esi, f.si), WithLow(w.edi, f.di), WithLow(w.ebp, f.bp), f.es, f.ds, f.fs, f.gs)),
             f.flags)
  }

  function HostInt(h: Host, s: State, vector: u8): State {
    var (f, mem) := h.service(vector, Fill(s.cpu), s.mem);
    State(Advance(Store(s.cpu, f), 2), mem, s.io)
  }

  // ---------- Instructions ----------

  function Vector(mem: seq<u8>, vector: u8): (u16, u16) {
    (Peek16(mem, 4 * (vector as nat)), Peek16(mem, 4 * (vector as nat) + 2))
  }

  predicate IsThunk(h: Host, s: State, vector: u8) {
    var (off, seg) := Vector(s.mem, vector);
    h.thunkBase <= Linear(seg, off) < h.thunkBase + 0x1_0000
  }

  /** INT through the guest's own vector table. */
  function GuestInt(s: State, vector: u8): (r: State)
    ensures |r.mem| == |s.mem|
  {
    var (off, seg) := Vector(s.mem, vector);
    var flags := Flags16(s.cpu);
    var pushed := Push(Push(Push(s, flags), Low16(s.cpu.cs)), (s.cpu.eip + 2) % 0x1_0000);
    pushed.(cpu := SetFlags(pushed.cpu, ClearIf(flags)).(cs := seg, eip := off))
  }

  function Int(h: Host, s: State, vector: u8): (State, Outcome)
  {
    if vector == 0xff then (s, Stop(0))
    else if IsThunk(h, s, vector) then (HostInt(h, s, vector), Continue)
    else (GuestInt(s, vector), Continue)
  }

  function Iret(s: State): State {
    var (eip, s1) := (Top(s), Pop(s));
    var (cs, s2) := (Top(s1), Pop(s1));
    var (flags, s3) := (Top(s2), Pop(s2));
    s3.(cpu := SetFlags(s3.cpu.(eip := eip, cs := cs), flags))
  }

  function Pushf(s: State): State
  {
    var p := Push(s, Flags16(s.cpu));
    p.(cpu := Advance(p.cpu, 1))
  }

  function Popf(s: State): State {
    var p := Pop(s);
    p.(cpu := Advance(SetFlags(p.cpu, Top(s)), 1))
  }

  function Cli(s: State): State {
    s.(cpu := Advance(SetFlags(s.cpu, ClearIf(Flags16(s.cpu))), 1))
  }

  function Sti(s: State): State {
    s.(cpu := Advance(SetFlags(s.cpu, SetIf(Flags16(s.cpu))), 1))
  }

  predicate IsImmediatePort(opcode: u8) {
    0xe4 <= opcode <= 0xe7
  }

  predicate IsInput(opcode: u8) {
    opcode == 0xe4 || opcode == 0xe5 || opcode == 0xec || opcode == 0xed
  }

  function AccessSize(opcode: u8, op32: bool): nat {
    if opcode == 0xe5 || opcode == 0xe7 || opcode == 0xed || opcode == 0xef then (if op32 then 4 else 2) else 1
  }

  /** What an input of `size` bytes leaves in EAX. */
  function Merge(eax: u32, value: u32, size: nat): u32 {
    if size == 1 then eax - eax % 0x100 + value % 0x100
    else if size == 2 then WithLow(eax, Low16(value))
    else value
  }

  function Cut(eax: u32, size: nat): u32 {
    if size == 1 then eax % 0x100 else if size == 2 then eax % 0x1_0000 else eax
  }

  function InOut(h: Host, s: State, opcode: u8, op32: bool): State {
    var port: u16 :=
      if IsImmediatePort(opcode) then Peek(s.mem, Linear(s.cpu.cs, (s.cpu.eip + 1) % TWO32))
      else Low16(s.cpu.regs.edx);
    var size := AccessSize(opcode, op32);
    var len := if IsImmediatePort(opcode) then 2 else 1;
    if IsInput(opcode) then
      var value := h.input(s.io, port, size);
      State(Advance(s.cpu.(regs := s.cpu.regs.(eax := Merge(s.cpu.regs.eax, value, size))), len), s.mem,
            s.io + [In(port, size)])
    else
      State(Advance(s.cpu, len), s.mem, s.io + [Out(port, size, Cut(s.cpu.regs.eax, size))])
  }

  // ---------- One trap ----------

  datatype Decoded = Decoded(opcode: u8, eip: u32, op32: bool)

  predicate IsPrefix(b: u8) {
    b == 0x26 || b == 0x2e || b == 0x36 || b == 0x3e || b == 0xf2 || b == 0xf3
  }

  /** Skips prefixes; the offset wraps at 64 KiB but the linear address does not. */
  function Decode(mem: seq<u8>, linear: nat, ip: u32, op32: bool): Decoded
    decreases if linear < |mem| then |mem| - linear else 0
  {
    var b := Peek(mem, linear);
    if b == 0x66 then Decode(mem, linear + 1, (ip + 1) % 0x1_0000, !op32)
    else if IsPrefix(b) then Decode(mem, linear + 1, (ip + 1) % 0x1_0000, op32)
    else Decoded(b, ip, op32)
  }

  function Execute(h: Host, s: State, d: Decoded): (State, Outcome)
  {
    match d.opcode
    case 0xfa => (Cli(s), Continue)
    case 0xfb => (Sti(s), Continue)
    case 0x9c => (Pushf(s), Continue)
    case 0x9d => (Popf(s), Continue)
    case 0xcf => (Iret(s), Continue)
    case 0xcd => Int(h, s, Peek(s.mem, Linear(s.cpu.cs, (s.cpu.eip + 1) % TWO32)))
    case 0xf4 => (s, Stop(0))
    case _ =>
      if IsImmediatePort(d.opcode) || 0xec <= d.opcode <= 0xef then (InOut(h, s, d.opcode, d.op32), Continue)
      else (s, Stop(-1))
  }

  function AtTrap(s: State): Decoded {
    Decode(s.mem, Linear(s.cpu.cs, s.cpu.eip), s.cpu.eip, false)
  }

  function Trap(h: Host, s: State): (State, Outcome)
  {
    var d := AtTrap(s);
    Execute(h, s.(cpu := s.cpu.(eip := d.eip)), d)
  }

  // ---------- What every trap keeps ----------

  predicate VmSet(c: Cpu) {
    c.eflags / FLAG_VM % 2 == 1
  }

  lemma {:induction false} DecodeStaysInSegment(mem: seq<u8>, linear: nat, ip: u32, op32: bool)
    requires ip < 0x1_0000
    ensures Decode(mem, linear, ip, op32).eip < 0x1_0000
    decreases if linear < |mem| then |mem| - linear else 0
  {
    var b := Peek(mem, linear);
    if b == 0x66 || IsPrefix(b) {
      DecodeStaysInSegment(mem, linear + 1, (ip + 1) % 0x1_0000, if b == 0x66 then !op32 else op32);
    }
  }

  /** EIP stays in 16 bits, VM86 mode is never left, ESP's high half is never touched. */
  predicate Tame(c: Cpu, c': Cpu) {
    c'.eip < 0x1_0000 && (VmSet(c) ==> VmSet(c')) && c'.esp / 0x1_0000 == c.esp / 0x1_0000 && c'.ss == c.ss
  }

  lemma FlagsSetVm(c: Cpu, flags: u16)
    requires c.eflags == FLAG_VM + (flags as int)
    ensures VmSet(c) && Flags16(c) == flags
  {
  }

  lemma PushTame(s: State, v: u16)
    ensures var c := Push(s, v).cpu; c == s.cpu.(esp := c.esp) && c.esp / 0x1_0000 == s.cpu.esp / 0x1_0000
  {
  }

  lemma PopTame(s: State)
    ensures var c := Pop(s).cpu; c == s.cpu.(esp := c.esp) && c.esp / 0x1_0000 == s.cpu.esp / 0x1_0000
  {
  }

  lemma IretTame(s: State)
    ensures Tame(s.cpu, Iret(s).cpu) && VmSet(Iret(s).cpu)
  {
    hide Pop, Top, WithLow, VmSet;
    PopTame(s);
    PopTame(Pop(s));
    PopTame(Pop(Pop(s)));
    FlagsSetVm(Iret(s).cpu, Top(Pop(Pop(s))));
  }

  lemma GuestIntTame(s: State, vector: u8)
    ensures Tame(s.cpu, GuestInt(s, vector).cpu) && VmSet(GuestInt(s, vector).cpu)
  {
    hide Push, VmSet, Peek16, ClearIf;
    var flags := Flags16(s.cpu);
    var s1 := Push(s, flags);
    var s2 := Push(s1, Low16(s.cpu.cs));
    PushTame(s, flags);
    PushTame(s1, Low16(s.cpu.cs));
    PushTame(s2, (s.cpu.eip + 2) % 0x1_0000);
    FlagsSetVm(GuestInt(s, vector).cpu, ClearIf(flags));
  }

  lemma HostIntTame(h: Host, s: State, vector: u8)
    ensures Tame(s.cpu, HostInt(h, s, vector).cpu) && VmSet(HostInt(h, s, vector).cpu)
  {
    hide VmSet, WithLow;
    FlagsSetVm(HostInt(h, s, vector).cpu, h.service(vector, Fill(s.cpu), s.mem).0.flags);
  }

  lemma FlagOpsTame(s: State)
    ensures Tame(s.cpu, Cli(s).cpu) && Tame(s.cpu, Sti(s).cpu)
  {
    hide VmSet, ClearIf, SetIf;
    FlagsSetVm(Cli(s).cpu, ClearIf(Flags16(s.cpu)));
    FlagsSetVm(Sti(s).cpu, SetIf(Flags16(s.cpu)));
  }

  lemma FlagStackTame(s: State)
    ensures Tame(s.cpu, Pushf(s).cpu) && Tame(s.cpu, Popf(s).cpu)
  {
    hide VmSet, Push, Pop, Top;
    PushTame(s, Flags16(s.cpu));
    PopTame(s);
    VmIsInFlags(s.cpu, Pushf(s).cpu);
    FlagsSetVm(Popf(s).cpu, Top(s));
  }

  lemma VmIsInFlags(c: Cpu, c': Cpu)
    requires c.eflags == c'.eflags
    ensures VmSet(c) == VmSet(c')
  {
  }

  lemma InOutTame(h: Host, s: State, opcode: u8, op32: bool)
    ensures Tame(s.cpu, InOut(h, s, opcode, op32).cpu)
  {
    hide VmSet, Merge, Cut;
    VmIsInFlags(s.cpu, InOut(h, s, opcode, op32).cpu);
  }

  lemma SameTame(c: Cpu)
    requires c.eip < 0x1_0000
    ensures Tame(c, c)
  {
  }

  lemma ExecuteTame(h: Host, s: State, d: Decoded)
    requires s.cpu.eip < 0x1_0000
    ensures Tame(s.cpu, Execute(h, s, d).0.cpu)
  {
    hide Tame, Cli, Sti, Pushf, Popf, Iret, GuestInt, HostInt, InOut, Vector;
    SameTame(s.cpu);
    match d.opcode {
      case 0xfa => FlagOpsTame(s);
      case 0xfb => FlagOpsTame(s);
      case 0x9c => FlagStackTame(s);
      case 0x9d => FlagStackTame(s);
      case 0xcf => IretTame(s);
      case 0xcd =>
        var v := Peek(s.mem, Linear(s.cpu.cs, (s.cpu.eip + 1) % TWO32));
        GuestIntTame(s, v);
        HostIntTame(h, s, v);
      case _ => InOutTame(h, s, d.opcode, d.op32);
    }
  }

  /** Whatever the guest's instruction and whatever the host service does. */
  lemma TrapTame(h: Host, s: State)
    requires s.cpu.eip < 0x1_0000
    ensures Tame(s.cpu, Trap(h, s).0.cpu)
  {
    hide Execute, Decode;
    DecodeStaysInSegment(s.mem, Linear(s.cpu.cs, s.cpu.eip), s.cpu.eip, false);
    var at := s.(cpu := s.cpu.(eip := AtTrap(s).eip));
    ExecuteTame(h, at, AtTrap(s));
    VmIsInFlags(s.cpu, at.cpu);
  }

  // ---------- Host services that change nothing ----------

  ghost predicate Identity(h: Host, vector: u8) {
    forall f, mem :: h.service(vector, f, mem) == (f, mem)
  }

  /** Data segments and flags hold nothing beyond 16 bits, except that VM is set. */
  predicate Plain(c: Cpu) {
    && c.regs.es < 0x1_0000 && c.regs.ds < 0x1_0000 && c.regs.fs < 0x1_0000 && c.regs.gs < 0x1_0000
    && c.eflags == FLAG_VM + (Flags16(c) as int)
  }

  lemma WithOwnLow(x: u32)
    ensures WithLow(x, Low16(x)) == x
  {
  }

  lemma StoreFill(c: Cpu)
    ensures Store(c, Fill(c)) ==
            c.(regs := c.regs.(es := Low16(c.regs.es), ds := Low16(c.regs.ds),
                               fs := Low16(c.regs.fs), gs := Low16(c.regs.gs)),
               eflags := FLAG_VM + (Flags16(c) as int))
  {
    hide WithLow;
    var r := c.regs;
    WithOwnLow(r.eax);
    WithOwnLow(r.ebx);
    WithOwnLow(r.ecx);
    WithOwnLow(r.edx);
    WithOwnLow(r.esi);
    WithOwnLow(r.edi);
    WithOwnLow(r.ebp);
  }

  /**
   * A service that returns its frame unchanged moves the guest past the INT and does nothing else, exactly when it was
   * plain.
   */
  lemma IdentityService(h: Host, s: State, vector: u8)
    requires Identity(h, vector)
    ensures HostInt(h, s, vector) == s.(cpu := Advance(s.cpu, 2)) <==> Plain(s.cpu)
  {
    hide Store, Fill;
    StoreFill(s.cpu);
    assert h.service(vector, Fill(s.cpu), s.mem) == (Fill(s.cpu), s.mem);
  }

  // ---------- What the instructions mean ----------

  predicate Interruptible(flags: u16) {
    flags / FLAG_IF % 2 == 1
  }

  /** All flags but IF are the same. */
  predicate SameButIf(f: u16, g: u16) {
    f % FLAG_IF == g % FLAG_IF && f / (2 * FLAG_IF) == g / (2 * FLAG_IF)
  }

  /** CLI clears the interrupt flag, STI sets it, and neither touches another flag. */
  lemma CliStiMean(f: u16)
    ensures !Interruptible(ClearIf(f)) && SameButIf(f, ClearIf(f))
    ensures Interruptible(SetIf(f)) && SameButIf(f, SetIf(f))
  {
    var q, low := f / (2 * FLAG_IF), f % FLAG_IF;
    DivModUnique(ClearIf(f), FLAG_IF, 2 * q, low);
    DivModUnique(SetIf(f), FLAG_IF, 2 * q + 1, low);
  }

  /** A guest's handler is entered at the address in the vector table, with interrupts off and all else as it was. */
  lemma GuestIntEnters(s: State, vector: u8)
    ensures var c := GuestInt(s, vector).cpu;
            && c.eip == Peek16(s.mem, 4 * (vector as nat)) && c.cs == Peek16(s.mem, 4 * (vector as nat) + 2)
            && !Interruptible(Flags16(c)) && SameButIf(Flags16(s.cpu), Flags16(c)) && c.regs == s.cpu.regs
  {
    hide Push, ClearIf, Interruptible, SameButIf, Peek16;
    CliStiMean(Flags16(s.cpu));
    var p := Push(s, Flags16(s.cpu));
    PushTame(s, Flags16(s.cpu));
    PushTame(p, Low16(s.cpu.cs));
    PushTame(Push(p, Low16(s.cpu.cs)), (s.cpu.eip + 2) % 0x1_0000);
    FlagsSetVm(GuestInt(s, vector).cpu, ClearIf(Flags16(s.cpu)));
  }

  /** 2 to the number of bits in `size` bytes. */
  function Span(size: nat): (r: nat)
    ensures r > 0
  {
    if size == 1 then 0x100 else if size == 2 then 0x1_0000 else TWO32
  }

  /** A port input replaces the low bytes of EAX it has and keeps the others; an output sends the low bytes. */
  lemma PortsMoveLowBytes(eax: u32, value: u32, size: nat)
    ensures Merge(eax, value, size) % Span(size) == value % Span(size)
            && Merge(eax, value, size) / Span(size) == eax / Span(size)
    ensures Cut(eax, size) == eax % Span(size)
  {
    if size == 1 {
      DivModUnique(Merge(eax, value, size), 0x100, eax / 0x100, value % 0x100);
    }
  }
}
