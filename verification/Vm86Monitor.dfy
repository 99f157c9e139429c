/** The trap handler itself, working on the register frame and on guest memory in place. */
module Vm86Monitor {
  import opened Words
  import opened Vm86

  class Monitor {
    const host: Host
    var eip: u32
    var cs: u32
    var eflags: u32
    var esp: u32
    var ss: u32
    var regs: Regs
    var mem: seq<u8>
    var io: seq<Access>
    var result: int

    constructor (h: Host, s: State)
      ensures host == h && Now() == s
    {
      host := h;
      eip, cs, eflags, esp, ss, regs := s.cpu.eip, s.cpu.cs, s.cpu.eflags, s.cpu.esp, s.cpu.ss, s.cpu.regs;
      mem, io, result := s.mem, s.io, -1;
    }

    function Now(): State
      reads this
    {
      State(Cpu(eip, cs, eflags, esp, ss, regs), mem, io)
    }

    method StackPop16() returns (value: u16)
      modifies this`esp
      ensures value == Top(old(Now())) && Now() == Pop(old(Now()))
    {
      var sp := esp % 0x1_0000;
      value := Peek16(mem, Linear(ss, sp));
      sp := (sp + 2) % 0x1_0000;
      esp := WithLow(esp, sp);
    }

    method StackPush16(value: u16)
      modifies this`esp, this`mem
      ensures Now() == Push(old(Now()), value)
    {
      hide Linear, Poke16, WithLow;
      var sp: u16 := (Low16(esp) - 2) % 0x1_0000;
      mem := Poke16(mem, Linear(ss, sp), value);
      esp := WithLow(esp, sp);
    }

    method SetFlags16(flags: u16)
      modifies this`eflags
      ensures Now() == old(Now()).(cpu := SetFlags(old(Now()).cpu, flags))
    {
      eflags := FLAG_VM + flags;
    }

    method AdvanceIp(bytes: nat)
      modifies this`eip
      ensures Now() == old(Now()).(cpu := Advance(old(Now()).cpu, bytes))
    {
      eip := (eip + bytes) % 0x1_0000;
    }

    /** The host's service runs on a copy of the registers, which is then written back. */
    method HandleHostInt(vector: u8)
      modifies this
      ensures Now() == HostInt(host, old(Now()), vector) && result == old(result)
    {
      hide WithLow, Low16;
      var (f, m) := host.service(vector, Fill(Now().cpu), mem);
      mem := m;
      var w := f.wide;
      regs := Regs(WithLow(w.eax, f.ax), WithLow(w.ebx, f.bx), WithLow(w.ecx, f.cx), WithLow(w.edx, f.dx),
                   WithLow(w.esi, f.si), WithLow(w.edi, f.di), WithLow(w.ebp, f.bp), f.es, f.ds, f.fs, f.gs);
      SetFlags16(f.flags);
      AdvanceIp(2);
    }

    method HandleInternalInt(vector: u8) returns (stop: bool)
      modifies this
      ensures Now() == Int(host, old(Now()), vector).0
      ensures stop == Int(host, old(Now()), vector).1.Stop?
      ensures stop ==> result == 0 && Int(host, old(Now()), vector).1 == Stop(0)
    {
      hide Linear, Peek16, Push, HostInt, ClearIf;
      var off, seg := Peek16(mem, 4 * (vector as nat)), Peek16(mem, 4 * (vector as nat) + 2);
      var linear := Linear(seg, off);
      var flags := Low16(eflags);
      if vector == 0xff {
        result := 0;
        return true;
      }
      if linear >= host.thunkBase && linear < host.thunkBase + 0x1_0000 {
        HandleHostInt(vector);
        return false;
      }
      StackPush16(flags);
      StackPush16(Low16(cs));
      StackPush16((eip + 2) % 0x1_0000);
      flags := ClearIf(flags);
      SetFlags16(flags);
      cs, eip := seg, off;
      return false;
    }

    method HandleInOut(opcode: u8, op32: bool)
      modifies this
      ensures Now() == InOut(host, old(Now()), opcode, op32)
    {
      hide Linear, Merge, Cut;
      var port: u16, size, len := Low16(regs.edx), 1, 1;
      if 0xe4 <= opcode <= 0xe7 {
        port := Peek(mem, Linear(cs, (eip + 1) % TWO32));
        len := 2;
      }
      if opcode == 0xe5 || opcode == 0xe7 || opcode == 0xed || opcode == 0xef {
        size := if op32 then 4 else 2;
      }
      if IsInput(opcode) {
        var value := host.input(io, port, size);
        io := io + [In(port, size)];
        regs := regs.(eax := Merge(regs.eax, value, size));
      } else {
        io := io + [Out(port, size, Cut(regs.eax, size))];
      }
      AdvanceIp(len);
    }

    /** Everything up to the opcode: the prefix loop. */
    method SkipPrefixes() returns (opcode: u8, op32: bool)
      modifies this`eip
      ensures var d := AtTrap(old(Now()));
              opcode == d.opcode && op32 == d.op32 && Now() == old(Now()).(cpu := old(Now()).cpu.(eip := d.eip))
    {
      hide Linear;
      var linear, ip: u32 := Linear(cs, eip), eip;
      op32 := false;
      opcode := Peek(mem, linear);
      while opcode == 0x66 || IsPrefix(opcode)
        invariant opcode == Peek(mem, linear)
        invariant Decode(mem, linear, ip, op32) == AtTrap(old(Now()))
        decreases if linear < |mem| then |mem| - linear else 0
      {
        if opcode == 0x66 {
          op32 := !op32;
        }
        linear, ip := linear + 1, ((ip as int) + 1) % 0x1_0000;
        opcode := Peek(mem, linear);
      }
      eip := ip;
    }

    method HandleTrap() returns (stop: bool)
      modifies this
      ensures Now() == Trap(host, old(Now())).0
      ensures stop == Trap(host, old(Now())).1.Stop?
      ensures stop ==> Trap(host, old(Now())).1 == Stop(result)
    {
      hide Decode, Push, Pop, Top, Int, InOut, ClearIf, SetIf, Linear;
      var opcode, op32 := SkipPrefixes();
      stop := false;
      match opcode {
        case 0xfa =>
          SetFlags16(ClearIf(Low16(eflags)));
          AdvanceIp(1);
        case 0xfb =>
          SetFlags16(SetIf(Low16(eflags)));
          AdvanceIp(1);
        case 0x9c =>
          StackPush16(Low16(eflags));
          AdvanceIp(1);
        case 0x9d =>
          var flags := StackPop16();
          SetFlags16(flags);
          AdvanceIp(1);
        case 0xcf =>
          var ip := StackPop16();
          var seg := StackPop16();
          var flags := StackPop16();
          eip, cs := ip, seg;
          SetFlags16(flags);
        case 0xcd =>
          stop := HandleInternalInt(Peek(mem, Linear(cs, (eip + 1) % TWO32)));
        case 0xf4 =>
          result, stop := 0, true;
        case _ =>
          if 0xe4 <= opcode <= 0xe7 || 0xec <= opcode <= 0xef {
            HandleInOut(opcode, op32);
          } else {
            result, stop := -1, true;
          }
      }
    }
  }
}
