/**
 * The control-transfer handlers of src/cpu/instrs/branches.rs: the
 * conditional branch Bcond with a 9-bit displacement, JMP through a
 * register, and JR with a 26-bit displacement.  None of them touches a
 * general-purpose register or the PSW.
 */
module Branches {
  import opened Word
  import opened Outcomes
  import opened Mem
  import opened MemoryBus
  import opened Psw
  import opened Operands
  import opened Processor

  /** `(instr >> 9) & 0xF`: the condition code of Bcond. */
  function CondCode(instr: u16): (c: nat)
    ensures c < 16
  {
    instr / 0x200 % 0x10
  }

  /** The condition code is what the source's shift and mask extract. */
  lemma CondCodeMask(instr: u16)
    ensures And(instr / 0x200, 0xF) == CondCode(instr)
  {
    assert Pow2(4) == 0x10 by { Pow2Values(); }
    AndLowMask(instr / 0x200, 4);
  }

  /** `((instr & 0x1FF) as i32) << 23 >> 23`: the 9-bit displacement, sign-extended. */
  function Disp9(instr: u16): (d: u32)
    ensures -0x100 <= ToSigned(d) < 0x100
    ensures ToSigned(d) == if instr % 0x200 < 0x100 then instr % 0x200 else instr % 0x200 - 0x200
  {
    assert Pow2(9) == 0x200 && Pow2(8) == 0x100 by { Pow2Values(); }
    SignExtend(instr % 0x200, 9)
  }

  /** `x & !1` on a u32: the word with bit 0 cleared. */
  function ClearBit0(x: u32): (r: u32)
    ensures r == x - x % 2
    ensures r % 2 == 0
  {
    ClearLowBit(x);
    And(x, 0xFFFF_FFFE)
  }

  lemma ClearLowBit(x: u32)
    ensures And(x, 0xFFFF_FFFE) == x - x % 2
  {
    var mask := Pow2(32) - Pow2(1);
    assert mask == 0xFFFF_FFFE by {
      Pow2Word();
      assert Pow2(1) == 2;
    }
    AndMiddleMask(x, 32, 1);
    assert x % Pow2(32) == x && x % Pow2(1) == x % 2 by {
      Pow2Word();
      assert Pow2(1) == 2;
    }
  }

  /** `bcond`: when the condition holds, PC = PC - 2 + displacement, wrapping. */
  function AfterBcond(s: Regs, instr: u16): Regs
  {
    if SatisfiesCond(s.psw, CondCode(instr)) then s.(pc := Wrap(Wrap(s.pc - 2) + Disp9(instr)))
    else s
  }

  /**
   * A taken branch lands at its displacement, between -256 and 255, from
   * the first byte of the branch instruction (two bytes before the PC that
   * follows the fetch); an untaken one changes nothing.  Registers and PSW
   * stay as they were either way.
   */
  lemma BcondEffect(s: Regs, instr: u16)
    ensures AfterBcond(s, instr).gprs == s.gprs && AfterBcond(s, instr).psw == s.psw
    ensures SatisfiesCond(s.psw, CondCode(instr)) ==>
      AfterBcond(s, instr).pc == Wrap(s.pc - 2 + ToSigned(Disp9(instr)))
    ensures !SatisfiesCond(s.psw, CondCode(instr)) ==> AfterBcond(s, instr) == s
  {
    WrapWrap(s.pc - 2, Disp9(instr));
    WrapSigned(s.pc - 2, Disp9(instr));
  }

  /** `jmp`: PC = reg1 with bit 0 cleared. */
  function AfterJmp(s: Regs, instr: u16): Regs
    requires WellFormed(s)
  {
    s.(pc := ClearBit0(s.gprs[Reg1(instr)]))
  }

  /** A jump target is even and differs from reg1 only in bit 0; nothing else changes. */
  lemma JmpEffect(s: Regs, instr: u16)
    requires WellFormed(s)
    ensures var t := AfterJmp(s, instr);
      && t.pc % 2 == 0 && t.pc <= s.gprs[Reg1(instr)] <= t.pc + 1
      && t.gprs == s.gprs && t.psw == s.psw
  {
  }

  /** `((instr as u32 & 0x3FF) << 16) | hw`: the 26-bit displacement field of JR. */
  function JrField(instr: u16, hw: u16): (v: nat)
    ensures v == (instr % 0x400) * 0x1_0000 + hw
    ensures v < 0x400_0000
  {
    assert Pow2(10) == 0x400 && Pow2(16) == 0x1_0000 by { Pow2Values(); }
    AndLowMask(instr, 10);
    OrDisjoint(instr % 0x400, hw, 16);
    Or(And(instr, 0x3FF) * 0x1_0000, hw)
  }

  /** `((v as i32) << 6 >> 6) as u32`: the field sign-extended from bit 25. */
  function Disp26(instr: u16, hw: u16): (d: u32)
    ensures -0x200_0000 <= ToSigned(d) < 0x200_0000
    ensures var v := JrField(instr, hw);
      ToSigned(d) == if v < 0x200_0000 then v else v - 0x400_0000
  {
    assert Pow2(26) == 0x400_0000 && Pow2(25) == 0x200_0000 by { Pow2Values(); }
    SignExtend(JrField(instr, hw), 26)
  }

  /** The target JR computes from the PC after its fetch: `pc.wrapping_sub(4).wrapping_add(offset) & !1`. */
  function JrLanding(pc: u32, instr: u16, hw: u16): u32
  {
    ClearBit0(Wrap(Wrap(pc - 4) + Disp26(instr, hw)))
  }

  /** `jr`: fetch the low half of the displacement, then jump relative to the instruction's first byte. */
  function AfterJr(s: Regs, m: MemoryImage, instr: u16): Result<Regs>
  {
    var c :- Consume(s, m);
    Ok(c.1.(pc := JrLanding(c.1.pc, instr, c.0)))
  }

  /**
   * JR faults only when its second halfword cannot be fetched.  Otherwise it
   * lands, with bit 0 cleared, at its signed displacement from the first
   * byte of the JR instruction (two bytes before the PC it was called with),
   * and leaves registers and PSW unchanged.
   */
  lemma JrEffect(s: Regs, m: MemoryImage, instr: u16)
    ensures AfterJr(s, m, instr).Ok? <==> Read16(m, s.pc).Ok?
    ensures Read16(m, s.pc).Err? ==> AfterJr(s, m, instr) == Err(Read16(m, s.pc).fault)
    ensures AfterJr(s, m, instr).Ok? ==>
      var t := AfterJr(s, m, instr).value;
      var target := Wrap(s.pc - 2 + ToSigned(Disp26(instr, Read16(m, s.pc).value)));
      && t.pc == ClearBit0(target) && t.pc % 2 == 0
      && t.gprs == s.gprs && t.psw == s.psw
  {
    if Read16(m, s.pc).Ok? {
      var hw := Read16(m, s.pc).value;
      var after := s.(pc := Wrap(s.pc + 2));
      assert Consume(s, m) == Ok((hw, after));
      assert AfterJr(s, m, instr) == Ok(after.(pc := JrLanding(after.pc, instr, hw)));
      JrLandingFrom(s.pc, instr, hw);
    }
  }

  lemma JrLandingFrom(pc: u32, instr: u16, hw: u16)
    ensures JrLanding(Wrap(pc + 2), instr, hw) == ClearBit0(Wrap(pc - 2 + ToSigned(Disp26(instr, hw))))
  {
    JrTarget(pc, Disp26(instr, hw));
  }

  /** Advancing by 2, stepping back 4 and adding d, all wrapping, is adding d to PC - 2. */
  lemma JrTarget(pc: u32, d: u32)
    ensures Wrap(Wrap(Wrap(pc + 2) - 4) + d) == Wrap(pc - 2 + ToSigned(d))
  {
    WrapWrap(pc + 2, -4);
    WrapWrap(pc - 2, d);
    WrapSigned(pc - 2, d);
  }

  method Bcond(cpu: Cpu, instr: u16)
    requires cpu.Valid()
    modifies cpu
    ensures cpu.Valid()
    ensures cpu.State() == AfterBcond(old(cpu.State()), instr)
  {
    var cond := CondCode(instr);
    if SatisfiesCond(cpu.psw, cond) {
      var offset := Disp9(instr);
      cpu.pc := Wrap(Wrap(cpu.pc - 2) + offset);
    }
  }

  method Jmp(cpu: Cpu, instr: u16)
    requires cpu.Valid()
    modifies cpu
    ensures cpu.Valid()
    ensures cpu.State() == AfterJmp(old(cpu.State()), instr)
  {
    cpu.pc := ClearBit0(cpu.gprs[Reg1(instr)]);
  }

  method Jr(cpu: Cpu, bus: Bus, instr: u16) returns (r: Outcome)
    requires cpu.Valid() && bus.Valid()
    modifies cpu
    ensures cpu.Valid()
    ensures AfterJr(old(cpu.State()), bus.Image(), instr) == if r.Pass? then Ok(cpu.State()) else Err(r.fault)
  {
    var hw := cpu.ConsumeHalfword(bus);
    if hw.Err? {
      return Fail(hw.fault);
    }
    cpu.pc := JrLanding(cpu.pc, instr, hw.value);
    r := Pass;
  }
}
