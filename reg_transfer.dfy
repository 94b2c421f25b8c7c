/**
 * The register-transfer handlers of src/cpu/instrs/reg_transfer.rs: MOVHI
 * and MOVEA (each with a trailing 16-bit immediate), MOV with a 5-bit
 * immediate or a register, and LDSR into a system register.
 */
module RegTransfer {
  import opened Word
  import opened Outcomes
  import opened Mem
  import opened MemoryBus
  import opened Psw
  import opened Operands
  import opened Processor

  /** LDSR's system register numbers: the PSW, and the cache control word. */
  const PSW_REG: nat := 5
  const CHCW_REG: nat := 24

  /** `reg1.wrapping_add((hw as u32) << 16)`: the value MOVHI stores. */
  function HighAdd(reg1: u32, hw: u16): u32
  {
    Wrap(reg1 + hw * 0x1_0000)
  }

  /**
   * MOVHI keeps the low half of reg1 and adds the immediate to its high
   * half, modulo 2^16: the immediate is not sign-extended and never carries
   * into the low half.
   */
  lemma HighAddHalves(reg1: u32, hw: u16)
    ensures HighAdd(reg1, hw) % 0x1_0000 == reg1 % 0x1_0000
    ensures HighAdd(reg1, hw) / 0x1_0000 == (reg1 / 0x1_0000 + hw) % 0x1_0000
  {
    var lo, hi := reg1 % 0x1_0000, reg1 / 0x1_0000;
    var h := (hi + hw) % 0x1_0000;
    var q := (hi + hw) / 0x1_0000;
    assert reg1 + hw * 0x1_0000 == q * WORD + (h * 0x1_0000 + lo);
    ModUnique(reg1 + hw * 0x1_0000, WORD, q, h * 0x1_0000 + lo);
    ModUnique(HighAdd(reg1, hw), 0x1_0000, h, lo);
  }

  /** `movhi`: fetch the immediate, then reg2 = reg1 + (imm << 16). */
  function AfterMovhi(s: Regs, m: MemoryImage, instr: u16): Result<Regs>
    requires WellFormed(s)
  {
    var c :- Consume(s, m);
    var t := c.1;
    Ok(t.(gprs := t.gprs[Reg2(instr) := HighAdd(t.gprs[Reg1(instr)], c.0)]))
  }

  /** `movea`: fetch the immediate, then reg2 = reg1 + sign-extended imm. */
  function AfterMovea(s: Regs, m: MemoryImage, instr: u16): Result<Regs>
    requires WellFormed(s)
  {
    var c :- Consume(s, m);
    var t := c.1;
    Ok(t.(gprs := t.gprs[Reg2(instr) := AddSext16(t.gprs[Reg1(instr)], c.0)]))
  }

  /** `mov_imm`: reg2 = sign-extended imm5. */
  function AfterMovImm(s: Regs, instr: u16): Regs
    requires WellFormed(s)
  {
    s.(gprs := s.gprs[Reg2(instr) := Imm5(instr)])
  }

  /** `mov_reg`: reg2 = reg1. */
  function AfterMovReg(s: Regs, instr: u16): Regs
    requires WellFormed(s)
  {
    s.(gprs := s.gprs[Reg2(instr) := s.gprs[Reg1(instr)]])
  }

  /**
   * MOVHI faults only when its immediate cannot be fetched; otherwise it
   * consumes exactly one halfword (PC + 2), writes reg2 with reg1 plus the
   * immediate shifted up 16 bits, and changes no other register and not the
   * PSW.
   */
  lemma MovhiEffect(s: Regs, m: MemoryImage, instr: u16)
    requires WellFormed(s)
    ensures AfterMovhi(s, m, instr).Ok? <==> Read16(m, s.pc).Ok?
    ensures Read16(m, s.pc).Err? ==> AfterMovhi(s, m, instr) == Err(Read16(m, s.pc).fault)
    ensures Read16(m, s.pc).Ok? ==>
      var hw, t := Read16(m, s.pc).value, AfterMovhi(s, m, instr).value;
      && t.pc == Wrap(s.pc + 2) && t.psw == s.psw
      && t.gprs == s.gprs[Reg2(instr) := HighAdd(s.gprs[Reg1(instr)], hw)]
  {
    if Read16(m, s.pc).Ok? {
      var hw := Read16(m, s.pc).value;
      assert Consume(s, m) == Ok((hw, s.(pc := Wrap(s.pc + 2))));
    }
  }

  /**
   * MOVEA faults only when its immediate cannot be fetched; otherwise it
   * consumes exactly one halfword (PC + 2), writes reg2 with reg1 plus the
   * sign-extended immediate modulo 2^32, and changes no other register and
   * not the PSW.
   */
  lemma MoveaEffect(s: Regs, m: MemoryImage, instr: u16)
    requires WellFormed(s)
    ensures AfterMovea(s, m, instr).Ok? <==> Read16(m, s.pc).Ok?
    ensures Read16(m, s.pc).Err? ==> AfterMovea(s, m, instr) == Err(Read16(m, s.pc).fault)
    ensures Read16(m, s.pc).Ok? ==>
      var hw, t := Read16(m, s.pc).value, AfterMovea(s, m, instr).value;
      && t.pc == Wrap(s.pc + 2) && t.psw == s.psw
      && t.gprs == s.gprs[Reg2(instr) := Wrap(s.gprs[Reg1(instr)] + ToSigned(Sext16(hw)))]
  {
    if Read16(m, s.pc).Ok? {
      var hw := Read16(m, s.pc).value;
      assert Consume(s, m) == Ok((hw, s.(pc := Wrap(s.pc + 2))));
    }
  }

  /** MOV writes reg2 alone, leaving PC and PSW; with an immediate the value is the sign-extended imm5, in -16..15. */
  lemma MovEffect(s: Regs, instr: u16)
    requires WellFormed(s)
    ensures var t := AfterMovImm(s, instr);
      && t.pc == s.pc && t.psw == s.psw
      && t.gprs[Reg2(instr)] == Imm5(instr)
      && -16 <= ToSigned(t.gprs[Reg2(instr)]) < 16
      && forall j :: 0 <= j < 32 && j != Reg2(instr) ==> t.gprs[j] == s.gprs[j]
    ensures var t := AfterMovReg(s, instr);
      && t.pc == s.pc && t.psw == s.psw
      && t.gprs[Reg2(instr)] == s.gprs[Reg1(instr)]
      && forall j :: 0 <= j < 32 && j != Reg2(instr) ==> t.gprs[j] == s.gprs[j]
  {
  }

  /** `ldsr`: write reg2 into system register `instr & 0x1F`. */
  function AfterLdsr(s: Regs, instr: u16): Result<Regs>
    requires WellFormed(s)
  {
    var id := Reg1(instr);
    var reg2 := s.gprs[Reg2(instr)];
    if id == PSW_REG then Ok(s.(psw := reg2))
    else if id == CHCW_REG then Ok(s)
    else Err(UnimplementedSystemRegister(id))
  }

  /**
   * LDSR succeeds for the PSW and the cache control word only.  Into the PSW
   * it replaces the whole word, so every flag afterwards is the matching bit
   * of reg2 (zero is bit 0); into the cache control word it changes nothing.
   */
  lemma LdsrEffect(s: Regs, instr: u16)
    requires WellFormed(s)
    ensures AfterLdsr(s, instr).Ok? <==> Reg1(instr) == 5 || Reg1(instr) == 24
    ensures AfterLdsr(s, instr).Err? ==> AfterLdsr(s, instr).fault == UnimplementedSystemRegister(Reg1(instr))
    ensures Reg1(instr) == 5 ==>
      var t, reg2 := AfterLdsr(s, instr).value, s.gprs[Reg2(instr)];
      && t.psw == reg2 && t.gprs == s.gprs && t.pc == s.pc
      && (Flag(t.psw, ZERO) <==> reg2 % 2 == 1)
    ensures Reg1(instr) == 24 ==> AfterLdsr(s, instr) == Ok(s)
  {
  }

  method Movhi(cpu: Cpu, bus: Bus, instr: u16) returns (r: Outcome)
    requires cpu.Valid() && bus.Valid()
    modifies cpu, cpu.gprs
    ensures cpu.Valid()
    ensures AfterMovhi(old(cpu.State()), bus.Image(), instr) == if r.Pass? then Ok(cpu.State()) else Err(r.fault)
  {
    var hw := cpu.ConsumeHalfword(bus);
    if hw.Err? {
      return Fail(hw.fault);
    }
    cpu.gprs[Reg2(instr)] := HighAdd(cpu.gprs[Reg1(instr)], hw.value);
    r := Pass;
  }

  method Movea(cpu: Cpu, bus: Bus, instr: u16) returns (r: Outcome)
    requires cpu.Valid() && bus.Valid()
    modifies cpu, cpu.gprs
    ensures cpu.Valid()
    ensures AfterMovea(old(cpu.State()), bus.Image(), instr) == if r.Pass? then Ok(cpu.State()) else Err(r.fault)
  {
    var hw := cpu.ConsumeHalfword(bus);
    if hw.Err? {
      return Fail(hw.fault);
    }
    cpu.gprs[Reg2(instr)] := AddSext16(cpu.gprs[Reg1(instr)], hw.value);
    r := Pass;
  }

  method MovImm(cpu: Cpu, instr: u16)
    requires cpu.Valid()
    modifies cpu.gprs
    ensures cpu.Valid()
    ensures cpu.State() == AfterMovImm(old(cpu.State()), instr)
  {
    cpu.gprs[Reg2(instr)] := Imm5(instr);
  }

  method MovReg(cpu: Cpu, instr: u16)
    requires cpu.Valid()
    modifies cpu.gprs
    ensures cpu.Valid()
    ensures cpu.State() == AfterMovReg(old(cpu.State()), instr)
  {
    cpu.gprs[Reg2(instr)] := cpu.gprs[Reg1(instr)];
  }

  method Ldsr(cpu: Cpu, instr: u16) returns (r: Outcome)
    requires cpu.Valid()
    modifies cpu
    ensures cpu.Valid()
    ensures AfterLdsr(old(cpu.State()), instr) == if r.Pass? then Ok(cpu.State()) else Err(r.fault)
  {
    var id := Reg1(instr);
    var reg2 := cpu.gprs[Reg2(instr)];
    if id == PSW_REG {
      cpu.psw := reg2;
      r := Pass;
    } else if id == CHCW_REG {
      r := Pass;
    } else {
      r := Fail(UnimplementedSystemRegister(id));
    }
  }
}
