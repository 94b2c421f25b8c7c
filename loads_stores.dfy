/**
 * The load and store handlers of src/cpu/instrs/loads_stores.rs.  Each
 * fetches a 16-bit displacement, forms the effective address reg1 plus the
 * sign-extended displacement (wrapping), and then moves a byte, a halfword
 * or a word between reg2 and the bus.  Loads sign-extend bytes and
 * halfwords; stores truncate reg2 to the width of the access.
 */
module LoadsStores {
  import opened Word
  import opened Outcomes
  import opened Mem
  import opened MemoryBus
  import opened Operands
  import opened Processor

  /** The effective address: reg1 plus the sign-extended displacement `hw`. */
  function EffectiveAddress(s: Regs, instr: u16, hw: u16): (a: u32)
    requires WellFormed(s)
    ensures a == Wrap(s.gprs[Reg1(instr)] + ToSigned(Sext16(hw)))
  {
    AddSext16(s.gprs[Reg1(instr)], hw)
  }

  // ----- loads -------------------------------------------------------------------

  /** `ld_byte`: reg2 = the byte at the effective address, sign-extended. */
  function AfterLdByte(s: Regs, m: MemoryImage, instr: u16): Result<Regs>
    requires WellFormed(s)
  {
    var c :- Consume(s, m);
    var t := c.1;
    var b :- Read8(m, EffectiveAddress(t, instr, c.0));
    Ok(t.(gprs := t.gprs[Reg2(instr) := Sext8(b)]))
  }

  /** `ld_halfword`: reg2 = the halfword at the effective address, sign-extended. */
  function AfterLdHalfword(s: Regs, m: MemoryImage, instr: u16): Result<Regs>
    requires WellFormed(s)
  {
    var c :- Consume(s, m);
    var t := c.1;
    var h :- Read16(m, EffectiveAddress(t, instr, c.0));
    Ok(t.(gprs := t.gprs[Reg2(instr) := Sext16(h)]))
  }

  /** `ld_word`: reg2 = the word at the effective address. */
  function AfterLdWord(s: Regs, m: MemoryImage, instr: u16): Result<Regs>
    requires WellFormed(s)
  {
    var c :- Consume(s, m);
    var t := c.1;
    var w :- Read32(m, EffectiveAddress(t, instr, c.0));
    Ok(t.(gprs := t.gprs[Reg2(instr) := w]))
  }

  /**
   * A byte load faults with the fetch's fault, or else with the read's;
   * when both succeed, the PC has moved past the displacement, the PSW is
   * unchanged, and reg2 alone holds the byte read as an `i8`: its low byte
   * is the byte and its signed reading is in -128..127.
   */
  lemma LdByteEffect(s: Regs, m: MemoryImage, instr: u16)
    requires WellFormed(s)
    ensures Read16(m, s.pc).Err? ==> AfterLdByte(s, m, instr) == Err(Read16(m, s.pc).fault)
    ensures Read16(m, s.pc).Ok? ==>
      var a := EffectiveAddress(s, instr, Read16(m, s.pc).value);
      && (AfterLdByte(s, m, instr).Ok? <==> Read8(m, a).Ok?)
      && (Read8(m, a).Err? ==> AfterLdByte(s, m, instr) == Err(Read8(m, a).fault))
      && (Read8(m, a).Ok? ==>
        var b, t := Read8(m, a).value, AfterLdByte(s, m, instr).value;
        && t.pc == Wrap(s.pc + 2) && t.psw == s.psw
        && t.gprs == s.gprs[Reg2(instr) := t.gprs[Reg2(instr)]]
        && t.gprs[Reg2(instr)] % 0x100 == b
        && ToSigned(t.gprs[Reg2(instr)]) == (if b < 0x80 then b else b - 0x100))
  {
    if Read16(m, s.pc).Ok? {
      var hw := Read16(m, s.pc).value;
      assert Consume(s, m) == Ok((hw, s.(pc := Wrap(s.pc + 2))));
    }
  }

  /**
   * A halfword load faults with the fetch's fault, or else with the read's;
   * when both succeed, the PC has moved past the displacement, the PSW is
   * unchanged, and reg2 alone holds the halfword read as an `i16`.
   */
  lemma LdHalfwordEffect(s: Regs, m: MemoryImage, instr: u16)
    requires WellFormed(s)
    ensures Read16(m, s.pc).Err? ==> AfterLdHalfword(s, m, instr) == Err(Read16(m, s.pc).fault)
    ensures Read16(m, s.pc).Ok? ==>
      var a := EffectiveAddress(s, instr, Read16(m, s.pc).value);
      && (AfterLdHalfword(s, m, instr).Ok? <==> Read16(m, a).Ok?)
      && (Read16(m, a).Err? ==> AfterLdHalfword(s, m, instr) == Err(Read16(m, a).fault))
      && (Read16(m, a).Ok? ==>
        var h, t := Read16(m, a).value, AfterLdHalfword(s, m, instr).value;
        && t.pc == Wrap(s.pc + 2) && t.psw == s.psw
        && t.gprs == s.gprs[Reg2(instr) := t.gprs[Reg2(instr)]]
        && t.gprs[Reg2(instr)] % 0x1_0000 == h
        && ToSigned(t.gprs[Reg2(instr)]) == (if h < 0x8000 then h else h - 0x1_0000))
  {
    if Read16(m, s.pc).Ok? {
      var hw := Read16(m, s.pc).value;
      assert Consume(s, m) == Ok((hw, s.(pc := Wrap(s.pc + 2))));
    }
  }

  /**
   * A word load faults with the fetch's fault, or else with the read's;
   * when both succeed, the PC has moved past the displacement, the PSW is
   * unchanged, and reg2 alone holds the word read.
   */
  lemma LdWordEffect(s: Regs, m: MemoryImage, instr: u16)
    requires WellFormed(s)
    ensures Read16(m, s.pc).Err? ==> AfterLdWord(s, m, instr) == Err(Read16(m, s.pc).fault)
    ensures Read16(m, s.pc).Ok? ==>
      var a := EffectiveAddress(s, instr, Read16(m, s.pc).value);
      && (AfterLdWord(s, m, instr).Ok? <==> Read32(m, a).Ok?)
      && (Read32(m, a).Err? ==> AfterLdWord(s, m, instr) == Err(Read32(m, a).fault))
      && (Read32(m, a).Ok? ==>
        var t := AfterLdWord(s, m, instr).value;
        && t.pc == Wrap(s.pc + 2) && t.psw == s.psw
        && t.gprs == s.gprs[Reg2(instr) := Read32(m, a).value])
  {
    if Read16(m, s.pc).Ok? {
      var hw := Read16(m, s.pc).value;
      assert Consume(s, m) == Ok((hw, s.(pc := Wrap(s.pc + 2))));
    }
  }

  // ----- stores ------------------------------------------------------------------

  /** `st_byte`: the low byte of reg2 to the effective address. */
  function AfterStByte(s: Regs, m: MemoryImage, instr: u16): Result<(Regs, MemoryImage)>
    requires WellFormed(s)
  {
    var c :- Consume(s, m);
    var t := c.1;
    var m' :- AfterWrite8(m, EffectiveAddress(t, instr, c.0), Low8(t.gprs[Reg2(instr)]));
    Ok((t, m'))
  }

  /** `st_halfword`: the low halfword of reg2 to the effective address. */
  function AfterStHalfword(s: Regs, m: MemoryImage, instr: u16): Result<(Regs, MemoryImage)>
    requires WellFormed(s)
  {
    var c :- Consume(s, m);
    var t := c.1;
    var m' :- AfterWrite16(m, EffectiveAddress(t, instr, c.0), Low16(t.gprs[Reg2(instr)]));
    Ok((t, m'))
  }

  /** `st_word`: reg2 to the effective address. */
  function AfterStWord(s: Regs, m: MemoryImage, instr: u16): Result<(Regs, MemoryImage)>
    requires WellFormed(s)
  {
    var c :- Consume(s, m);
    var t := c.1;
    var m' :- AfterWrite32(m, EffectiveAddress(t, instr, c.0), t.gprs[Reg2(instr)]);
    Ok((t, m'))
  }

  /**
   * A byte store faults with the fetch's fault, or else with the write's;
   * when both succeed, no register but the PC changes (it moves past the
   * displacement) and the memory is the bus write of reg2's low byte.
   */
  lemma StByteEffect(s: Regs, m: MemoryImage, instr: u16)
    requires WellFormed(s)
    ensures Read16(m, s.pc).Err? ==> AfterStByte(s, m, instr) == Err(Read16(m, s.pc).fault)
    ensures Read16(m, s.pc).Ok? ==>
      var a := EffectiveAddress(s, instr, Read16(m, s.pc).value);
      var w := AfterWrite8(m, a, s.gprs[Reg2(instr)] % 0x100);
      AfterStByte(s, m, instr) == if w.Ok? then Ok((s.(pc := Wrap(s.pc + 2)), w.value)) else Err(w.fault)
  {
    if Read16(m, s.pc).Ok? {
      var hw := Read16(m, s.pc).value;
      var t := s.(pc := Wrap(s.pc + 2));
      assert Consume(s, m) == Ok((hw, t));
      assert EffectiveAddress(t, instr, hw) == EffectiveAddress(s, instr, hw);
    }
  }

  /**
   * A halfword store faults with the fetch's fault, or else with the
   * write's; when both succeed, no register but the PC changes and the
   * memory is the bus write of reg2's low halfword.
   */
  lemma StHalfwordEffect(s: Regs, m: MemoryImage, instr: u16)
    requires WellFormed(s)
    ensures Read16(m, s.pc).Err? ==> AfterStHalfword(s, m, instr) == Err(Read16(m, s.pc).fault)
    ensures Read16(m, s.pc).Ok? ==>
      var a := EffectiveAddress(s, instr, Read16(m, s.pc).value);
      var w := AfterWrite16(m, a, s.gprs[Reg2(instr)] % 0x1_0000);
      AfterStHalfword(s, m, instr) == if w.Ok? then Ok((s.(pc := Wrap(s.pc + 2)), w.value)) else Err(w.fault)
  {
    if Read16(m, s.pc).Ok? {
      var hw := Read16(m, s.pc).value;
      var t := s.(pc := Wrap(s.pc + 2));
      assert Consume(s, m) == Ok((hw, t));
      assert EffectiveAddress(t, instr, hw) == EffectiveAddress(s, instr, hw);
    }
  }

  /**
   * A word store faults with the fetch's fault, or else with the write's;
   * when both succeed, no register but the PC changes and the memory is the
   * bus write of reg2.
   */
  lemma StWordEffect(s: Regs, m: MemoryImage, instr: u16)
    requires WellFormed(s)
    ensures Read16(m, s.pc).Err? ==> AfterStWord(s, m, instr) == Err(Read16(m, s.pc).fault)
    ensures Read16(m, s.pc).Ok? ==>
      var a := EffectiveAddress(s, instr, Read16(m, s.pc).value);
      var w := AfterWrite32(m, a, s.gprs[Reg2(instr)]);
      AfterStWord(s, m, instr) == if w.Ok? then Ok((s.(pc := Wrap(s.pc + 2)), w.value)) else Err(w.fault)
  {
    if Read16(m, s.pc).Ok? {
      var hw := Read16(m, s.pc).value;
      var t := s.(pc := Wrap(s.pc + 2));
      assert Consume(s, m) == Ok((hw, t));
      assert EffectiveAddress(t, instr, hw) == EffectiveAddress(s, instr, hw);
    }
  }

  /**
   * Store then read back, in RAM: once the displacement is fetched, a byte
   * store to a RAM offset inside the array succeeds and the byte read there
   * afterwards is reg2's low byte; a word store to a 4-aligned RAM offset
   * whose last byte is inside succeeds and the word read back is reg2.
   */
  lemma StoreThenRead(s: Regs, m: MemoryImage, instr: u16)
    requires WellFormed(s) && Mem.Valid(m) && Read16(m, s.pc).Ok?
    ensures var a := EffectiveAddress(s, instr, Read16(m, s.pc).value);
      RegionOf(a) == 5 && a % 0x1_0000 < RAM_SIZE ==>
        && AfterStByte(s, m, instr).Ok?
        && Read8(AfterStByte(s, m, instr).value.1, a) == Ok(s.gprs[Reg2(instr)] % 0x100)
    ensures var a := EffectiveAddress(s, instr, Read16(m, s.pc).value);
      RegionOf(a) == 5 && a % 4 == 0 && a % 0x1_0000 + 3 < RAM_SIZE ==>
        && AfterStWord(s, m, instr).Ok?
        && Read32(AfterStWord(s, m, instr).value.1, a) == Ok(s.gprs[Reg2(instr)])
  {
    var a := EffectiveAddress(s, instr, Read16(m, s.pc).value);
    var reg2 := s.gprs[Reg2(instr)];
    StByteEffect(s, m, instr);
    StWordEffect(s, m, instr);
    if RegionOf(a) == 5 {
      RamRoundTrip(m, a, reg2 % 0x100, reg2);
    }
  }

  // ----- the handlers on the CPU and bus objects ----------------------------------

  method LdByte(cpu: Cpu, bus: Bus, instr: u16) returns (r: Outcome)
    requires cpu.Valid() && bus.Valid()
    modifies cpu, cpu.gprs
    ensures cpu.Valid()
    ensures AfterLdByte(old(cpu.State()), bus.Image(), instr) == if r.Pass? then Ok(cpu.State()) else Err(r.fault)
  {
    var hw := cpu.ConsumeHalfword(bus);
    if hw.Err? {
      return Fail(hw.fault);
    }
    ghost var t := cpu.State();
    var b := Read8(bus.Image(), AddSext16(cpu.gprs[Reg1(instr)], hw.value));
    if b.Err? {
      return Fail(b.fault);
    }
    var v := Sext8(b.value);
    cpu.gprs[Reg2(instr)] := v;
    assert cpu.State() == t.(gprs := t.gprs[Reg2(instr) := v]);
    r := Pass;
  }

  method LdHalfword(cpu: Cpu, bus: Bus, instr: u16) returns (r: Outcome)
    requires cpu.Valid() && bus.Valid()
    modifies cpu, cpu.gprs
    ensures cpu.Valid()
    ensures AfterLdHalfword(old(cpu.State()), bus.Image(), instr) == if r.Pass? then Ok(cpu.State()) else Err(r.fault)
  {
    var hw := cpu.ConsumeHalfword(bus);
    if hw.Err? {
      return Fail(hw.fault);
    }
    ghost var t := cpu.State();
    var h := Read16(bus.Image(), AddSext16(cpu.gprs[Reg1(instr)], hw.value));
    if h.Err? {
      return Fail(h.fault);
    }
    var v := Sext16(h.value);
    cpu.gprs[Reg2(instr)] := v;
    assert cpu.State() == t.(gprs := t.gprs[Reg2(instr) := v]);
    r := Pass;
  }

  method LdWord(cpu: Cpu, bus: Bus, instr: u16) returns (r: Outcome)
    requires cpu.Valid() && bus.Valid()
    modifies cpu, cpu.gprs
    ensures cpu.Valid()
    ensures AfterLdWord(old(cpu.State()), bus.Image(), instr) == if r.Pass? then Ok(cpu.State()) else Err(r.fault)
  {
    var hw := cpu.ConsumeHalfword(bus);
    if hw.Err? {
      return Fail(hw.fault);
    }
    ghost var t := cpu.State();
    var w := Read32(bus.Image(), AddSext16(cpu.gprs[Reg1(instr)], hw.value));
    if w.Err? {
      return Fail(w.fault);
    }
    var v := w.value;
    cpu.gprs[Reg2(instr)] := v;
    assert cpu.State() == t.(gprs := t.gprs[Reg2(instr) := v]);
    r := Pass;
  }

  method StByte(cpu: Cpu, bus: Bus, instr: u16) returns (r: Outcome)
    requires cpu.Valid() && bus.Valid()
    modifies cpu, bus.ram, bus.vip
    ensures cpu.Valid() && bus.Valid()
    ensures AfterStByte(old(cpu.State()), old(bus.Image()), instr) ==
      if r.Pass? then Ok((cpu.State(), bus.Image())) else Err(r.fault)
  {
    var hw := cpu.ConsumeHalfword(bus);
    if hw.Err? {
      return Fail(hw.fault);
    }
    r := bus.Write8(AddSext16(cpu.gprs[Reg1(instr)], hw.value), Low8(cpu.gprs[Reg2(instr)]));
  }

  method StHalfword(cpu: Cpu, bus: Bus, instr: u16) returns (r: Outcome)
    requires cpu.Valid() && bus.Valid()
    modifies cpu, bus.ram, bus.vip
    ensures cpu.Valid() && bus.Valid()
    ensures AfterStHalfword(old(cpu.State()), old(bus.Image()), instr) ==
      if r.Pass? then Ok((cpu.State(), bus.Image())) else Err(r.fault)
  {
    var hw := cpu.ConsumeHalfword(bus);
    if hw.Err? {
      return Fail(hw.fault);
    }
    r := bus.Write16(AddSext16(cpu.gprs[Reg1(instr)], hw.value), Low16(cpu.gprs[Reg2(instr)]));
  }

  method StWord(cpu: Cpu, bus: Bus, instr: u16) returns (r: Outcome)
    requires cpu.Valid() && bus.Valid()
    modifies cpu, bus.ram, bus.vip, bus.vsu
    ensures cpu.Valid() && bus.Valid()
    ensures AfterStWord(old(cpu.State()), old(bus.Image()), instr) ==
      if r.Pass? then Ok((cpu.State(), bus.Image())) else Err(r.fault)
  {
    var hw := cpu.ConsumeHalfword(bus);
    if hw.Err? {
      return Fail(hw.fault);
    }
    r := bus.Write32(AddSext16(cpu.gprs[Reg1(instr)], hw.value), cpu.gprs[Reg2(instr)]);
  }
}
