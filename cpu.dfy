/**
 * The CPU of src/cpu.rs: 32 general-purpose registers, the program counter
 * and the PSW.  `Regs` is the register state as a value, which the
 * instruction modules specify their handlers against; `Cpu` is the object
 * the handlers update in place.
 */
module Processor {
  import opened Word
  import opened Outcomes
  import opened Mem
  import opened MemoryBus
  import opened Psw

  /** The PC after reset. */
  const RESET_PC: u32 := 0xFFFF_FFF0

  datatype Regs = Regs(gprs: seq<u32>, pc: u32, psw: u32)

  /** `gprs` is a `[u32; 32]`. */
  predicate WellFormed(s: Regs)
  {
    |s.gprs| == 32
  }

  /** The state `CPU::new` builds. */
  function Reset(): Regs
  {
    Regs(seq(32, _ => 0), RESET_PC, RESET_PSW)
  }

  /**
   * The reset state: every register is 0, the PC is the reset vector, the
   * PSW has the NMI-pending flag set, the arithmetic flags and the IRQ-disable
   * flag clear, and interrupt level 0.
   */
  lemma ResetState()
    ensures WellFormed(Reset())
    ensures forall i :: 0 <= i < 32 ==> Reset().gprs[i] == 0
    ensures Reset().pc == 0xFFFF_FFF0
    ensures Flag(Reset().psw, NMI_PENDING)
    ensures !Flag(Reset().psw, ZERO) && !Flag(Reset().psw, SIGN)
    ensures !Flag(Reset().psw, OVERFLOW) && !Flag(Reset().psw, CARRY)
    ensures !Flag(Reset().psw, IRQ_DISABLE) && IntLevel(Reset().psw) == 0
  {
    ResetFlags();
  }

  /**
   * `consume_halfword`: the halfword at the PC, and the state with the PC
   * moved past it (wrapping).  A faulting fetch is the bus's fault.
   */
  function Consume(s: Regs, m: MemoryImage): (r: Result<(u16, Regs)>)
  {
    var hw :- Read16(m, s.pc);
    Ok((hw, s.(pc := Wrap(s.pc + 2))))
  }

  /** The fault `step` stops with: the bus's fault, or the fetched opcode and `pc & 0x7FFFFFF`. */
  function StepFault(s: Regs, m: MemoryImage): Fault
  {
    match Read16(m, s.pc)
    case Err(f) => f
    case Ok(op) => UnimplementedOpcode(op, And(s.pc, 0x7FF_FFFF))
  }

  /** The address `step` reports is the PC reduced to the 27-bit address space. */
  lemma StepFaultAddress(s: Regs, m: MemoryImage)
    ensures Read16(m, s.pc).Ok? ==>
      StepFault(s, m) == UnimplementedOpcode(Read16(m, s.pc).value, s.pc % 0x800_0000)
    ensures Read16(m, s.pc).Err? ==> StepFault(s, m) == Read16(m, s.pc).fault
  {
    assert Pow2(27) == 0x800_0000 by { Pow2Values(); }
    AndLowMask(s.pc, 27);
  }

  /**
   * From the reset PC the first fetch comes from the top of the ROM region,
   * so `step` faults with the ROM halfword found there (mirrored through the
   * ROM mask) at address 0x7FFFFF0.
   */
  lemma StepAfterReset(s: Regs, m: MemoryImage)
    requires Valid(m) && 4 <= |m.rom| <= ADDR_SPACE
    requires s.pc == RESET_PC
    ensures var i := 0x7FF_FFF0 % |m.rom|;
      i + 1 < |m.rom| &&
      StepFault(s, m) == UnimplementedOpcode(FromLe16(m.rom[i], m.rom[i + 1]), 0x7FF_FFF0)
  {
    ResetFetch(m, s.pc);
    StepFaultAddress(s, m);
  }

  lemma ResetFetch(m: MemoryImage, pc: u32)
    requires Valid(m) && 4 <= |m.rom| <= ADDR_SPACE && pc == RESET_PC
    ensures var i := 0x7FF_FFF0 % |m.rom|;
      i + 1 < |m.rom| && Read16(m, pc) == Ok(FromLe16(m.rom[i], m.rom[i + 1]))
  {
    assert RegionOf(pc) == 7;
    RomRead16(m, pc);
    RomResidue(m, pc);
    var i := 0x7FF_FFF0 % |m.rom|;
    assert pc % |m.rom| - pc % 2 == i;
    assert i + 1 < |m.rom|;
  }

  lemma RomResidue(m: MemoryImage, pc: u32)
    requires Valid(m) && 4 <= |m.rom| <= ADDR_SPACE && pc == RESET_PC
    ensures pc % 2 == 0 && pc % |m.rom| == 0x7FF_FFF0 % |m.rom|
  {
    RomWindow(m);
    var n := |m.rom|;
    var q := ADDR_SPACE / n;
    assert pc == 0x7FF_FFF0 + 31 * ADDR_SPACE;
    assert 31 * ADDR_SPACE == (31 * q) * n;
    ModAddMultiple(0x7FF_FFF0, 31 * q, n);
  }

  class Cpu {
    const gprs: array<u32>
    var pc: u32
    var psw: u32

    /** The registers as a value. */
    function State(): Regs
      reads this, gprs
    {
      Regs(gprs[..], pc, psw)
    }

    ghost predicate Valid()
      reads this
    {
      gprs.Length == 32
    }

    /** `CPU::new`. */
    constructor ()
      ensures Valid() && fresh(gprs)
      ensures State() == Reset()
    {
      gprs := new u32[32](_ => 0);
      pc := RESET_PC;
      psw := RESET_PSW;
    }

    /** `consume_halfword`: fetch the halfword at the PC and advance the PC past it. */
    method ConsumeHalfword(bus: Bus) returns (r: Result<u16>)
      requires bus.Valid()
      modifies this
      ensures Consume(old(State()), bus.Image()) ==
        if r.Ok? then Ok((r.value, State())) else Err(r.fault)
      ensures r.Err? ==> pc == old(pc)
      ensures psw == old(psw)
    {
      r := Read16(bus.Image(), pc);
      if r.Ok? {
        pc := Wrap(pc + 2);
      }
    }

    /**
     * `step`: fetch the halfword at the PC, then stop; no opcode is
     * dispatched, so every step faults, and nothing changes.
     */
    method Step(bus: Bus) returns (r: Outcome)
      requires bus.Valid()
      ensures r.Fail?
      ensures r == Fail(StepFault(State(), bus.Image()))
      ensures Read16(bus.Image(), pc).Ok? ==>
        r.fault == UnimplementedOpcode(Read16(bus.Image(), pc).value, pc % 0x800_0000)
    {
      var opcode := Read16(bus.Image(), pc);
      if opcode.Err? {
        return Fail(opcode.fault);
      }
      StepFaultAddress(State(), bus.Image());
      r := Fail(UnimplementedOpcode(opcode.value, And(pc, 0x7FF_FFFF)));
    }
  }
}
