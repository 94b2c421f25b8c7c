/** The handler of src/cpu/instrs/misc_instrs.rs: SEI, which masks interrupts. */
module MiscInstrs {
  import opened Word
  import opened Psw
  import opened Processor

  /** `sei`: set the interrupt-disable flag of the PSW. */
  function AfterSei(s: Regs): Regs
  {
    s.(psw := SetFlag(s.psw, IRQ_DISABLE, true))
  }

  /**
   * SEI sets the interrupt-disable flag and no other PSW bit, leaves the
   * registers and the PC, and a second SEI changes nothing more.
   */
  lemma SeiEffect(s: Regs)
    ensures Flag(AfterSei(s).psw, IRQ_DISABLE)
    ensures forall j: nat :: j != IRQ_DISABLE ==> Bit(AfterSei(s).psw, j) == Bit(s.psw, j)
    ensures AfterSei(s).gprs == s.gprs && AfterSei(s).pc == s.pc
    ensures AfterSei(AfterSei(s)) == AfterSei(s)
  {
    SetFlagTwice(s.psw, IRQ_DISABLE, true);
  }

  method Sei(cpu: Cpu)
    requires cpu.Valid()
    modifies cpu
    ensures cpu.Valid()
    ensures cpu.State() == AfterSei(old(cpu.State()))
  {
    cpu.psw := SetFlag(cpu.psw, IRQ_DISABLE, true);
  }
}
