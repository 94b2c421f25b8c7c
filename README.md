# redbull-vb core: the V810 CPU and the Virtual Boy memory bus

This project models the core of a Virtual Boy emulator in Dafny. It covers:

- the memory behind the bus: the cartridge ROM with its mirroring mask, work RAM, and the video and sound stubs
- the bus, which decodes 27-bit addresses into hardware regions
- the NEC V810 register file and its program status word (PSW)
- the reset state and the `step` entry point
- the table of six-bit major opcodes
- the instruction handlers the core implements: ADD imm5, CMP imm5/reg, Bcond, JMP, JR, MOVHI, MOVEA, MOV imm5/reg, LDSR, the byte/halfword/word loads and stores, and SEI

How the model is organised:

- Reads from the bus are pure functions of a `MemoryImage` value.
- Writes are specified by `AfterWrite8/16/32` functions. The `Bus` class carries them out in place on its RAM and stub arrays.
- The CPU is a `Cpu` class. It holds an array of 32 registers, the PC and the raw PSW word.
- Each handler is a method that updates the `Cpu` (and, for stores, the `Bus`). It is proved equal to a function over the value state `Regs`. Lemmas then say what each function does to the registers, the PC, the flags and memory.

Every `panic!` in the source becomes a `Fault` value. So do the out-of-range slice indexes, which panic in Rust. A run that produces a fault stops there.

Behaviour that the model keeps as the source has it:

- **Halfword reads have no RAM case.** `read16` knows only the video stub and ROM. So an instruction fetch from RAM faults, and so does a halfword load (LD.H) from RAM (`MemoryBus.RamReads`).
- **RAM is one byte short.** RAM is allocated with 0xFFFF bytes, but the bus selects it with the mask 0xFFFF. Offset 0xFFFF therefore passes the mask and then indexes past the end of the array. Every access that touches that offset faults (`MemoryBus.RamLastByteFaults`, `Mem.RamMaskOutrunsRam`).
- **Byte writes have no ROM case**, so they fault there, and word writes to the miscellaneous-hardware region are accepted and dropped.
- **`step` never executes anything.** It fetches the halfword at the PC and always stops with an "unimplemented opcode" fault. That fault carries the PC reduced to 27 bits.
- **Aligned reads, unaligned writes.** Halfword and word reads are aligned down to 2 and 4. Writes are not aligned, and each byte index of a multi-byte write is wrapped by the region mask on its own.

## Model

| member | source | states |
|---|---|---|
| Mem.NewMemory | src/mem.rs:9-19 | a ROM is accepted exactly when its length is a power of two (otherwise a `RomSizeNotPowerOfTwo` fault); the ROM is kept verbatim, the mask is length - 1, RAM and both stubs start zeroed, and the image satisfies the memory invariant |
| Mem.PowerOfTwoIff | src/mem.rs:11 | the `n != 0 && n & (n - 1) == 0` test holds exactly when n is 2^k for some k |
| Mem.RomMaskIsModulo | src/mem.rs:12 | in a valid image, `i & rom_mask` is i modulo the ROM length, hence always a ROM index |
| Mem.RamMaskOutrunsRam | src/mem.rs:16 | the RAM offset 0xFFFF passes the 0xFFFF mask but is not an index of the 0xFFFF-byte array |
| MemoryBus.Mask27 | src/bus.rs:30 | `addr & 0x07FF_FFFF` is the address modulo 2^27 |
| MemoryBus.Mask27Half | src/bus.rs:46 | `addr & 0x07FF_FFFE` is the address modulo 2^27 aligned down to 2 |
| MemoryBus.Mask27Word | src/bus.rs:67 | `addr & 0x07FF_FFFC` is the address modulo 2^27 aligned down to 4 |
| MemoryBus.Region | src/bus.rs:32 | `a >> 24 & 7` is bits 24..26 of the address |
| MemoryBus.MirrorMasks | src/bus.rs:34 | the fixed RAM, VIP and VSU masks reduce an index modulo 0x1_0000, 0x8_0000 and 0x800 |
| MemoryBus.RegionsAgree | src/bus.rs:28-67 | masking and alignment never move an address into another region |
| MemoryBus.Read8 | src/bus.rs:28-42 | a byte read faults as unmapped exactly outside RAM and ROM, reporting the 27-bit address |
| MemoryBus.Read16 | src/bus.rs:44-63 | a halfword read faults as unmapped exactly outside the VIP stub and ROM (RAM included), reporting the aligned 27-bit address |
| MemoryBus.Read32 | src/bus.rs:65-105 | a word read faults as unmapped exactly outside the VIP stub, RAM and ROM, reporting the aligned 27-bit address |
| MemoryBus.AfterWrite8 | src/bus.rs:107-119 | a byte write faults as unmapped exactly outside the VIP stub and RAM; a successful one keeps the image valid, changes only the array of its region, and never ROM or its mask |
| MemoryBus.AfterWrite16 | src/bus.rs:121-139 | a halfword write faults as unmapped exactly outside the VIP stub and RAM; a successful one keeps the image valid and changes only the array of its region |
| MemoryBus.AfterWrite32 | src/bus.rs:141-176 | a word write faults as unmapped exactly outside the VIP and VSU stubs, miscellaneous hardware and RAM; miscellaneous hardware leaves the image as it was; a successful one keeps the image valid and changes only its region's array |
| MemoryBus.MasksIgnoreHighBits | src/bus.rs:30 | the three address masks ignore bits 27..31 |
| MemoryBus.AddressMirroring | src/bus.rs:14 | `addr` and `addr + k * 0x0800_0000` give the same result for every read and write width |
| MemoryBus.RamReads | src/bus.rs:28-105 | in RAM a byte read is the byte at the address modulo 0x1_0000, a halfword read always faults, and a word read is the little-endian word at that offset aligned down to 4; it succeeds exactly below offset 0xFFFC |
| MemoryBus.VipRead16 | src/bus.rs:50-54 | halfword reads of the video stub read the little-endian pair at the address modulo 0x8_0000 aligned down to 2, and never fault |
| MemoryBus.VipRead32 | src/bus.rs:71-81 | word reads of the video stub read the little-endian word at the address modulo 0x8_0000 aligned down to 4, and never fault |
| MemoryBus.RomRead8 | src/bus.rs:35-39 | a ROM byte read is the ROM byte at the address modulo the ROM length |
| MemoryBus.RomRead16 | src/bus.rs:56-60 | a ROM halfword read is the little-endian pair at the address modulo the ROM length aligned down to 2, always inside the ROM |
| MemoryBus.RomRead32 | src/bus.rs:93-102 | a ROM word read is the little-endian word at the address modulo the ROM length aligned down to 4, always inside the ROM |
| MemoryBus.RomWindow | src/mem.rs:11 | a power-of-two ROM of 4 bytes to 2^27 bytes is a multiple of 4 that divides the 27-bit space |
| MemoryBus.RomMirroring | src/bus.rs:37 | ROM addresses that differ by a multiple of the ROM length read the same byte, halfword and word |
| MemoryBus.RamWrite8 | src/bus.rs:107-119 | a RAM byte write stores the byte at the address modulo 0x1_0000, and faults at offset 0xFFFF |
| MemoryBus.RamWrite16 | src/bus.rs:121-139 | a RAM halfword write stores the low byte and then the high byte at consecutive offsets, and faults when either byte would land on offset 0xFFFF |
| MemoryBus.RamWrite32 | src/bus.rs:141-176 | a RAM word write stores its four bytes little-endian at consecutive offsets, and faults when any of them would land on offset 0xFFFF |
| MemoryBus.VipWrite8 | src/bus.rs:107-119 | a byte write to the video stub stores the byte at the address modulo 0x8_0000, and never faults |
| MemoryBus.VipWrite16 | src/bus.rs:121-139 | a halfword write to the video stub stores byte k at (address + k) modulo 0x8_0000, and never faults |
| MemoryBus.VipWrite32 | src/bus.rs:141-176 | a word write to the video stub stores byte k at (address + k) modulo 0x8_0000, and never faults |
| MemoryBus.VsuWrite32 | src/bus.rs:141-176 | a word write to the sound stub stores byte k at (address + k) modulo 0x800, and never faults |
| MemoryBus.RamRoundTrip | src/bus.rs:28-176 | a byte written inside RAM reads back unchanged, and so does a word written at a 4-aligned offset whose last byte is inside RAM |
| MemoryBus.VipRoundTrip16 | src/bus.rs:44-139 | a halfword written at an even video-stub address reads back unchanged |
| MemoryBus.VipRoundTrip32 | src/bus.rs:65-176 | a word written at a 4-aligned video-stub address reads back unchanged |
| MemoryBus.RamLastByteFaults | src/bus.rs:34 | at RAM offset 0xFFFF, byte reads and writes fault with an index out of range, and so do halfword and word writes and word reads |
| MemoryBus.Bus.constructor | src/bus.rs:22-26 | the new bus holds exactly the given memory, in fresh arrays, and is valid |
| MemoryBus.Bus.Write8 | src/bus.rs:107-119 | the bus after the write is the image AfterWrite8 gives, or the method reports that function's fault; validity is kept |
| MemoryBus.Bus.Write16 | src/bus.rs:121-139 | the bus after the write is the image AfterWrite16 gives, or the method reports that function's fault; validity is kept |
| MemoryBus.Bus.Write32 | src/bus.rs:141-176 | the bus after the write is the image AfterWrite32 gives, or the method reports that function's fault; validity is kept |
| MemoryBus.StoreByte | src/bus.rs:113-116 | one checked byte store: the array changes at that index only, or an index-out-of-range fault leaves it unchanged |
| MemoryBus.StoreHalfword | src/bus.rs:127-134 | the two byte stores of a halfword write, each index masked on its own |
| MemoryBus.StoreWord | src/bus.rs:149-171 | the four byte stores of a word write, each index masked on its own |
| Word.Le16RoundTrip | src/bus.rs:121-139 | splitting a halfword into its low and high bytes and reading them back little-endian gives the halfword |
| Word.Le32RoundTrip | src/bus.rs:141-176 | splitting a word into its four bytes and reading them back little-endian gives the word |
| Psw.SetFlag | src/cpu.rs:5-32 | setting a one-bit PSW field gives it the new value and leaves every other bit as it was |
| Psw.SetFlagOfFlag | src/cpu.rs:5-32 | writing a flag back with its current value leaves the PSW unchanged |
| Psw.SetFlagTwice | src/cpu.rs:5-32 | setting a flag twice to one value is setting it once |
| Psw.SetIntLevel | src/cpu.rs:11 | the interrupt-level setter stores the value truncated to 4 bits in bits 16..19 and leaves every other bit |
| Psw.SetSignAndZero | src/cpu/instrs/alu.rs:16 | the sign flag becomes bit 31 of the result, the zero flag whether the result is 0, and no other bit changes |
| Psw.SignIsTopBit | src/cpu.rs:30 | bit 31 of a word is set exactly when the word is at least 2^31, and exactly when it is negative as an i32 |
| Psw.CondNegation | src/cpu/instrs/branches.rs:12 | condition code c + 8 holds exactly when code c does not |
| Psw.CondDependsOnlyOnArithmeticFlags | src/cpu/instrs/branches.rs:12 | a branch condition reads only the zero, sign, overflow and carry flags |
| Psw.ResetFlags | src/cpu.rs:46 | the reset PSW 0x8000 has only NMI-pending set: interrupts enabled, interrupt level 0, all arithmetic flags clear |
| Processor.ResetState | src/cpu.rs:42-48 | after reset every register is 0, the PC is 0xFFFF_FFF0, only NMI-pending is set in the PSW, and the interrupt level is 0 |
| Processor.StepFaultAddress | src/cpu.rs:50-54 | `step` stops with the fetch's own fault, or with the fetched opcode and the PC reduced modulo 2^27 |
| Processor.StepAfterReset | src/cpu.rs:45-52 | from the reset PC the first fetch reads the ROM halfword at 0x7FF_FFF0 modulo the ROM length, and `step` reports it at address 0x7FF_FFF0 |
| Processor.Cpu.constructor | src/cpu.rs:42-48 | the new CPU is in the reset state |
| Processor.Cpu.ConsumeHalfword | src/cpu/instrs/loads_stores.rs:16 | fetches the halfword at the PC and advances the PC by 2, wrapping; a failed fetch leaves the PC; the PSW never changes |
| Processor.Cpu.Step | src/cpu.rs:50-54 | every step faults, with the fetched opcode and the PC modulo 2^27 when the fetch succeeds |
| Opcodes.MajorOpcode | src/cpu/instrs.rs:8-28 | `instr >> 10` is below 64 and selects the 1024-halfword block the instruction lies in |
| Opcodes.Decode | src/cpu/instrs.rs:8-28 | an opcode decodes to `Bcond` exactly when it lies in 0x20..0x27, to another named kind only from that kind's own constant, and to `Unlisted` (carrying the opcode) exactly when it is neither in that range nor one of the listed constants |
| Opcodes.DecodeOpcodeOf | src/cpu/instrs.rs:8-28 | every named constant fits in six bits and decodes back to its own kind |
| Opcodes.TableWellFormed | src/cpu/instrs.rs:8-28 | the non-branch constants are pairwise distinct, fit in six bits and lie outside the Bcond range, which itself fits in six bits |
| Opcodes.BcondRange | src/cpu/instrs.rs:23-24 | an opcode is in the Bcond range exactly when its top three bits are 0b100, i.e. `instr >> 13 == 4` |
| Operands.Reg1 | src/cpu/instrs/reg_transfer.rs:10 | the reg1 field is a register number below 32 |
| Operands.Reg2 | src/cpu/instrs/reg_transfer.rs:11 | the reg2 field is a register number below 32 |
| Operands.RegisterMasks | src/cpu/instrs/alu.rs:10 | `instr & 0x1F` and `(instr >> 5) & 0x1F` are the reg1 and reg2 fields |
| Operands.Imm5 | src/cpu/instrs/alu.rs:12 | the 5-bit immediate read as i32 lies in -16..15 and is bits 0..4 sign-extended from bit 4 |
| Operands.Sext8 | src/cpu/instrs/loads_stores.rs:19 | a byte sign-extended to 32 bits lies in -128..127 as i32, keeps the byte as its low 8 bits, and is negative exactly when bit 7 is set |
| Operands.Sext16 | src/cpu/instrs/reg_transfer.rs:24 | a halfword sign-extended to 32 bits lies in -32768..32767 as i32 and keeps the halfword as its low 16 bits |
| Operands.AddSext16 | src/cpu/instrs/reg_transfer.rs:24-26 | the base plus the sign-extended halfword is the base moved by the signed displacement, modulo 2^32 |
| Alu.AddOverflow | src/cpu/instrs/alu.rs:14 | the i32 overflowing add is the unsigned sum modulo 2^32, and it overflows exactly when both operands have one sign and the result the other |
| Alu.SubOverflow | src/cpu/instrs/alu.rs:32 | the i32 overflowing subtract is the difference modulo 2^32, and it overflows exactly when the operands differ in sign and the result has the subtrahend's sign |
| Alu.ArithFlagsEffect | src/cpu/instrs/alu.rs:16-18 | the flag update sets sign, zero, carry and overflow from one result and changes no other PSW bit |
| Alu.AddCarry | src/cpu/instrs/alu.rs:14-17 | the sum wraps below the first operand exactly when the unsigned add carries out of bit 31 |
| Alu.AddFlags | src/cpu/instrs/alu.rs:14-18 | after an add, carry is the unsigned carry, overflow the signed sum leaving the i32 range, zero and sign describe the wrapped sum, and the upper PSW bits stay |
| Alu.AddiShortEffect | src/cpu/instrs/alu.rs:9-21 | ADD imm5 puts reg2 plus the signed immediate modulo 2^32 into reg2, changes no other register and not the PC, and sets the flags AddFlags describes |
| Alu.CompareEffect | src/cpu/instrs/alu.rs:27-53 | a compare of a with b: carry is the unsigned borrow `b > a`, overflow the signed difference leaving the i32 range, zero is `a == b`, sign is the wrapped difference's sign, and the upper PSW bits stay |
| Alu.CompareConditions | src/cpu/instrs/alu.rs:27-53 | after comparing a with b, condition "e" holds iff a == b, "c" iff a < b unsigned, "nh" iff a <= b unsigned, "lt" iff a < b signed and "le" iff a <= b signed |
| Alu.AddiShort | src/cpu/instrs/alu.rs:9-21 | the handler leaves the CPU in the state AfterAddiShort describes |
| Alu.CmpImm | src/cpu/instrs/alu.rs:27-37 | the handler changes only the flags, to those of reg2 compared with the sign-extended immediate |
| Alu.CmpReg | src/cpu/instrs/alu.rs:43-53 | the handler changes only the flags, to those of reg2 compared with reg1 |
| Branches.CondCode | src/cpu/instrs/branches.rs:10 | the condition code is below 16 |
| Branches.CondCodeMask | src/cpu/instrs/branches.rs:10 | `(instr >> 9) & 0xF` is the condition code |
| Branches.Disp9 | src/cpu/instrs/branches.rs:13-14 | the displacement read as i32 is bits 0..8 sign-extended from bit 8, in -256..255 |
| Branches.ClearBit0 | src/cpu/instrs/branches.rs:26 | `x & !1` is x with bit 0 cleared, an even number |
| Branches.BcondEffect | src/cpu/instrs/branches.rs:9-18 | a taken branch lands at the signed displacement from the branch's first byte (PC - 2), wrapping; an untaken one changes nothing; registers and PSW never change |
| Branches.JmpEffect | src/cpu/instrs/branches.rs:24-27 | JMP sets the PC to reg1 with bit 0 cleared (even, and within 1 of reg1) and changes nothing else |
| Branches.JrField | src/cpu/instrs/branches.rs:35-36 | the 26-bit field is the low 10 bits of the instruction above the fetched halfword |
| Branches.Disp26 | src/cpu/instrs/branches.rs:38 | the displacement read as i32 is the 26-bit field sign-extended from bit 25 |
| Branches.JrEffect | src/cpu/instrs/branches.rs:34-41 | JR faults exactly when its second halfword cannot be fetched; otherwise it lands, bit 0 cleared, at the signed displacement from its first byte, and registers and PSW stay |
| Branches.JrTarget | src/cpu/instrs/branches.rs:39 | advancing by 2, stepping back 4 and adding d, all wrapping, is adding d to PC - 2 |
| Branches.Bcond | src/cpu/instrs/branches.rs:9-18 | the handler leaves the CPU in the state AfterBcond describes |
| Branches.Jmp | src/cpu/instrs/branches.rs:24-27 | the handler leaves the CPU in the state AfterJmp describes |
| Branches.Jr | src/cpu/instrs/branches.rs:34-41 | the handler leaves the CPU in the state AfterJr describes, or reports that function's fault |
| RegTransfer.HighAddHalves | src/cpu/instrs/reg_transfer.rs:12-14 | MOVHI's sum keeps the low half of reg1 and adds the immediate to its high half modulo 2^16 |
| RegTransfer.MovhiEffect | src/cpu/instrs/reg_transfer.rs:9-15 | MOVHI faults exactly when its immediate cannot be fetched; otherwise PC + 2, reg2 = reg1 + (imm << 16) wrapping, no other register and not the PSW changes |
| RegTransfer.MoveaEffect | src/cpu/instrs/reg_transfer.rs:21-27 | MOVEA faults exactly when its immediate cannot be fetched; otherwise PC + 2, reg2 = reg1 plus the signed immediate modulo 2^32, nothing else changes |
| RegTransfer.MovEffect | src/cpu/instrs/reg_transfer.rs:29-41 | MOV writes reg2 only (the sign-extended imm5, in -16..15, or reg1's value) and leaves PC and PSW |
| RegTransfer.LdsrEffect | src/cpu/instrs/reg_transfer.rs:43-53 | LDSR succeeds exactly for system registers 5 and 24; into 5 it replaces the PSW with reg2, so zero is bit 0 of reg2; into 24 nothing changes; otherwise an unimplemented-system-register fault |
| RegTransfer.Movhi | src/cpu/instrs/reg_transfer.rs:9-15 | the handler leaves the CPU in the state AfterMovhi describes, or reports its fault |
| RegTransfer.Movea | src/cpu/instrs/reg_transfer.rs:21-27 | the handler leaves the CPU in the state AfterMovea describes, or reports its fault |
| RegTransfer.MovImm | src/cpu/instrs/reg_transfer.rs:29-34 | the handler leaves the CPU in the state AfterMovImm describes |
| RegTransfer.MovReg | src/cpu/instrs/reg_transfer.rs:36-41 | the handler leaves the CPU in the state AfterMovReg describes |
| RegTransfer.Ldsr | src/cpu/instrs/reg_transfer.rs:43-53 | the handler leaves the CPU in the state AfterLdsr describes, or reports its fault |
| LoadsStores.EffectiveAddress | src/cpu/instrs/loads_stores.rs:16-17 | the effective address is reg1 moved by the signed 16-bit offset, modulo 2^32 |
| LoadsStores.LdByteEffect | src/cpu/instrs/loads_stores.rs:12-20 | LD.B faults with the fetch's fault or the read's fault; otherwise PC + 2, the PSW stays, only reg2 changes, to the byte read sign-extended |
| LoadsStores.LdHalfwordEffect | src/cpu/instrs/loads_stores.rs:22-30 | LD.H faults with the fetch's fault or the read's fault; otherwise PC + 2, the PSW stays, only reg2 changes, to the halfword read sign-extended |
| LoadsStores.LdWordEffect | src/cpu/instrs/loads_stores.rs:32-40 | LD.W faults with the fetch's fault or the read's fault; otherwise PC + 2, the PSW stays, and reg2 becomes the word read |
| LoadsStores.StByteEffect | src/cpu/instrs/loads_stores.rs:42-50 | ST.B faults with the fetch's fault or the write's fault; otherwise PC + 2, no register changes, and memory is the byte write of reg2's low byte at the effective address |
| LoadsStores.StHalfwordEffect | src/cpu/instrs/loads_stores.rs:52-60 | ST.H faults with the fetch's fault or the write's fault; otherwise PC + 2, no register changes, and memory is the halfword write of reg2's low half at the effective address |
| LoadsStores.StWordEffect | src/cpu/instrs/loads_stores.rs:62-70 | ST.W faults with the fetch's fault or the write's fault; otherwise PC + 2, no register changes, and memory is the word write of reg2 at the effective address |
| LoadsStores.StoreThenRead | src/cpu/instrs/loads_stores.rs:12-70 | a store into RAM followed by a read of the same address gives back what was stored: reg2's low byte for ST.B, reg2 for a 4-aligned ST.W |
| LoadsStores.LdByte | src/cpu/instrs/loads_stores.rs:12-20 | the handler leaves the CPU in the state AfterLdByte describes, or reports its fault |
| LoadsStores.LdHalfword | src/cpu/instrs/loads_stores.rs:22-30 | the handler leaves the CPU in the state AfterLdHalfword describes, or reports its fault |
| LoadsStores.LdWord | src/cpu/instrs/loads_stores.rs:32-40 | the handler leaves the CPU in the state AfterLdWord describes, or reports its fault |
| LoadsStores.StByte | src/cpu/instrs/loads_stores.rs:42-50 | the handler leaves CPU and bus in the states AfterStByte describes, or reports its fault |
| LoadsStores.StHalfword | src/cpu/instrs/loads_stores.rs:52-60 | the handler leaves CPU and bus in the states AfterStHalfword describes, or reports its fault |
| LoadsStores.StWord | src/cpu/instrs/loads_stores.rs:62-70 | the handler leaves CPU and bus in the states AfterStWord describes, or reports its fault |
| MiscInstrs.SeiEffect | src/cpu/instrs/misc_instrs.rs:5-7 | SEI sets the interrupt-disable flag and no other PSW bit, leaves the registers and the PC, and a second SEI changes nothing |
| MiscInstrs.Sei | src/cpu/instrs/misc_instrs.rs:5-7 | the handler leaves the CPU in the state AfterSei describes |

## Left out

- File input: `Memory::new` and `Bus::new` take the ROM's bytes instead of a file name. A ROM file that cannot be read is not modelled.
- The `println!` lines of LDSR and of the bus's stub accesses are output only and are left out.
- The disassemblers, the older `src/CPUInstructions/` handlers, `virtualBoy.rs`, `vip.rs`, `vb.rs` and `main.rs` are not part of this model.
- The cycle counts in the handlers' comments are not modelled.
- The floating-point PSW flags, the address-trap flag and the exception-pending flag are modelled only as bit positions. No modelled instruction sets them, apart from a whole-PSW LDSR.
- ADD reg, ADDI, SUB, MUL, MULU, DIV, DIVU and JAL are listed in the opcode table, but the core has no handlers for them. They are decoded to their kinds and not executed.
- The load and store opcodes, LDSR and SEI have no constants in the opcode table, so `Opcodes.Decode` has no kinds for them.
- There is no dispatch from `step` to the handlers, because the source has none. Writes to r0 are not discarded, because no handler in the source does that.
- The state after a fault is not specified. The source panics and never continues. A handler method's contract describes only the state after success.
- The `bus` parameter of handlers that never touch memory is left out.
- The source's `Memory` has no video or sound arrays, though the bus indexes them. The model gives them the sizes their masks address: 0x8_0000 bytes and 0x800 bytes.
- The handlers use a `Cpu` with a `regs` field, which is newer than the `CPU` in `src/cpu.rs`. The helpers `consume_halfword`, `set_sign_and_zero`, `satisfies_cond` and the `set_irqs_disabled` setter are defined outside the files this model covers. `src/cpu.rs` still holds an older `CPU` without them. The model defines them itself:
  - `consume_halfword` as the fetch-and-advance the disassembler performs.
  - The condition table as the V810's, in the mnemonic order of `src/CPUInstructions/disassembler.rs:5`.
- The `pc += 2` after the panic in `step` can never run and is not modelled.
- MemoryBus.RomRead8, RomRead16, RomRead32, RomMirroring and Processor.StepAfterReset assume a ROM of 4 to 2^27 bytes. Smaller and larger ROMs are accepted by `Memory::new` but these lemmas say nothing about them.
- LoadsStores.StoreThenRead covers byte and 4-aligned word stores only. A halfword cannot be read back from RAM, because `read16` has no RAM case.
