/**
 * The opcode table of src/cpu/instrs.rs: the six-bit major opcodes, read
 * from the top six bits of an instruction's first halfword (`instr >> 10`).
 * The branch family Bcond is the range 0b100000..=0b100111 (0x20..=0x27);
 * its low three bits belong to the condition code.
 */
module Opcodes {
  import opened Word

  const MOV_IMM: nat := 0x10      // 0b010000
  const MOV_REG: nat := 0x00      // 0b000000
  const MOVEA: nat := 0x28        // 0b101000
  const MOVHI: nat := 0x2F        // 0b101111
  const ADD_IMM: nat := 0x11      // 0b010001
  const ADD_REG: nat := 0x01      // 0b000001
  const ADDI: nat := 0x29         // 0b101001
  const CMP_IMM: nat := 0x13      // 0b010011
  const CMP_REG: nat := 0x03      // 0b000011
  const DIV: nat := 0x09          // 0b001001
  const DIVU: nat := 0x0B         // 0b001011
  const MUL: nat := 0x08          // 0b001000
  const MULU: nat := 0x0A         // 0b001010
  const SUB: nat := 0x02          // 0b000010
  const BCOND_START: nat := 0x20  // 0b100000
  const BCOND_END: nat := 0x27    // 0b100111
  const JAL: nat := 0x2B          // 0b101011
  const JMP: nat := 0x06          // 0b000110
  const JR: nat := 0x2A           // 0b101010

  /** The instruction kinds the table names, and everything else. */
  datatype Kind =
    | MovImm | MovReg | Movea | Movhi | AddImm | AddReg | Addi | CmpImm | CmpReg
    | Div | Divu | Mul | Mulu | Sub | Bcond | Jal | Jmp | Jr
    | Unlisted(opcode: nat)

  /** `instr >> 10`: the major opcode of an instruction halfword. */
  function MajorOpcode(instr: u16): (op: nat)
    ensures op < 64
    ensures op * 0x400 <= instr < (op + 1) * 0x400
  {
    instr / 0x400
  }

  /** The constant a kind is decoded from (the first one of the Bcond range). */
  function OpcodeOf(k: Kind): nat
    requires !k.Unlisted?
  {
    match k
    case MovImm => MOV_IMM
    case MovReg => MOV_REG
    case Movea => MOVEA
    case Movhi => MOVHI
    case AddImm => ADD_IMM
    case AddReg => ADD_REG
    case Addi => ADDI
    case CmpImm => CMP_IMM
    case CmpReg => CMP_REG
    case Div => DIV
    case Divu => DIVU
    case Mul => MUL
    case Mulu => MULU
    case Sub => SUB
    case Bcond => BCOND_START
    case Jal => JAL
    case Jmp => JMP
    case Jr => JR
  }

  /** The kind a major opcode selects; opcodes the table does not list are `Unlisted`. */
  function Decode(op: nat): (k: Kind)
    ensures k.Unlisted? ==> k.opcode == op
    ensures k.Bcond? <==> BCOND_START <= op <= BCOND_END
    ensures !k.Unlisted? && !k.Bcond? ==> op == OpcodeOf(k)
    ensures k.Unlisted? <==> !(BCOND_START <= op <= BCOND_END) && op !in NON_BRANCH
  {
    if BCOND_START <= op <= BCOND_END then Bcond
    else if op == MOV_IMM then MovImm
    else if op == MOV_REG then MovReg
    else if op == MOVEA then Movea
    else if op == MOVHI then Movhi
    else if op == ADD_IMM then AddImm
    else if op == ADD_REG then AddReg
    else if op == ADDI then Addi
    else if op == CMP_IMM then CmpImm
    else if op == CMP_REG then CmpReg
    else if op == DIV then Div
    else if op == DIVU then Divu
    else if op == MUL then Mul
    else if op == MULU then Mulu
    else if op == SUB then Sub
    else if op == JAL then Jal
    else if op == JMP then Jmp
    else if op == JR then Jr
    else Unlisted(op)
  }

  /** Every listed constant decodes back to its own kind, so no two kinds share a constant. */
  lemma DecodeOpcodeOf(k: Kind)
    requires !k.Unlisted?
    ensures OpcodeOf(k) < 64
    ensures Decode(OpcodeOf(k)) == k
  {
  }

  /** The non-branch constants, in the order the table declares them. */
  const NON_BRANCH: seq<nat> :=
    [MOV_IMM, MOV_REG, MOVEA, MOVHI, ADD_IMM, ADD_REG, ADDI, CMP_IMM, CMP_REG,
     DIV, DIVU, MUL, MULU, SUB, JAL, JMP, JR]

  /**
   * The constants are pairwise distinct, each fits in six bits, and none of
   * the non-branch constants falls inside the branch range.
   */
  lemma TableWellFormed()
    ensures forall i, j :: 0 <= i < j < |NON_BRANCH| ==> NON_BRANCH[i] != NON_BRANCH[j]
    ensures forall i :: 0 <= i < |NON_BRANCH| ==> NON_BRANCH[i] < 64
    ensures forall i :: 0 <= i < |NON_BRANCH| ==> !(BCOND_START <= NON_BRANCH[i] <= BCOND_END)
    ensures BCOND_START <= BCOND_END < 64
  {
    forall i, j | 0 <= i < j < |NON_BRANCH|
      ensures NON_BRANCH[i] != NON_BRANCH[j]
    {
      assert Decode(NON_BRANCH[i]) != Decode(NON_BRANCH[j]);
    }
  }

  /**
   * A six-bit opcode is in the branch range exactly when its top three bits
   * are 0b100 (= 4); on a whole halfword, exactly when `instr >> 13 == 4`.
   */
  lemma BcondRange(instr: u16)
    ensures Decode(MajorOpcode(instr)).Bcond? <==> instr / 0x2000 == 4
    ensures Decode(MajorOpcode(instr)).Bcond? <==> MajorOpcode(instr) / 8 == 4
  {
    var op := MajorOpcode(instr);
    assert instr / 0x2000 == op / 8;
  }
}
