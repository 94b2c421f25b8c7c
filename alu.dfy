/**
 * The arithmetic handlers of src/cpu/instrs/alu.rs: ADD with a 5-bit
 * immediate, and CMP against an immediate or a register.  Each sets the
 * sign, zero, carry and overflow flags from one result.
 */
module Alu {
  import opened Word
  import opened Psw
  import opened Operands
  import opened Processor

  // ----- 32-bit arithmetic with flags -----------------------------------------

  /** `(a as i32).overflowing_add(b as i32)`, its result read back as a u32. */
  function OverflowingAdd(a: u32, b: u32): (u32, bool)
  {
    var sum := ToSigned(a) + ToSigned(b);
    (Wrap(sum), !FitsI32(sum))
  }

  /** `(a as i32).overflowing_sub(b as i32)`, its result read back as a u32. */
  function OverflowingSub(a: u32, b: u32): (u32, bool)
  {
    var diff := ToSigned(a) - ToSigned(b);
    (Wrap(diff), !FitsI32(diff))
  }

  /** Reduction modulo 2^32 of a value within one word of the range. */
  lemma WrapNear(x: int)
    requires -WORD <= x < 2 * WORD
    ensures Wrap(x) == if x < 0 then x + WORD else if x < WORD then x else x - WORD
  {
    if x < 0 {
      ModUnique(x, WORD, -1, x + WORD);
    } else if x >= WORD {
      ModUnique(x, WORD, 1, x - WORD);
    }
  }

  /** A value that fits an `i32` survives the round trip through u32. */
  lemma SignedOfWrap(x: int)
    requires FitsI32(x)
    ensures ToSigned(Wrap(x)) == x
  {
    WrapNear(x);
  }

  /**
   * The signed add is the unsigned add modulo 2^32, and it overflows exactly
   * when both operands have one sign and the result has the other.
   */
  lemma AddOverflow(a: u32, b: u32)
    ensures OverflowingAdd(a, b).0 == Wrap(a + b)
    ensures OverflowingAdd(a, b).1 <==>
      (ToSigned(a) < 0) == (ToSigned(b) < 0) && (ToSigned(OverflowingAdd(a, b).0) < 0) != (ToSigned(a) < 0)
  {
    var sa, sb := ToSigned(a), ToSigned(b);
    assert Wrap(a + b) == Wrap(sa + sb) by {
      WrapSigned(a, b);
      WrapSigned(sb, a);
    }
    WrapNear(sa + sb);
    if FitsI32(sa + sb) {
      SignedOfWrap(sa + sb);
    }
  }

  /**
   * The signed subtract is the unsigned subtract modulo 2^32, and it
   * overflows exactly when the operands have different signs and the result
   * has the sign of the subtrahend.
   */
  lemma SubOverflow(a: u32, b: u32)
    ensures OverflowingSub(a, b).0 == Wrap(a - b)
    ensures OverflowingSub(a, b).1 <==>
      (ToSigned(a) < 0) != (ToSigned(b) < 0) && (ToSigned(OverflowingSub(a, b).0) < 0) != (ToSigned(a) < 0)
  {
    var sa, sb := ToSigned(a), ToSigned(b);
    assert Wrap(a - b) == Wrap(sa - sb) by {
      var ka := if a >= 0x8000_0000 then 1 else 0;
      var kb := if b >= 0x8000_0000 then 1 else 0;
      assert a - b == (sa - sb) + (ka - kb) * WORD;
      ModAddMultiple(sa - sb, ka - kb, WORD);
    }
    WrapNear(sa - sb);
    if FitsI32(sa - sb) {
      SignedOfWrap(sa - sb);
    }
  }

  /** The flag update every handler here ends with. */
  function ArithFlags(psw: u32, res: u32, carry: bool, overflow: bool): u32
  {
    SetFlag(SetFlag(SetSignAndZero(psw, res), CARRY, carry), OVERFLOW, overflow)
  }

  /**
   * Sign, zero, carry and overflow all come from the one result and its two
   * flags; no other PSW bit changes.
   */
  lemma ArithFlagsEffect(psw: u32, res: u32, carry: bool, overflow: bool)
    ensures var p := ArithFlags(psw, res, carry, overflow);
      && Flag(p, ZERO) == (res == 0)
      && Flag(p, SIGN) == (ToSigned(res) < 0)
      && Flag(p, CARRY) == carry
      && Flag(p, OVERFLOW) == overflow
      && forall j: nat :: j >= 4 ==> Bit(p, j) == Bit(psw, j)
  {
    SignIsTopBit(res);
  }

  /** The flags of a compare: `a - b` with carry set when `b > a`. */
  function Compare(psw: u32, a: u32, b: u32): u32
  {
    var diff := OverflowingSub(a, b);
    ArithFlags(psw, diff.0, b > a, diff.1)
  }

  /**
   * What a compare promises the branch that follows it: after comparing a
   * with b, "e" holds iff a == b, "c" iff a < b unsigned, "nh" iff a <= b
   * unsigned, "lt" iff a < b signed and "le" iff a <= b signed.
   */
  lemma CompareConditions(psw: u32, a: u32, b: u32)
    ensures SatisfiesCond(Compare(psw, a, b), 2) <==> a == b
    ensures SatisfiesCond(Compare(psw, a, b), 1) <==> a < b
    ensures SatisfiesCond(Compare(psw, a, b), 3) <==> a <= b
    ensures SatisfiesCond(Compare(psw, a, b), 6) <==> ToSigned(a) < ToSigned(b)
    ensures SatisfiesCond(Compare(psw, a, b), 7) <==> ToSigned(a) <= ToSigned(b)
  {
    var sa, sb := ToSigned(a), ToSigned(b);
    var diff := OverflowingSub(a, b);
    ArithFlagsEffect(psw, diff.0, b > a, diff.1);
    WrapNear(sa - sb);
    if FitsI32(sa - sb) {
      SignedOfWrap(sa - sb);
    }
    assert diff.0 == 0 <==> a == b by {
      assert Wrap(sa) == a && Wrap(sb) == b;
    }
  }

  // ----- handlers --------------------------------------------------------------

  /** The wrapped sum is below the first operand exactly when the add carries out of bit 31. */
  lemma AddCarry(a: u32, b: u32)
    ensures OverflowingAdd(a, b).0 == Wrap(a + ToSigned(b))
    ensures OverflowingAdd(a, b).0 < a <==> a + b >= WORD
  {
    AddOverflow(a, b);
    WrapSigned(a, b);
    WrapNear(a as int + b);
  }

  /** The flags of an add of b to a: `a + b` with carry set when the sum wraps below a. */
  function AddPsw(psw: u32, a: u32, b: u32): u32
  {
    var sum := OverflowingAdd(a, b);
    ArithFlags(psw, sum.0, sum.0 < a, sum.1)
  }

  /**
   * The flags of an add of a and b: carry is the unsigned carry out of bit
   * 31, overflow the signed sum leaving the i32 range, zero and sign describe
   * the wrapped sum, and the upper PSW bits stay.
   */
  lemma AddFlags(psw: u32, a: u32, b: u32)
    ensures var p := AddPsw(psw, a, b);
      && (Flag(p, CARRY) <==> a + b >= WORD)
      && (Flag(p, OVERFLOW) <==> !FitsI32(ToSigned(a) + ToSigned(b)))
      && (Flag(p, ZERO) <==> Wrap(a + b) == 0)
      && (Flag(p, SIGN) <==> ToSigned(Wrap(a + b)) < 0)
      && forall j: nat :: j >= 4 ==> Bit(p, j) == Bit(psw, j)
  {
    var sum := OverflowingAdd(a, b);
    AddOverflow(a, b);
    AddCarry(a, b);
    ArithFlagsEffect(psw, sum.0, sum.0 < a, sum.1);
  }

  /** `addi_short`: reg2 += sign-extended imm5, with all four arithmetic flags. */
  function AfterAddiShort(s: Regs, instr: u16): Regs
    requires WellFormed(s)
  {
    var r2 := Reg2(instr);
    var reg2 := s.gprs[r2];
    var sum := OverflowingAdd(reg2, Imm5(instr));
    s.(gprs := s.gprs[r2 := sum.0], psw := ArithFlags(s.psw, sum.0, sum.0 < reg2, sum.1))
  }

  /**
   * ADD imm5 leaves reg2 plus the signed immediate modulo 2^32 in reg2,
   * changes no other register and not the PC, and sets the flags of that
   * add (AddFlags says what they are).
   */
  lemma AddiShortEffect(s: Regs, instr: u16)
    requires WellFormed(s)
    ensures var t, reg2 := AfterAddiShort(s, instr), s.gprs[Reg2(instr)];
      && WellFormed(t) && t.pc == s.pc
      && t.gprs == s.gprs[Reg2(instr) := Wrap(reg2 + ToSigned(Imm5(instr)))]
      && t.psw == AddPsw(s.psw, reg2, Imm5(instr))
  {
    AddCarry(s.gprs[Reg2(instr)], Imm5(instr));
  }

  /** `cmp_imm`: the flags of reg2 - sign-extended imm5; no register changes. */
  function AfterCmpImm(s: Regs, instr: u16): Regs
    requires WellFormed(s)
  {
    s.(psw := Compare(s.psw, s.gprs[Reg2(instr)], Imm5(instr)))
  }

  /** `cmp_reg`: the flags of reg2 - reg1; no register changes. */
  function AfterCmpReg(s: Regs, instr: u16): Regs
    requires WellFormed(s)
  {
    s.(psw := Compare(s.psw, s.gprs[Reg2(instr)], s.gprs[Reg1(instr)]))
  }

  /**
   * A compare of a with b writes no register and not the PC; carry is the
   * unsigned borrow (the difference wrapped), overflow the signed difference
   * leaving the i32 range, zero whether the operands are equal, and the
   * upper PSW bits stay.
   */
  lemma CompareEffect(psw: u32, a: u32, b: u32)
    ensures var p := Compare(psw, a, b);
      && (Flag(p, CARRY) <==> Wrap(a - b) != a - b)
      && (Flag(p, OVERFLOW) <==> !FitsI32(ToSigned(a) - ToSigned(b)))
      && (Flag(p, ZERO) <==> a == b)
      && (Flag(p, SIGN) <==> ToSigned(Wrap(a - b)) < 0)
      && forall j: nat :: j >= 4 ==> Bit(p, j) == Bit(psw, j)
  {
    var diff := OverflowingSub(a, b);
    SubOverflow(a, b);
    ArithFlagsEffect(psw, diff.0, b > a, diff.1);
    WrapNear(a - b);
    CompareConditions(psw, a, b);
  }

  // ----- the handlers on the CPU object -----------------------------------------

  method AddiShort(cpu: Cpu, instr: u16)
    requires cpu.Valid()
    modifies cpu, cpu.gprs
    ensures cpu.Valid()
    ensures cpu.State() == AfterAddiShort(old(cpu.State()), instr)
  {
    var r2 := Reg2(instr);
    var reg2 := cpu.gprs[r2];
    var imm := Imm5(instr);
    var sum := OverflowingAdd(reg2, imm);
    var res := sum.0;
    cpu.psw := SetSignAndZero(cpu.psw, res);
    cpu.psw := SetFlag(cpu.psw, CARRY, res < reg2);
    cpu.psw := SetFlag(cpu.psw, OVERFLOW, sum.1);
    cpu.gprs[r2] := res;
  }

  method CmpImm(cpu: Cpu, instr: u16)
    requires cpu.Valid()
    modifies cpu
    ensures cpu.Valid()
    ensures cpu.State() == AfterCmpImm(old(cpu.State()), instr)
  {
    var reg2 := cpu.gprs[Reg2(instr)];
    var imm := Imm5(instr);
    var diff := OverflowingSub(reg2, imm);
    cpu.psw := SetSignAndZero(cpu.psw, diff.0);
    cpu.psw := SetFlag(cpu.psw, CARRY, imm > reg2);
    cpu.psw := SetFlag(cpu.psw, OVERFLOW, diff.1);
  }

  method CmpReg(cpu: Cpu, instr: u16)
    requires cpu.Valid()
    modifies cpu
    ensures cpu.Valid()
    ensures cpu.State() == AfterCmpReg(old(cpu.State()), instr)
  {
    var reg2 := cpu.gprs[Reg2(instr)];
    var reg1 := cpu.gprs[Reg1(instr)];
    var diff := OverflowingSub(reg2, reg1);
    cpu.psw := SetSignAndZero(cpu.psw, diff.0);
    cpu.psw := SetFlag(cpu.psw, CARRY, reg1 > reg2);
    cpu.psw := SetFlag(cpu.psw, OVERFLOW, diff.1);
  }
}
