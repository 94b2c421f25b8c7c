/**
 * The instruction fields every handler in src/cpu/instrs/ decodes the same
 * way: the register numbers in bits 0..4 and 5..9, the 5-bit immediate, the
 * 16-bit displacement of the trailing halfword, and the sign extension of
 * loaded bytes and halfwords.  Each is written with
 * `%` and `/`; the lemmas tie them to the source's masks and shifts.
 */
module Operands {
  import opened Word

  /** `instr & 0x1F`: the reg1 field (or the system register number of LDSR). */
  function Reg1(instr: u16): (r: nat)
    ensures r < 32
  {
    instr % 0x20
  }

  /** `(instr >> 5) & 0x1F`: the reg2 field. */
  function Reg2(instr: u16): (r: nat)
    ensures r < 32
  {
    instr / 0x20 % 0x20
  }

  /** The two register fields are what the source's masks extract. */
  lemma RegisterMasks(instr: u16)
    ensures And(instr, 0x1F) == Reg1(instr)
    ensures And(instr / 0x20, 0x1F) == Reg2(instr)
  {
    assert Pow2(5) == 0x20 by { Pow2Values(); }
    AndLowMask(instr, 5);
    AndLowMask(instr / 0x20, 5);
  }

  /** `((instr as i32) << 27 >> 27) as u32`: bits 0..4 sign-extended from bit 4. */
  function Imm5(instr: u16): (r: u32)
    ensures -16 <= ToSigned(r) < 16
    ensures ToSigned(r) == if instr % 0x20 < 0x10 then instr % 0x20 else instr % 0x20 - 0x20
  {
    assert Pow2(5) == 0x20 && Pow2(4) == 0x10 by { Pow2Values(); }
    SignExtend(instr % 0x20, 5)
  }

  /** `b as i8 as u32`: a byte sign-extended from bit 7. */
  function Sext8(b: u8): (r: u32)
    ensures -0x80 <= ToSigned(r) < 0x80
    ensures ToSigned(r) == if b < 0x80 then b else b - 0x100
    ensures r % 0x100 == b
  {
    assert Pow2(8) == 0x100 && Pow2(7) == 0x80 by { Pow2Values(); }
    SignExtend(b, 8)
  }

  /** `hw as i16 as u32`: a halfword sign-extended from bit 15. */
  function Sext16(hw: u16): (r: u32)
    ensures -0x8000 <= ToSigned(r) < 0x8000
    ensures ToSigned(r) == if hw < 0x8000 then hw else hw - 0x1_0000
    ensures r % 0x1_0000 == hw
  {
    assert Pow2(16) == 0x1_0000 && Pow2(15) == 0x8000 by { Pow2Values(); }
    SignExtend(hw, 16)
  }

  /**
   * `base.wrapping_add(hw as i16 as u32)`: the sum MOVEA computes and every
   * load and store uses as its effective address.  It is the base moved by
   * the signed displacement, modulo 2^32.
   */
  function AddSext16(base: u32, hw: u16): (r: u32)
    ensures r == Wrap(base + ToSigned(Sext16(hw)))
  {
    WrapSigned(base, Sext16(hw));
    Wrap(base + Sext16(hw))
  }

  /** Adding a word modulo 2^32 is adding its signed reading modulo 2^32. */
  lemma WrapSigned(a: int, b: u32)
    ensures Wrap(a + b) == Wrap(a + ToSigned(b))
  {
    if b >= 0x8000_0000 {
      ModAddMultiple(a + ToSigned(b), 1, WORD);
    }
  }
}
