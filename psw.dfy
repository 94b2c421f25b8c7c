/**
 * The V810 program status word (`PSW` in src/cpu.rs): one 32-bit register
 * whose bits are named flags and fields.  The model keeps the word as its raw
 * u32, so the raw getter is the word itself and the raw setter replaces it;
 * every named getter reads a bit or a field of the word and every named
 * setter replaces exactly that bit or field.
 */
module Psw {
  import opened Word

  // Bit positions of the one-bit fields.
  const ZERO: nat := 0
  const SIGN: nat := 1
  const OVERFLOW: nat := 2
  const CARRY: nat := 3
  const FPR: nat := 4                 // floating-point precision degradation
  const FUD: nat := 5                 // floating-point underflow
  const FOV: nat := 6                 // floating-point overflow
  const FZD: nat := 7                 // floating-point zero division
  const FIV: nat := 8                 // floating-point invalid operation
  const FRO: nat := 9                 // floating-point reserved operand
  const IRQ_DISABLE: nat := 12
  const ADDR_TRAP_ENABLE: nat := 13
  const EXCEPTION_PENDING: nat := 14
  const NMI_PENDING: nat := 15

  /** The interrupt level is the 4-bit field at bits 16..19. */
  const INT_LEVEL_LO: nat := 16
  const INT_LEVEL_WIDTH: nat := 4

  /** The PSW after reset. */
  const RESET_PSW: u32 := 0x8000

  /** The one-bit field at position `flag`. */
  function Flag(psw: u32, flag: nat): bool
  {
    Bit(psw, flag)
  }

  /** Sets or clears one flag. */
  function SetFlag(psw: u32, flag: nat, b: bool): (r: u32)
    requires flag < 32
    ensures Flag(r, flag) == b
    ensures forall j: nat :: j != flag ==> Bit(r, j) == Bit(psw, j)
  {
    Pow2Word();
    SetBitBound(psw, flag, 32, b);
    BitOfSetBit(psw, flag, b);
    SetBitKeepsOthers(psw, flag, b);
    SetBit(psw, flag, b)
  }

  lemma SetBitKeepsOthers(x: nat, i: nat, b: bool)
    ensures forall j: nat :: j != i ==> Bit(SetBit(x, i, b), j) == Bit(x, j)
  {
    forall j: nat | j != i
      ensures Bit(SetBit(x, i, b), j) == Bit(x, j)
    {
      BitOfSetBitOther(x, i, j, b);
    }
  }

  /** Writing a flag back with the value it already has leaves the word as it was. */
  lemma SetFlagOfFlag(psw: u32, flag: nat)
    requires flag < 32
    ensures SetFlag(psw, flag, Flag(psw, flag)) == psw
  {
    SetBitOfBit(psw, flag);
  }

  /** Setting a flag twice to the same value is setting it once. */
  lemma SetFlagTwice(psw: u32, flag: nat, b: bool)
    requires flag < 32
    ensures SetFlag(SetFlag(psw, flag, b), flag, b) == SetFlag(psw, flag, b)
  {
    SetBitTwice(psw, flag, b);
  }

  /** The interrupt level, bits 16..19. */
  function IntLevel(psw: u32): nat
  {
    Field(psw, INT_LEVEL_LO, INT_LEVEL_WIDTH)
  }

  /** Replaces the interrupt level with the low four bits of `v`, as the bitfield setter truncates. */
  function SetIntLevel(psw: u32, v: nat): (r: u32)
    ensures IntLevel(r) == v % 16
    ensures forall j: nat :: (j < INT_LEVEL_LO || j >= INT_LEVEL_LO + INT_LEVEL_WIDTH) ==> Bit(r, j) == Bit(psw, j)
  {
    Pow2Values();
    SetFieldBound(psw, INT_LEVEL_LO, INT_LEVEL_WIDTH, v, 32);
    SetFieldLow(psw, INT_LEVEL_LO, INT_LEVEL_WIDTH, v);
    FieldOfSetField(psw, INT_LEVEL_LO, INT_LEVEL_WIDTH, v % 16);
    SetFieldKeepsOthers(psw, INT_LEVEL_LO, INT_LEVEL_WIDTH, v);
    SetField(psw, INT_LEVEL_LO, INT_LEVEL_WIDTH, v)
  }

  lemma SetFieldKeepsOthers(x: nat, lo: nat, width: nat, v: nat)
    ensures forall j: nat :: (j < lo || j >= lo + width) ==> Bit(SetField(x, lo, width, v), j) == Bit(x, j)
  {
    forall j: nat | j < lo || j >= lo + width
      ensures Bit(SetField(x, lo, width, v), j) == Bit(x, j)
    {
      BitOfSetFieldOther(x, lo, width, v, j);
    }
  }

  /**
   * `set_sign_and_zero(res)`: sign becomes bit 31 of the result and zero
   * whether the result is 0; no other bit changes.
   */
  function SetSignAndZero(psw: u32, res: u32): (r: u32)
    ensures Flag(r, SIGN) == Bit(res, 31)
    ensures Flag(r, ZERO) == (res == 0)
    ensures forall j: nat :: j != SIGN && j != ZERO ==> Bit(r, j) == Bit(psw, j)
  {
    SignIsTopBit(res);
    SetFlag(SetFlag(psw, SIGN, res >= 0x8000_0000), ZERO, res == 0)
  }

  /** Bit 31 of a word is set exactly when the word is negative as an `i32`. */
  lemma SignIsTopBit(x: u32)
    ensures Bit(x, 31) <==> x >= 0x8000_0000
    ensures Bit(x, 31) <==> ToSigned(x) < 0
  {
    Pow2Word();
    TopBit(x, 31);
  }

  /**
   * `satisfies_cond(cond)`: the V810 condition codes, in the order of the
   * mnemonics v, c, e, nh, n, r, lt, le, nv, nc, ne, h, p, nop, ge, gt.
   */
  function SatisfiesCond(psw: u32, cond: nat): bool
    requires cond < 16
  {
    var z, s := Flag(psw, ZERO), Flag(psw, SIGN);
    var ov, cy := Flag(psw, OVERFLOW), Flag(psw, CARRY);
    match cond
    case 0 => ov
    case 1 => cy
    case 2 => z
    case 3 => cy || z
    case 4 => s
    case 5 => true
    case 6 => s != ov
    case 7 => (s != ov) || z
    case 8 => !ov
    case 9 => !cy
    case 10 => !z
    case 11 => !(cy || z)
    case 12 => !s
    case 13 => false
    case 14 => s == ov
    case 15 => !((s != ov) || z)
  }

  /** The second half of the table negates the first: code c + 8 holds exactly when c does not. */
  lemma CondNegation(psw: u32, cond: nat)
    requires cond < 8
    ensures SatisfiesCond(psw, cond + 8) == !SatisfiesCond(psw, cond)
  {
  }

  /** The condition codes look only at the four arithmetic flags, bits 0..3. */
  lemma CondDependsOnlyOnArithmeticFlags(p: u32, q: u32, cond: nat)
    requires cond < 16
    requires forall j: nat :: j < 4 ==> Bit(p, j) == Bit(q, j)
    ensures SatisfiesCond(p, cond) == SatisfiesCond(q, cond)
  {
    assert Bit(p, ZERO) == Bit(q, ZERO) && Bit(p, SIGN) == Bit(q, SIGN);
    assert Bit(p, OVERFLOW) == Bit(q, OVERFLOW) && Bit(p, CARRY) == Bit(q, CARRY);
  }

  /** The reset PSW has only the NMI-pending bit set. */
  lemma ResetFlags()
    ensures Flag(RESET_PSW, NMI_PENDING)
    ensures forall j: nat :: j < 32 && j != NMI_PENDING ==> !Bit(RESET_PSW, j)
    ensures IntLevel(RESET_PSW) == 0
  {
    OnlyBit(15, 32);
    Pow2Values();
    assert Field(RESET_PSW, INT_LEVEL_LO, INT_LEVEL_WIDTH) == 0 by {
      assert !Bit(RESET_PSW, 16) && !Bit(RESET_PSW, 17) && !Bit(RESET_PSW, 18) && !Bit(RESET_PSW, 19);
    }
  }

  /** 2^i has bit i set and no other bit below n. */
  lemma {:induction false} OnlyBit(i: nat, n: nat)
    ensures Bit(Pow2(i), i)
    ensures forall j: nat :: j < n && j != i ==> !Bit(Pow2(i), j)
  {
    if i == 0 {
      forall j: nat | 0 < j < n
        ensures !Bit(Pow2(0), j)
      {
        ZeroBits(0, j - 1);
      }
    } else {
      OnlyBit(i - 1, n);
      assert Pow2(i) / 2 == Pow2(i - 1) && Pow2(i) % 2 == 0;
      forall j: nat | j < n && j != i
        ensures !Bit(Pow2(i), j)
      {
        if j > 0 {
          assert !Bit(Pow2(i - 1), j - 1) by { OnlyBit(i - 1, n); }
        }
      }
    }
  }

  lemma {:induction false} ZeroBits(x: nat, j: nat)
    requires x == 0
    ensures !Bit(x, j)
  {
    if j > 0 {
      ZeroBits(x / 2, j - 1);
    }
  }
}
