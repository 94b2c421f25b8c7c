/**
 * Machine words as the emulator sees them: unsigned 8/16/32-bit values, the
 * bitwise operators it uses (`&`, `|`, shifts, single-bit and multi-bit
 * fields), wrapping 32-bit arithmetic, two's-complement reinterpretation and
 * sign extension, and little-endian byte assembly.
 *
 * The operators are defined bit by bit on naturals, as the hardware computes
 * them; the lemmas below connect each mask the emulator uses to the
 * arithmetic (`%`, `/`) that the rest of the model reasons with.
 */
module Word {

  type u8 = x: int | 0 <= x < 0x100
  type u16 = x: int | 0 <= x < 0x1_0000
  type u32 = x: int | 0 <= x < 0x1_0000_0000

  const WORD: int := 0x1_0000_0000

  function Pow2(n: nat): (r: nat)
    ensures r >= 1
  {
    if n == 0 then 1 else 2 * Pow2(n - 1)
  }

  /** The powers of two that the emulator's masks and shifts are built from. */
  lemma Pow2Values()
    ensures Pow2(0) == 1 && Pow2(1) == 2 && Pow2(2) == 4 && Pow2(3) == 8
    ensures Pow2(4) == 0x10 && Pow2(5) == 0x20 && Pow2(8) == 0x100
    ensures Pow2(9) == 0x200 && Pow2(10) == 0x400 && Pow2(11) == 0x800
    ensures Pow2(15) == 0x8000 && Pow2(16) == 0x1_0000 && Pow2(19) == 0x8_0000
    ensures Pow2(24) == 0x100_0000 && Pow2(25) == 0x200_0000 && Pow2(26) == 0x400_0000
    ensures Pow2(27) == 0x800_0000 && Pow2(31) == 0x8000_0000 && Pow2(32) == WORD
  {
    assert Pow2(1) == 2 * Pow2(0) == 0x2;
    assert Pow2(2) == 2 * Pow2(1) == 0x4;
    assert Pow2(3) == 2 * Pow2(2) == 0x8;
    assert Pow2(4) == 2 * Pow2(3) == 0x10;
    assert Pow2(5) == 2 * Pow2(4) == 0x20;
    assert Pow2(6) == 2 * Pow2(5) == 0x40;
    assert Pow2(7) == 2 * Pow2(6) == 0x80;
    assert Pow2(8) == 2 * Pow2(7) == 0x100;
    assert Pow2(9) == 2 * Pow2(8) == 0x200;
    assert Pow2(10) == 2 * Pow2(9) == 0x400;
    assert Pow2(11) == 2 * Pow2(10) == 0x800;
    assert Pow2(12) == 2 * Pow2(11) == 0x1000;
    assert Pow2(13) == 2 * Pow2(12) == 0x2000;
    assert Pow2(14) == 2 * Pow2(13) == 0x4000;
    assert Pow2(15) == 2 * Pow2(14) == 0x8000;
    assert Pow2(16) == 2 * Pow2(15) == 0x10000;
    assert Pow2(17) == 2 * Pow2(16) == 0x20000;
    assert Pow2(18) == 2 * Pow2(17) == 0x40000;
    assert Pow2(19) == 2 * Pow2(18) == 0x80000;
    assert Pow2(20) == 2 * Pow2(19) == 0x100000;
    assert Pow2(21) == 2 * Pow2(20) == 0x200000;
    assert Pow2(22) == 2 * Pow2(21) == 0x400000;
    assert Pow2(23) == 2 * Pow2(22) == 0x800000;
    assert Pow2(24) == 2 * Pow2(23) == 0x1000000;
    assert Pow2(25) == 2 * Pow2(24) == 0x2000000;
    assert Pow2(26) == 2 * Pow2(25) == 0x4000000;
    assert Pow2(27) == 2 * Pow2(26) == 0x8000000;
    assert Pow2(28) == 2 * Pow2(27) == 0x10000000;
    assert Pow2(29) == 2 * Pow2(28) == 0x20000000;
    assert Pow2(30) == 2 * Pow2(29) == 0x40000000;
    assert Pow2(31) == 2 * Pow2(30) == 0x80000000;
    assert Pow2(32) == 2 * Pow2(31) == 0x100000000;
  }

  /** The two powers of two behind 32-bit words and their sign bit. */
  lemma Pow2Word()
    ensures Pow2(31) == 0x8000_0000 && Pow2(32) == WORD
  {
    Pow2Values();
  }

  lemma {:induction false} Pow2Monotone(a: nat, b: nat)
    requires a <= b
    ensures Pow2(a) <= Pow2(b)
  {
    if a < b { Pow2Monotone(a, b - 1); }
  }

  lemma {:induction false} Pow2Add(a: nat, b: nat)
    ensures Pow2(a + b) == Pow2(a) * Pow2(b)
  {
    if b > 0 {
      Pow2Add(a, b - 1);
      assert Pow2(a + b) == 2 * Pow2(a + b - 1);
    }
  }

  lemma Pow2Split(a: nat, n: nat)
    requires a <= n
    ensures Pow2(n) == Pow2(a) * Pow2(n - a)
  {
    Pow2Add(a, n - a);
  }

  lemma MulAtLeast(k: int, d: int)
    requires k >= 1 && d > 0
    ensures k * d >= d
  {}

  /** A remainder never exceeds the non-negative number it is taken of. */
  lemma ModAtMost(a: int, d: int)
    requires a >= 0 && d > 0
    ensures a % d <= a
  {
    var q := a / d;
    assert a == q * d + a % d;
    if q < 0 {
      MulAtLeast(-q, d);
      assert false;
    }
    assert q * d >= 0;
  }

  /** Euclidean division has exactly one quotient and remainder. */
  lemma ModUnique(x: int, d: int, q: int, r: int)
    requires d > 0 && 0 <= r < d && x == q * d + r
    ensures x % d == r && x / d == q
  {
    var q', r' := x / d, x % d;
    assert (q - q') * d == r' - r;
    if q > q' { MulAtLeast(q - q', d); }
    else if q' > q { MulAtLeast(q' - q, d); }
  }

  /** Adding a multiple of the modulus does not change the remainder. */
  lemma ModAddMultiple(x: int, k: int, d: int)
    requires d > 0
    ensures (x + k * d) % d == x % d
  {
    ModUnique(x + k * d, d, x / d + k, x % d);
  }

  /** Reducing modulo a multiple first does not change the remainder. */
  lemma ModOfMod(x: int, d: int, m: int)
    requires d > 0 && m > 0
    ensures (x % (d * m)) % d == x % d
  {
    var q := x / (d * m);
    assert x == q * (d * m) + x % (d * m);
    ModAddMultiple(x % (d * m), q * m, d);
    assert q * (d * m) == (q * m) * d;
  }

  /** Reducing modulo a multiple of d first does not change the remainder modulo d. */
  lemma ModOfModDivisor(x: int, d: int, m: int)
    requires d > 0 && m > 0 && m % d == 0
    ensures (x % m) % d == x % d
  {
    var k := m / d;
    assert m == d * k;
    ModOfMod(x, d, k);
  }

  /** A smaller power of two divides a larger one. */
  lemma Pow2Divides(a: nat, n: nat)
    requires a <= n
    ensures Pow2(n) % Pow2(a) == 0
  {
    Pow2Add(n - a, a);
    ModUnique(Pow2(n), Pow2(a), Pow2(n - a), 0);
  }

  /** Removing the lowest bit: x mod 2^k is twice (x/2) mod 2^(k-1), plus that bit. */
  lemma ModHalves(x: nat, k: nat)
    requires k >= 1
    ensures x % Pow2(k) == 2 * ((x / 2) % Pow2(k - 1)) + x % 2
  {
    var p := Pow2(k - 1);
    var q, r := (x / 2) / p, (x / 2) % p;
    assert x / 2 == q * p + r;
    assert x == q * (2 * p) + (2 * r + x % 2);
    ModUnique(x, 2 * p, q, 2 * r + x % 2);
  }

  // ----- bitwise AND and OR --------------------------------------------------

  /** `a & b`, bit by bit. */
  function And(a: nat, b: nat): nat
    decreases a
  {
    if a == 0 || b == 0 then 0
    else 2 * And(a / 2, b / 2) + (if a % 2 == 1 && b % 2 == 1 then 1 else 0)
  }

  /** `a | b`, bit by bit. */
  function Or(a: nat, b: nat): nat
    decreases a + b
  {
    if a == 0 then b
    else if b == 0 then a
    else 2 * Or(a / 2, b / 2) + (if a % 2 == 1 || b % 2 == 1 then 1 else 0)
  }

  /** The low k bits of x, bit by bit. */
  function LowBits(x: nat, k: nat): nat
  {
    if k == 0 then 0 else 2 * LowBits(x / 2, k - 1) + x % 2
  }

  /** The low k bits of x are x modulo 2^k. */
  lemma {:induction false} LowBitsIsMod(x: nat, k: nat)
    ensures LowBits(x, k) == x % Pow2(k)
  {
    if k == 0 {
      assert Pow2(0) == 1;
    } else {
      assert LowBits(x / 2, k - 1) == (x / 2) % Pow2(k - 1) by { LowBitsIsMod(x / 2, k - 1); }
      assert x % Pow2(k) == 2 * ((x / 2) % Pow2(k - 1)) + x % 2 by { ModHalves(x, k); }
    }
  }

  lemma {:induction false} AndLowBits(x: nat, k: nat)
    ensures And(x, Pow2(k) - 1) == LowBits(x, k)
  {
    if k == 0 {
      assert Pow2(0) == 1;
      assert And(x, 0) == 0;
    } else {
      assert And(x, Pow2(k) - 1) == 2 * And(x / 2, Pow2(k - 1) - 1) + x % 2 by {
        HalveLowMask(k);
        AndOdd(x, Pow2(k) - 1);
      }
      AndLowBits(x / 2, k - 1);
    }
  }

  /** Masking with 2^k - 1 keeps the low k bits: it is reduction modulo 2^k. */
  lemma AndLowMask(x: nat, k: nat)
    ensures And(x, Pow2(k) - 1) == x % Pow2(k)
  {
    AndLowBits(x, k);
    LowBitsIsMod(x, k);
  }

  lemma LowBitsStep(x: nat, k: nat)
    requires k > 0
    ensures LowBits(x, k) == 2 * LowBits(x / 2, k - 1) + x % 2
  {
  }

  lemma AndMiddleStep(x: nat, n: nat, m: nat)
    requires 0 < m < n
    ensures Pow2(m) <= Pow2(n)
    ensures And(x, Pow2(n) - Pow2(m)) == 2 * And(x / 2, Pow2(n - 1) - Pow2(m - 1))
  {
    HalveMiddleMask(n, m);
    AndEven(x, Pow2(n) - Pow2(m));
  }

  lemma {:induction false} AndMiddleBits(x: nat, n: nat, m: nat)
    requires m <= n && Pow2(m) <= Pow2(n)
    ensures LowBits(x, m) <= LowBits(x, n)
    ensures And(x, Pow2(n) - Pow2(m)) == LowBits(x, n) - LowBits(x, m)
  {
    if m == 0 {
      assert Pow2(m) == 1 && LowBits(x, m) == 0;
      AndLowBits(x, n);
    } else if n == m {
      assert Pow2(n) - Pow2(m) == 0 && And(x, 0) == 0;
    } else {
      var hn, hm := LowBits(x / 2, n - 1), LowBits(x / 2, m - 1);
      AndMiddleStep(x, n, m);
      Pow2Monotone(m - 1, n - 1);
      AndMiddleBits(x / 2, n - 1, m - 1);
      assert And(x, Pow2(n) - Pow2(m)) == 2 * (hn - hm);
      LowBitsStep(x, n);
      LowBitsStep(x, m);
      assert LowBits(x, n) - LowBits(x, m) == 2 * (hn - hm);
    }
  }

  /**
   * Masking with 2^n - 2^m keeps bits m..n-1: the low n bits with the low m
   * bits cleared.  This is `addr & 0x07FF_FFFE` (n = 27, m = 1) and `x & !1`
   * on a 32-bit word (n = 32, m = 1).
   */
  lemma AndMiddleMask(x: nat, n: nat, m: nat)
    requires m <= n && Pow2(m) <= Pow2(n)
    ensures x % Pow2(m) <= x % Pow2(n)
    ensures And(x, Pow2(n) - Pow2(m)) == x % Pow2(n) - x % Pow2(m)
  {
    AndMiddleBits(x, n, m);
    LowBitsIsMod(x, n);
    LowBitsIsMod(x, m);
  }

  lemma HalveLowMask(k: nat)
    requires k > 0
    ensures (Pow2(k) - 1) % 2 == 1 && (Pow2(k) - 1) / 2 == Pow2(k - 1) - 1
  {
    var p := Pow2(k - 1);
    assert Pow2(k) - 1 == 2 * (p - 1) + 1;
  }

  lemma AndOdd(x: nat, mask: nat)
    requires mask % 2 == 1
    ensures And(x, mask) == 2 * And(x / 2, mask / 2) + x % 2
  {
  }

  lemma HalveMiddleMask(n: nat, m: nat)
    requires 0 < m < n
    ensures Pow2(m) <= Pow2(n)
    ensures (Pow2(n) - Pow2(m)) % 2 == 0 && (Pow2(n) - Pow2(m)) / 2 == Pow2(n - 1) - Pow2(m - 1)
  {
    Pow2Monotone(m, n);
  }

  lemma AndEven(x: nat, mask: nat)
    requires mask % 2 == 0
    ensures And(x, mask) == 2 * And(x / 2, mask / 2)
  {
  }

  /** OR of a value shifted left by k with a value below 2^k is their sum. */
  lemma {:induction false} OrDisjoint(a: nat, b: nat, k: nat)
    requires b < Pow2(k)
    ensures Or(a * Pow2(k), b) == a * Pow2(k) + b
  {
    if k > 0 && a > 0 && b > 0 {
      var x := a * Pow2(k);
      assert x == 2 * (a * Pow2(k - 1));
      assert x / 2 == a * Pow2(k - 1) && x % 2 == 0;
      OrDisjoint(a, b / 2, k - 1);
    }
  }

  // ----- single bits and bit fields ------------------------------------------

  /** Bit i of x. */
  function Bit(x: nat, i: nat): bool
    decreases i
  {
    if i == 0 then x % 2 == 1 else Bit(x / 2, i - 1)
  }

  /** x with bit i replaced by b. */
  function SetBit(x: nat, i: nat, b: bool): nat
    decreases i
  {
    if i == 0 then x - x % 2 + (if b then 1 else 0)
    else 2 * SetBit(x / 2, i - 1, b) + x % 2
  }

  lemma {:induction false} BitOfSetBit(x: nat, i: nat, b: bool)
    ensures Bit(SetBit(x, i, b), i) == b
  {
    if i > 0 {
      BitOfSetBit(x / 2, i - 1, b);
      var y := SetBit(x, i, b);
      assert y / 2 == SetBit(x / 2, i - 1, b);
    }
  }

  lemma {:induction false} BitOfSetBitOther(x: nat, i: nat, j: nat, b: bool)
    requires i != j
    ensures Bit(SetBit(x, i, b), j) == Bit(x, j)
  {
    var y := SetBit(x, i, b);
    if i == 0 {
      assert y / 2 == x / 2;
    } else if j == 0 {
      assert y % 2 == x % 2;
    } else {
      assert y / 2 == SetBit(x / 2, i - 1, b);
      BitOfSetBitOther(x / 2, i - 1, j - 1, b);
    }
  }

  /** Setting a bit below position n keeps a value below 2^n. */
  lemma {:induction false} SetBitBound(x: nat, i: nat, n: nat, b: bool)
    requires i < n && x < Pow2(n)
    ensures SetBit(x, i, b) < Pow2(n)
  {
    var p := Pow2(n - 1);
    assert Pow2(n) == 2 * p;
    assert x / 2 < p;
    if i > 0 {
      SetBitBound(x / 2, i - 1, n - 1, b);
      assert SetBit(x, i, b) == 2 * SetBit(x / 2, i - 1, b) + x % 2;
    } else {
      assert x - x % 2 == 2 * (x / 2);
    }
  }

  /** Setting a bit twice to the same value is setting it once. */
  lemma {:induction false} SetBitTwice(x: nat, i: nat, b: bool)
    ensures SetBit(SetBit(x, i, b), i, b) == SetBit(x, i, b)
  {
    if i > 0 {
      var y := SetBit(x, i, b);
      assert y / 2 == SetBit(x / 2, i - 1, b) && y % 2 == x % 2;
      SetBitTwice(x / 2, i - 1, b);
    }
  }

  /** Writing back the bit a value already has changes nothing. */
  lemma {:induction false} SetBitOfBit(x: nat, i: nat)
    ensures SetBit(x, i, Bit(x, i)) == x
  {
    if i > 0 {
      SetBitOfBit(x / 2, i - 1);
    }
  }

  /** Bit n of a value below 2^(n+1) is set exactly when the value is at least 2^n. */
  lemma {:induction false} TopBit(x: nat, n: nat)
    requires x < Pow2(n + 1)
    ensures Bit(x, n) <==> x >= Pow2(n)
  {
    if n > 0 {
      TopBit(x / 2, n - 1);
    }
  }

  /** The width-bit field of x that starts at bit lo. */
  function Field(x: nat, lo: nat, width: nat): nat
    decreases width
  {
    if width == 0 then 0
    else (if Bit(x, lo) then 1 else 0) + 2 * Field(x, lo + 1, width - 1)
  }

  /** x with its width-bit field at lo replaced by the low width bits of v. */
  function SetField(x: nat, lo: nat, width: nat, v: nat): nat
    decreases width
  {
    if width == 0 then x
    else SetField(SetBit(x, lo, v % 2 == 1), lo + 1, width - 1, v / 2)
  }

  lemma {:induction false} BitOfSetFieldOther(x: nat, lo: nat, width: nat, v: nat, j: nat)
    requires j < lo || j >= lo + width
    ensures Bit(SetField(x, lo, width, v), j) == Bit(x, j)
    decreases width
  {
    if width > 0 {
      var y := SetBit(x, lo, v % 2 == 1);
      BitOfSetFieldOther(y, lo + 1, width - 1, v / 2, j);
      BitOfSetBitOther(x, lo, j, v % 2 == 1);
    }
  }

  lemma {:induction false} FieldOfSetField(x: nat, lo: nat, width: nat, v: nat)
    requires v < Pow2(width)
    ensures Field(SetField(x, lo, width, v), lo, width) == v
    decreases width
  {
    if width > 0 {
      var y := SetBit(x, lo, v % 2 == 1);
      var z := SetField(y, lo + 1, width - 1, v / 2);
      FieldOfSetField(y, lo + 1, width - 1, v / 2);
      BitOfSetFieldOther(y, lo + 1, width - 1, v / 2, lo);
      BitOfSetBit(x, lo, v % 2 == 1);
    }
  }

  /** A field setter only looks at the low width bits of the value it writes. */
  lemma {:induction false} SetFieldLow(x: nat, lo: nat, width: nat, v: nat)
    ensures SetField(x, lo, width, v) == SetField(x, lo, width, v % Pow2(width))
    decreases width
  {
    if width > 0 {
      var w := v % Pow2(width);
      assert w == 2 * ((v / 2) % Pow2(width - 1)) + v % 2 by { ModHalves(v, width); }
      assert w % 2 == v % 2 && w / 2 == (v / 2) % Pow2(width - 1);
      SetFieldLow(SetBit(x, lo, v % 2 == 1), lo + 1, width - 1, v / 2);
    }
  }

  lemma {:induction false} SetFieldBound(x: nat, lo: nat, width: nat, v: nat, n: nat)
    requires lo + width <= n && x < Pow2(n)
    ensures SetField(x, lo, width, v) < Pow2(n)
    decreases width
  {
    if width > 0 {
      SetBitBound(x, lo, n, v % 2 == 1);
      SetFieldBound(SetBit(x, lo, v % 2 == 1), lo + 1, width - 1, v / 2, n);
    }
  }

  // ----- 32-bit arithmetic ---------------------------------------------------

  /** Truncation to 32 bits: Rust's `wrapping_add`/`wrapping_sub` and `as u32`. */
  function Wrap(x: int): u32
  {
    x % WORD
  }

  /** Wrapping an intermediate result does not change the final wrapped value. */
  lemma WrapWrap(x: int, y: int)
    ensures Wrap(Wrap(x) + y) == Wrap(x + y)
  {
    assert Wrap(x) + y == (x + y) + (-(x / WORD)) * WORD;
    ModAddMultiple(x + y, -(x / WORD), WORD);
  }

  /** The two's-complement reading of a 32-bit word (`as i32`). */
  function ToSigned(x: u32): (s: int)
    ensures -0x8000_0000 <= s < 0x8000_0000
    ensures Wrap(s) == x
  {
    if x < 0x8000_0000 then x else x - WORD
  }

  /** Whether a mathematical integer is representable as an `i32`. */
  predicate FitsI32(x: int)
  {
    -0x8000_0000 <= x < 0x8000_0000
  }

  /**
   * Sign extension of a width-bit value to 32 bits: `(v as iN) as u32`, or
   * equally `((v as i32) << (32 - width) >> (32 - width)) as u32`.
   */
  function SignExtend(v: nat, width: nat): (r: u32)
    requires 1 <= width <= 32 && v < Pow2(width)
    ensures ToSigned(r) == if v < Pow2(width - 1) then v else v - Pow2(width)
  {
    Pow2Values();
    Pow2Monotone(width, 32);
    Pow2Monotone(width - 1, 31);
    if v < Pow2(width - 1) then v else v + WORD - Pow2(width)
  }

  /** `x as u8`. */
  function Low8(x: nat): u8
  {
    x % 0x100
  }

  /** `x as u16`. */
  function Low16(x: nat): u16
  {
    x % 0x1_0000
  }

  /** `u16::from_le_bytes([b0, b1])`. */
  function FromLe16(b0: u8, b1: u8): u16
  {
    b0 + 0x100 * b1
  }

  /** `u32::from_le_bytes([b0, b1, b2, b3])`. */
  function FromLe32(b0: u8, b1: u8, b2: u8, b3: u8): u32
  {
    b0 + 0x100 * b1 + 0x1_0000 * b2 + 0x100_0000 * b3
  }

  /** Splitting a word into `v as u8`, `(v >> 8) as u8`, ... and reassembling it gives it back. */
  lemma Le32RoundTrip(v: u32)
    ensures FromLe32(Low8(v), Low8(v / 0x100), Low8(v / 0x1_0000), Low8(v / 0x100_0000)) == v
  {
    var q1 := v / 0x100;
    var q2 := q1 / 0x100;
    var q3 := q2 / 0x100;
    assert v == v % 0x100 + 0x100 * q1;
    assert q1 == q1 % 0x100 + 0x100 * q2;
    assert q2 == q2 % 0x100 + 0x100 * q3;
    assert v / 0x1_0000 == q2 by {
      ModUnique(v, 0x1_0000, q2, v % 0x100 + 0x100 * (q1 % 0x100));
    }
    assert v / 0x100_0000 == q3 by {
      ModUnique(v, 0x100_0000, q3, v % 0x100 + 0x100 * (q1 % 0x100) + 0x1_0000 * (q2 % 0x100));
    }
    assert q3 < 0x100;
  }

  /** Likewise for a halfword: `v as u8`, `(v >> 8) as u8`. */
  lemma Le16RoundTrip(v: u16)
    ensures FromLe16(Low8(v), Low8(v / 0x100)) == v
  {
  }
}
