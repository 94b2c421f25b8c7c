/**
 * The Virtual Boy memory bus.  Addresses are 27 bits wide (the top five bits
 * of a 32-bit address are ignored, so the map repeats every 0x0800_0000
 * bytes) and bits 24..26 select the hardware component:
 *
 *   0 VIP (video) stub    1 VSU (sound) stub    2 miscellaneous hardware
 *   3 unmapped            4 game pak expansion  5 work RAM
 *   6 game pak RAM        7 game pak ROM
 *
 * Each component is reached through a power-of-two mask, which mirrors it
 * across its window.  Which regions an access may touch depends on its width
 * and direction; every other region is a fatal error.
 *
 * Reads are functions of a MemoryImage.  Writes are specified as functions
 * (AfterWrite8/16/32) and carried out in place by the Bus class below.
 */
module MemoryBus {
  import opened Word
  import opened Outcomes
  import opened Mem

  /** The size of the decoded address space, 2^27. */
  const ADDR_SPACE: nat := 0x800_0000

  /** The region (bits 24..26) that a 32-bit address falls in. */
  function RegionOf(addr: u32): nat
  {
    (addr / 0x100_0000) % 8
  }

  // ----- address decoding ----------------------------------------------------

  /** `addr & 0x07FF_FFFF`: the 27 address bits the bus decodes. */
  function Mask27(addr: u32): (a: u32)
    ensures a == addr % ADDR_SPACE
  {
    Pow2Values();
    AndLowMask(addr, 27);
    And(addr, 0x07FF_FFFF)
  }

  /** `addr & 0x07FF_FFFE`: the 27 address bits, halfword-aligned. */
  function Mask27Half(addr: u32): (a: u32)
    ensures a == addr % ADDR_SPACE - addr % 2
  {
    Pow2Values();
    AndMiddleMask(addr, 27, 1);
    And(addr, 0x07FF_FFFE)
  }

  /** `addr & 0x07FF_FFFC`: the 27 address bits, word-aligned. */
  function Mask27Word(addr: u32): (a: u32)
    ensures a == addr % ADDR_SPACE - addr % 4
  {
    Pow2Values();
    AndMiddleMask(addr, 27, 2);
    And(addr, 0x07FF_FFFC)
  }

  /** `a >> 24 & 7`: the component selector of a masked address. */
  function Region(a: nat): (r: nat)
    ensures r == (a / 0x100_0000) % 8
  {
    Pow2Values();
    AndLowMask(a / 0x100_0000, 3);
    And(a / 0x100_0000, 7)
  }

  /** The fixed mirroring masks of RAM and of the two stubs reduce modulo their window. */
  lemma MirrorMasks(x: nat)
    ensures And(x, 0xFFFF) == x % 0x1_0000
    ensures And(x, 0x7_FFFF) == x % 0x8_0000
    ensures And(x, 0x7FF) == x % 0x800
  {
    Pow2Values();
    AndLowMask(x, 16);
    AndLowMask(x, 19);
    AndLowMask(x, 11);
  }

  /** Masking and aligning never move an address out of its region. */
  lemma RegionsAgree(addr: u32)
    ensures Region(Mask27(addr)) == RegionOf(addr)
    ensures Region(Mask27Half(addr)) == RegionOf(addr)
    ensures Region(Mask27Word(addr)) == RegionOf(addr)
  {
    var a, r := Mask27(addr), (addr % ADDR_SPACE) / 0x100_0000;
    assert r < 8 && r % 8 == r && RegionOf(addr) == r by {
      SelectorOfMasked(addr);
    }
    assert Region(a) == r % 8;
    HalfKeepsRegion(addr);
    WordKeepsRegion(addr);
  }

  lemma HalfKeepsRegion(addr: u32)
    ensures Region(Mask27Half(addr)) == RegionOf(addr)
  {
    var h, y := Mask27Half(addr), addr % ADDR_SPACE;
    var r := y / 0x100_0000;
    assert r < 8 && r % 8 == r && RegionOf(addr) == r by {
      SelectorOfMasked(addr);
    }
    assert h / 0x100_0000 == r by {
      assert h == y - y % 2 by {
        ModOfMod(addr, 2, 0x400_0000);
      }
      AlignKeepsSelector(y, 2);
    }
    assert Region(h) == r % 8;
  }

  lemma WordKeepsRegion(addr: u32)
    ensures Region(Mask27Word(addr)) == RegionOf(addr)
  {
    var w, y := Mask27Word(addr), addr % ADDR_SPACE;
    var r := y / 0x100_0000;
    assert r < 8 && r % 8 == r && RegionOf(addr) == r by {
      SelectorOfMasked(addr);
    }
    assert w / 0x100_0000 == r by {
      assert w == y - y % 4 by {
        ModOfMod(addr, 4, 0x200_0000);
      }
      AlignKeepsSelector(y, 4);
    }
    assert Region(w) == r % 8;
  }

  /** The selector of an address is the top three of its 27 decoded bits. */
  lemma SelectorOfMasked(addr: nat)
    ensures var r := (addr % ADDR_SPACE) / 0x100_0000;
      r < 8 && r % 8 == r && (addr / 0x100_0000) % 8 == r
  {
    var y := addr % ADDR_SPACE;
    var q := addr / ADDR_SPACE;
    var r := y / 0x100_0000;
    assert addr == (q * 8 + r) * 0x100_0000 + y % 0x100_0000;
    ModUnique(addr, 0x100_0000, q * 8 + r, y % 0x100_0000);
    ModUnique(addr / 0x100_0000, 8, q, r);
    ModUnique(r, 8, 0, r);
  }

  lemma AlignKeepsSelector(y: nat, d: nat)
    requires d in {2, 4}
    ensures y % d <= y && (y - y % d) / 0x100_0000 == y / 0x100_0000
  {
    var k := 0x100_0000 / d;
    assert d * k == 0x100_0000;
    ModOfMod(y, d, k);
    ModUnique(y - y % d, 0x100_0000, y / 0x100_0000, y % 0x100_0000 - y % d);
  }

  // ----- little-endian access to a backing array -------------------------------

  /** `u16::from_le_bytes([s[i], s[i + 1]])`, indexing checked as in Rust. */
  function Le16At(s: seq<u8>, i: nat): (r: Result<u16>)
    ensures r.Ok? <==> i + 1 < |s|
    ensures r.Ok? ==> r.value == FromLe16(s[i], s[i + 1])
    ensures r.Err? ==> r.fault == IndexOutOfRange(if i < |s| then i + 1 else i, |s|)
  {
    var b0 :- Peek(s, i);
    var b1 :- Peek(s, i + 1);
    Ok(FromLe16(b0, b1))
  }

  /** `u32::from_le_bytes([s[i], .., s[i + 3]])`, indexing checked as in Rust. */
  function Le32At(s: seq<u8>, i: nat): (r: Result<u32>)
    ensures r.Ok? <==> i + 3 < |s|
    ensures r.Ok? ==> r.value == FromLe32(s[i], s[i + 1], s[i + 2], s[i + 3])
    ensures r.Err? ==> r.fault == IndexOutOfRange(if i < |s| then |s| else i, |s|)
  {
    var b0 :- Peek(s, i);
    var b1 :- Peek(s, i + 1);
    var b2 :- Peek(s, i + 2);
    var b3 :- Peek(s, i + 3);
    Ok(FromLe32(b0, b1, b2, b3))
  }

  // ----- reads -----------------------------------------------------------------

  /** `Bus::read8`: RAM and ROM only. */
  function Read8(m: MemoryImage, addr: u32): (r: Result<u8>)
    ensures (r.Err? && r.fault.UnmappedRead?) <==> RegionOf(addr) !in {5, 7}
    ensures RegionOf(addr) !in {5, 7} ==> r.fault == UnmappedRead(8, addr % ADDR_SPACE)
  {
    RegionsAgree(addr);
    var a := Mask27(addr);
    match Region(a)
    case 5 => Peek(m.ram, And(a, 0xFFFF))
    case 7 => Peek(m.rom, And(a, m.romMask))
    case _ => Err(UnmappedRead(8, a))
  }

  /** `Bus::read16`: the VIP stub and ROM only (there is no RAM case). */
  function Read16(m: MemoryImage, addr: u32): (r: Result<u16>)
    ensures (r.Err? && r.fault.UnmappedRead?) <==> RegionOf(addr) !in {0, 7}
    ensures RegionOf(addr) !in {0, 7} ==> r.fault == UnmappedRead(16, addr % ADDR_SPACE - addr % 2)
  {
    RegionsAgree(addr);
    var a := Mask27Half(addr);
    match Region(a)
    case 0 => Le16At(m.vip, And(a, 0x7_FFFF))
    case 7 => Le16At(m.rom, And(a, m.romMask))
    case _ => Err(UnmappedRead(16, a))
  }

  /** `Bus::read32`: the VIP stub, RAM and ROM. */
  function Read32(m: MemoryImage, addr: u32): (r: Result<u32>)
    ensures (r.Err? && r.fault.UnmappedRead?) <==> RegionOf(addr) !in {0, 5, 7}
    ensures RegionOf(addr) !in {0, 5, 7} ==> r.fault == UnmappedRead(32, addr % ADDR_SPACE - addr % 4)
  {
    var a := Mask27Word(addr);
    assert Region(a) == RegionOf(addr) && a == addr % ADDR_SPACE - addr % 4 by { RegionsAgree(addr); }
    match Region(a)
    case 0 => Le32At(m.vip, And(a, 0x7_FFFF))
    case 5 => Le32At(m.ram, And(a, 0xFFFF))
    case 7 => Le32At(m.rom, And(a, m.romMask))
    case _ => Err(UnmappedRead(32, a))
  }

  // ----- writes, as functions of the image ---------------------------------------

  /**
   * The two bytes of `val` stored little-endian at `a & mask` and
   * `(a + 1) & mask`: each byte index is wrapped by the mask on its own.
   */
  function Store16At(s: seq<u8>, a: nat, mask: nat, val: u16): (r: Result<seq<u8>>)
    ensures r.Ok? ==> |r.value| == |s|
  {
    var s :- Poke(s, And(a, mask), Low8(val));
    Poke(s, And(a + 1, mask), Low8(val / 0x100))
  }

  /** The four bytes of `val` stored little-endian at `(a + k) & mask`, k = 0..3. */
  function Store32At(s: seq<u8>, a: nat, mask: nat, val: u32): (r: Result<seq<u8>>)
    ensures r.Ok? ==> |r.value| == |s|
  {
    var s :- Poke(s, And(a, mask), Low8(val));
    var s :- Poke(s, And(a + 1, mask), Low8(val / 0x100));
    var s :- Poke(s, And(a + 2, mask), Low8(val / 0x1_0000));
    Poke(s, And(a + 3, mask), Low8(val / 0x100_0000))
  }

  /** The image after `Bus::write8`: the VIP stub and RAM only. */
  function AfterWrite8(m: MemoryImage, addr: u32, val: u8): (r: Result<MemoryImage>)
    ensures (r.Err? && r.fault.UnmappedWrite?) <==> RegionOf(addr) !in {0, 5}
    ensures RegionOf(addr) !in {0, 5} ==> r.fault == UnmappedWrite(8, addr % ADDR_SPACE)
    ensures r.Ok? ==> Valid(m) ==> Valid(r.value)
    ensures r.Ok? ==> r.value.rom == m.rom && r.value.romMask == m.romMask && r.value.vsu == m.vsu
    ensures r.Ok? && RegionOf(addr) == 0 ==> r.value.ram == m.ram
    ensures r.Ok? && RegionOf(addr) == 5 ==> r.value.vip == m.vip
  {
    RegionsAgree(addr);
    var a := Mask27(addr);
    match Region(a)
    case 0 =>
      var vip :- Poke(m.vip, And(a, 0x7_FFFF), val);
      Ok(m.(vip := vip))
    case 5 =>
      var ram :- Poke(m.ram, And(a, 0xFFFF), val);
      Ok(m.(ram := ram))
    case _ => Err(UnmappedWrite(8, a))
  }

  /** The image after `Bus::write16`: the VIP stub and RAM only; the address is not aligned. */
  function AfterWrite16(m: MemoryImage, addr: u32, val: u16): (r: Result<MemoryImage>)
    ensures (r.Err? && r.fault.UnmappedWrite?) <==> RegionOf(addr) !in {0, 5}
    ensures RegionOf(addr) !in {0, 5} ==> r.fault == UnmappedWrite(16, addr % ADDR_SPACE)
    ensures r.Ok? ==> Valid(m) ==> Valid(r.value)
    ensures r.Ok? ==> r.value.rom == m.rom && r.value.romMask == m.romMask && r.value.vsu == m.vsu
    ensures r.Ok? && RegionOf(addr) == 0 ==> r.value.ram == m.ram
    ensures r.Ok? && RegionOf(addr) == 5 ==> r.value.vip == m.vip
  {
    RegionsAgree(addr);
    var a := Mask27(addr);
    match Region(a)
    case 0 =>
      var vip :- Store16At(m.vip, a, 0x7_FFFF, val);
      Ok(m.(vip := vip))
    case 5 =>
      var ram :- Store16At(m.ram, a, 0xFFFF, val);
      Ok(m.(ram := ram))
    case _ => Err(UnmappedWrite(16, a))
  }

  /**
   * The image after `Bus::write32`: the VIP and VSU stubs, the miscellaneous
   * hardware (accepted and dropped) and RAM; the address is not aligned.
   */
  function AfterWrite32(m: MemoryImage, addr: u32, val: u32): (r: Result<MemoryImage>)
    ensures (r.Err? && r.fault.UnmappedWrite?) <==> RegionOf(addr) !in {0, 1, 2, 5}
    ensures RegionOf(addr) !in {0, 1, 2, 5} ==> r.fault == UnmappedWrite(32, addr % ADDR_SPACE)
    ensures RegionOf(addr) == 2 ==> r == Ok(m)
    ensures r.Ok? ==> Valid(m) ==> Valid(r.value)
    ensures r.Ok? ==> r.value.rom == m.rom && r.value.romMask == m.romMask
    ensures r.Ok? && RegionOf(addr) != 0 ==> r.value.vip == m.vip
    ensures r.Ok? && RegionOf(addr) != 1 ==> r.value.vsu == m.vsu
    ensures r.Ok? && RegionOf(addr) != 5 ==> r.value.ram == m.ram
  {
    RegionsAgree(addr);
    var a := Mask27(addr);
    match Region(a)
    case 0 =>
      var vip :- Store32At(m.vip, a, 0x7_FFFF, val);
      Ok(m.(vip := vip))
    case 1 =>
      var vsu :- Store32At(m.vsu, a, 0x7FF, val);
      Ok(m.(vsu := vsu))
    case 2 => Ok(m)
    case 5 =>
      var ram :- Store32At(m.ram, a, 0xFFFF, val);
      Ok(m.(ram := ram))
    case _ => Err(UnmappedWrite(32, a))
  }

  // ----- properties of the decoder -----------------------------------------------

  /** The three address masks see only the low 27 bits. */
  lemma MasksIgnoreHighBits(addr: u32, k: int)
    requires 0 <= addr + k * ADDR_SPACE < WORD
    ensures Mask27(addr + k * ADDR_SPACE) == Mask27(addr)
    ensures Mask27Half(addr + k * ADDR_SPACE) == Mask27Half(addr)
    ensures Mask27Word(addr + k * ADDR_SPACE) == Mask27Word(addr)
  {
    var b := addr + k * ADDR_SPACE;
    assert b % ADDR_SPACE == addr % ADDR_SPACE by { ModAddMultiple(addr, k, ADDR_SPACE); }
    assert b % 2 == addr % 2 by { ShiftKeepsResidue(addr, b, k, ADDR_SPACE, 2); }
    assert b % 4 == addr % 4 by { ShiftKeepsResidue(addr, b, k, ADDR_SPACE, 4); }
    assert Mask27(b) == b % ADDR_SPACE;
    assert Mask27Half(b) == b % ADDR_SPACE - b % 2;
    assert Mask27Word(b) == b % ADDR_SPACE - b % 4;
  }

  /**
   * The 32-bit address space mirrors the 27-bit map: `addr` and
   * `addr + k * 0x0800_0000` reach the same byte for every read and write.
   */
  lemma AddressMirroring(m: MemoryImage, addr: u32, k: int, v8: u8, v16: u16, v32: u32)
    requires 0 <= addr + k * ADDR_SPACE < WORD
    ensures Read8(m, addr + k * ADDR_SPACE) == Read8(m, addr)
    ensures Read16(m, addr + k * ADDR_SPACE) == Read16(m, addr)
    ensures Read32(m, addr + k * ADDR_SPACE) == Read32(m, addr)
    ensures AfterWrite8(m, addr + k * ADDR_SPACE, v8) == AfterWrite8(m, addr, v8)
    ensures AfterWrite16(m, addr + k * ADDR_SPACE, v16) == AfterWrite16(m, addr, v16)
    ensures AfterWrite32(m, addr + k * ADDR_SPACE, v32) == AfterWrite32(m, addr, v32)
  {
    MasksIgnoreHighBits(addr, k);
  }

  /** With windows d | p | mm: (x % mm - x % d) % p == x % p - x % d. */
  lemma NestedModulus(x: nat, d: nat, p: nat, mm: nat)
    requires d > 0 && p > 0 && mm > 0 && p % d == 0 && mm % p == 0 && mm % d == 0
    ensures x % d <= x % p && x % d <= x % mm
    ensures (x % mm - x % d) % p == x % p - x % d
  {
    var y := x % mm;
    ModOfModDivisor(x, p, mm);
    ModOfModDivisor(x, d, p);
    ModOfModDivisor(x, d, mm);
    ModAtMost(x % p, d);
    ModAtMost(y, d);
    var q := y / p;
    assert y == q * p + x % p;
    var r := x % p - x % d;
    assert 0 <= r < p;
    assert y - x % d == q * p + r;
    ModUnique(y - x % d, p, q, r);
  }

  /**
   * Dropping the high bits and the low ones, then reducing modulo a window n
   * (with d | n | 2^27), leaves the address modulo the window aligned down to
   * d, and an access of d bytes from there stays inside the window.
   */
  lemma AlignedInWindow(x: nat, d: nat, n: nat)
    requires d > 0 && ADDR_SPACE % d == 0 && n > 0 && n % d == 0 && ADDR_SPACE % n == 0
    ensures x % d <= x % n && x % d <= x % ADDR_SPACE
    ensures (x % ADDR_SPACE - x % d) % n == x % n - x % d
    ensures x % n - x % d + d <= n
  {
    NestedModulus(x, d, n, ADDR_SPACE);
    var j := n / d;
    assert n == d * j;
    ModOfModDivisor(x, d, n);
    AlignedBelow(x % n, d, j);
  }

  lemma AlignedBelow(y: nat, d: nat, n: nat)
    requires d > 0 && y < d * n
    ensures y % d <= y && y - y % d + d <= d * n
  {
    var q := y / d;
    assert y == q * d + y % d;
    if q + 1 > n {
      MulMonotone(n, q, d);
      assert false;
    }
    MulMonotone(q + 1, n, d);
  }

  lemma MulMonotone(a: nat, b: nat, d: nat)
    requires a <= b
    ensures a * d <= b * d
  {}

  /** Reducing the address first changes no window index: (x % mm + k) % p == (x + k) % p. */
  lemma ModWindow(x: nat, k: nat, p: nat, mm: nat)
    requires p > 0 && mm > 0 && mm % p == 0
    ensures (x % mm + k) % p == (x + k) % p
  {
    var y := x % mm;
    ModOfModDivisor(x, p, mm);
    assert y == (y / p) * p + x % p;
    ModAddMultiple(x % p + k, y / p, p);
    assert x + k == (x / p) * p + (x % p + k);
    ModAddMultiple(x % p + k, x / p, p);
  }

  /**
   * Work RAM, as the reads see it: a byte at the address modulo 0x1_0000, a
   * word at that offset aligned down to 4.  The last offset 0xFFFF passes the
   * mask but is past the end of the 0xFFFF-byte array, so a word read at
   * offset 0xFFFC faults.  Halfword reads of RAM are not supported at all.
   */
  lemma RamReads(m: MemoryImage, addr: u32)
    requires Valid(m) && RegionOf(addr) == 5
    ensures Read8(m, addr) == Peek(m.ram, addr % 0x1_0000)
    ensures Read16(m, addr) == Err(UnmappedRead(16, addr % ADDR_SPACE - addr % 2))
    ensures addr % 4 <= addr % 0x1_0000
    ensures Read32(m, addr) == Le32At(m.ram, addr % 0x1_0000 - addr % 4)
    ensures Read32(m, addr).Ok? <==> addr % 0x1_0000 < 0xFFFC
  {
    var a := Mask27(addr);
    var w := Mask27Word(addr);
    var o := addr % 0x1_0000;
    assert Region(a) == 5 && Region(w) == 5 by { RegionsAgree(addr); }
    assert And(a, 0xFFFF) == o && addr % 4 <= o && And(w, 0xFFFF) == o - addr % 4 by {
      RamOffsets(addr);
    }
    assert o - addr % 4 < 0xFFFC <==> o < 0xFFFC by {
      ModOfModDivisor(addr, 4, 0x1_0000);
      AlignDownBelow(o, 0x3FFF);
    }
  }

  /**
   * The video stub, as halfword reads see it: the address modulo the
   * 0x8_0000-byte window aligned down to 2, always inside the array, so these
   * reads never fault.
   */
  lemma VipRead16(m: MemoryImage, addr: u32)
    requires Valid(m) && RegionOf(addr) == 0
    ensures addr % 2 <= addr % 0x8_0000
    ensures Read16(m, addr) == Le16At(m.vip, addr % 0x8_0000 - addr % 2)
    ensures Read16(m, addr).Ok?
  {
    var h, i := Mask27Half(addr), addr % 0x8_0000 - addr % 2;
    assert Region(h) == 0 && And(h, 0x7_FFFF) == i && i + 1 < |m.vip| by {
      RegionsAgree(addr);
      VipHalfIndex(addr);
    }
    assert Read16(m, addr) == Le16At(m.vip, i);
  }

  /** Word reads of the video stub: aligned down to 4 within the window, never faulting. */
  lemma VipRead32(m: MemoryImage, addr: u32)
    requires Valid(m) && RegionOf(addr) == 0
    ensures addr % 4 <= addr % 0x8_0000
    ensures Read32(m, addr) == Le32At(m.vip, addr % 0x8_0000 - addr % 4)
    ensures Read32(m, addr).Ok?
  {
    var w, i := Mask27Word(addr), addr % 0x8_0000 - addr % 4;
    assert Region(w) == 0 && And(w, 0x7_FFFF) == i && i + 3 < |m.vip| by {
      RegionsAgree(addr);
      VipWordIndex(addr);
    }
    assert Read32(m, addr) == Le32At(m.vip, i);
    assert Le32At(m.vip, i).Ok?;
  }

  /** The video-stub index that a halfword access selects. */
  lemma VipHalfIndex(addr: u32)
    ensures addr % 2 <= addr % 0x8_0000 && addr % 0x8_0000 - addr % 2 + 2 <= 0x8_0000
    ensures And(addr % ADDR_SPACE - addr % 2, 0x7_FFFF) == addr % 0x8_0000 - addr % 2
  {
    var x := addr % ADDR_SPACE - addr % 2;
    AlignedInWindow(addr, 2, 0x8_0000);
    MirrorMasks(x);
  }

  /** The video-stub index that a word access selects. */
  lemma VipWordIndex(addr: u32)
    ensures addr % 4 <= addr % 0x8_0000 && addr % 0x8_0000 - addr % 4 + 4 <= 0x8_0000
    ensures And(addr % ADDR_SPACE - addr % 4, 0x7_FFFF) == addr % 0x8_0000 - addr % 4
  {
    var x := addr % ADDR_SPACE - addr % 4;
    AlignedInWindow(addr, 4, 0x8_0000);
    MirrorMasks(x);
  }


  /** The RAM offsets that the byte and word masks select. */
  lemma RamOffsets(addr: u32)
    ensures And(Mask27(addr), 0xFFFF) == addr % 0x1_0000
    ensures addr % 4 <= addr % 0x1_0000
    ensures And(Mask27Word(addr), 0xFFFF) == addr % 0x1_0000 - addr % 4
  {
    MirrorMasks(Mask27(addr));
    MirrorMasks(Mask27Word(addr));
    ModOfModDivisor(addr, 0x1_0000, ADDR_SPACE);
    AlignedInWindow(addr, 4, 0x1_0000);
  }

  /** Aligning down to 4 keeps an offset below a multiple of 4 exactly when it was below. */
  lemma AlignDownBelow(o: nat, j: nat)
    ensures o - o % 4 < 4 * j <==> o < 4 * j
  {
    var q := o / 4;
    assert o - o % 4 == 4 * q;
    if o >= 4 * j {
      assert 4 * q + 3 >= 4 * j;
      assert q >= j;
    }
  }

  /**
   * Cartridge ROM, as byte reads see it (for a ROM of at least 4 bytes that
   * fits the 27-bit space): the byte at the address modulo the ROM length.
   */
  lemma RomRead8(m: MemoryImage, addr: u32)
    requires Valid(m) && RegionOf(addr) == 7
    requires 4 <= |m.rom| <= ADDR_SPACE
    ensures addr % |m.rom| < |m.rom|
    ensures Read8(m, addr) == Ok(m.rom[addr % |m.rom|])
  {
    var n := |m.rom|;
    var a := Mask27(addr);
    assert Region(a) == 7 by { RegionsAgree(addr); }
    assert And(a, m.romMask) == addr % n < n by {
      RomWindow(m);
      RomMaskIsModulo(m, a);
      ModOfModDivisor(addr, n, ADDR_SPACE);
    }
  }

  /**
   * Halfword reads of ROM: the address modulo the ROM length aligned down to
   * 2, always inside the ROM, assembled little-endian.
   */
  lemma RomRead16(m: MemoryImage, addr: u32)
    requires Valid(m) && RegionOf(addr) == 7
    requires 4 <= |m.rom| <= ADDR_SPACE
    ensures addr % 2 <= addr % |m.rom| && addr % |m.rom| - addr % 2 + 1 < |m.rom|
    ensures var i := addr % |m.rom| - addr % 2;
      Read16(m, addr) == Ok(FromLe16(m.rom[i], m.rom[i + 1]))
  {
    var n := |m.rom|;
    var h := Mask27Half(addr);
    assert Region(h) == 7 by { RegionsAgree(addr); }
    assert addr % 2 <= addr % n && addr % n - addr % 2 + 1 < n
        && And(h, m.romMask) == addr % n - addr % 2 by {
      RomWindow(m);
      RomMaskIsModulo(m, h);
      AlignedInWindow(addr, 2, n);
    }
  }

  /**
   * Word reads of ROM: the address modulo the ROM length aligned down to 4,
   * always inside the ROM, assembled little-endian.
   */
  lemma RomRead32(m: MemoryImage, addr: u32)
    requires Valid(m) && RegionOf(addr) == 7
    requires 4 <= |m.rom| <= ADDR_SPACE
    ensures addr % 4 <= addr % |m.rom| && addr % |m.rom| - addr % 4 + 3 < |m.rom|
    ensures var i := addr % |m.rom| - addr % 4;
      Read32(m, addr) == Ok(FromLe32(m.rom[i], m.rom[i + 1], m.rom[i + 2], m.rom[i + 3]))
  {
    var n := |m.rom|;
    var w := Mask27Word(addr);
    assert Region(w) == 7 by { RegionsAgree(addr); }
    assert addr % 4 <= addr % n && addr % n - addr % 4 + 3 < n
        && And(w, m.romMask) == addr % n - addr % 4 by {
      RomWindow(m);
      RomMaskIsModulo(m, w);
      AlignedInWindow(addr, 4, n);
    }
  }

  /** A valid ROM of 4 to 2^27 bytes is a multiple of 4 that divides the address space. */
  lemma RomWindow(m: MemoryImage)
    requires Valid(m) && 4 <= |m.rom| <= ADDR_SPACE
    ensures |m.rom| % 4 == 0 && |m.rom| % 2 == 0 && ADDR_SPACE % |m.rom| == 0
  {
    var r: nat :| Pow2(r) == |m.rom|;
    Pow2Values();
    assert Pow2(28) == 2 * Pow2(27);
    if r < 2 {
      Pow2Monotone(r, 1);
    } else if r > 27 {
      Pow2Monotone(28, r);
    }
    Pow2Divides(1, r);
    Pow2Divides(2, r);
    Pow2Divides(r, 27);
  }

  /**
   * ROM mirroring: two ROM-region addresses that differ by a multiple of the
   * ROM length read the same byte, halfword and word.
   */
  lemma RomMirroring(m: MemoryImage, a: u32, b: u32, k: int)
    requires Valid(m) && RegionOf(a) == 7 && RegionOf(b) == 7
    requires 4 <= |m.rom| <= ADDR_SPACE
    requires b == a + k * |m.rom|
    ensures Read8(m, a) == Read8(m, b)
    ensures Read16(m, a) == Read16(m, b)
    ensures Read32(m, a) == Read32(m, b)
  {
    var n := |m.rom|;
    RomWindow(m);
    ShiftKeepsResidue(a, b, k, n, n);
    ShiftKeepsResidue(a, b, k, n, 2);
    ShiftKeepsResidue(a, b, k, n, 4);
    RomRead8(m, a);
    RomRead8(m, b);
    RomRead16(m, a);
    RomRead16(m, b);
    assert a % n - a % 2 == b % n - b % 2;
    RomRead32(m, a);
    RomRead32(m, b);
    assert a % n - a % 4 == b % n - b % 4;
  }

  lemma ShiftKeepsResidue(a: nat, b: nat, k: int, n: nat, d: nat)
    requires d > 0 && n % d == 0 && b == a + k * n
    ensures b % d == a % d
  {
    var j := n / d;
    assert n == j * d;
    assert k * n == (k * j) * d;
    ModAddMultiple(a, k * j, d);
  }

  /** An offset past the end of the 0x1_0000 window, wrapped back to its start. */
  function RamWrap(i: nat): nat
  {
    if i < 0x1_0000 then i else i - 0x1_0000
  }

  /** The byte index that `(a + k) & 0xFFFF` selects for a RAM address, k = 0..3. */
  lemma RamIndex(addr: u32, k: nat)
    requires k < 4
    ensures And(Mask27(addr) + k, 0xFFFF) == RamWrap(addr % 0x1_0000 + k)
  {
    var o := addr % 0x1_0000;
    MirrorMasks(Mask27(addr) + k);
    ModWindow(addr, k, 0x1_0000, ADDR_SPACE);
    ModWindow(addr, k, 0x1_0000, 0x1_0000);
    if o + k < 0x1_0000 {
      ModUnique(o + k, 0x1_0000, 0, o + k);
    } else {
      ModUnique(o + k, 0x1_0000, 1, o + k - 0x1_0000);
    }
  }

  /** The byte indices that `(a + k) & 0x7FFFF` and `(a + k) & 0x7FF` select in the stubs. */
  lemma StubIndex(addr: u32, k: nat)
    ensures And(Mask27(addr) + k, 0x7_FFFF) == (addr + k) % 0x8_0000
    ensures And(Mask27(addr) + k, 0x7FF) == (addr + k) % 0x800
  {
    MirrorMasks(Mask27(addr) + k);
    ModWindow(addr, k, 0x8_0000, ADDR_SPACE);
    ModWindow(addr, k, 0x800, ADDR_SPACE);
  }

  /** Store16At once the two masked byte indices are known. */
  lemma Store16Known(s: seq<u8>, a: nat, mask: nat, v: u16, i0: nat, i1: nat)
    requires And(a, mask) == i0 && And(a + 1, mask) == i1
    ensures Store16At(s, a, mask, v) ==
      if i0 >= |s| then Err(IndexOutOfRange(i0, |s|))
      else if i1 >= |s| then Err(IndexOutOfRange(i1, |s|))
      else Ok(s[i0 := Low8(v)][i1 := Low8(v / 0x100)])
  {
  }

  /** Store32At once the four masked byte indices are known. */
  lemma Store32Known(s: seq<u8>, a: nat, mask: nat, v: u32, i0: nat, i1: nat, i2: nat, i3: nat)
    requires And(a, mask) == i0 && And(a + 1, mask) == i1
    requires And(a + 2, mask) == i2 && And(a + 3, mask) == i3
    ensures Store32At(s, a, mask, v) ==
      if i0 >= |s| then Err(IndexOutOfRange(i0, |s|))
      else if i1 >= |s| then Err(IndexOutOfRange(i1, |s|))
      else if i2 >= |s| then Err(IndexOutOfRange(i2, |s|))
      else if i3 >= |s| then Err(IndexOutOfRange(i3, |s|))
      else Ok(s[i0 := Low8(v)][i1 := Low8(v / 0x100)][i2 := Low8(v / 0x1_0000)][i3 := Low8(v / 0x100_0000)])
  {
  }

  /**
   * A byte written to work RAM lands at the address modulo 0x1_0000; offset
   * 0xFFFF passes the mask but is past the end of the array and faults.
   */
  lemma RamWrite8(m: MemoryImage, addr: u32, v: u8)
    requires Valid(m) && RegionOf(addr) == 5
    ensures var o := addr % 0x1_0000;
      AfterWrite8(m, addr, v) ==
        if o < 0xFFFF then Ok(m.(ram := m.ram[o := v]))
        else Err(IndexOutOfRange(0xFFFF, RAM_SIZE))
  {
    var a := Mask27(addr);
    var o := addr % 0x1_0000;
    assert Region(a) == 5 by { RegionsAgree(addr); }
    assert And(a, 0xFFFF) == o by { RamIndex(addr, 0); }
    var st := Poke(m.ram, o, v);
    assert AfterWrite8(m, addr, v) == if st.Ok? then Ok(m.(ram := st.value)) else Err(st.fault);
  }

  /**
   * A halfword written to work RAM: the address is not aligned, and each byte
   * index is wrapped by the mask on its own, so the write succeeds exactly
   * when neither byte lands on offset 0xFFFF.
   */
  lemma RamWrite16(m: MemoryImage, addr: u32, v: u16)
    requires Valid(m) && RegionOf(addr) == 5
    ensures var o := addr % 0x1_0000;
      AfterWrite16(m, addr, v) ==
        if o < 0xFFFE then Ok(m.(ram := m.ram[o := Low8(v)][o + 1 := Low8(v / 0x100)]))
        else Err(IndexOutOfRange(0xFFFF, RAM_SIZE))
  {
    var a := Mask27(addr);
    var o := addr % 0x1_0000;
    assert Region(a) == 5 by { RegionsAgree(addr); }
    var st := Store16At(m.ram, a, 0xFFFF, v);
    assert st == if o < 0xFFFE then Ok(m.ram[o := Low8(v)][o + 1 := Low8(v / 0x100)])
                 else Err(IndexOutOfRange(0xFFFF, RAM_SIZE)) by {
      RamIndex(addr, 0);
      RamIndex(addr, 1);
      RamStore16(m.ram, a, o, v);
    }
    assert AfterWrite16(m, addr, v) == if st.Ok? then Ok(m.(ram := st.value)) else Err(st.fault);
  }

  /**
   * A word written to work RAM: unaligned, each of the four byte indices
   * wrapped on its own; it succeeds exactly when no byte lands on 0xFFFF.
   */
  lemma RamWrite32(m: MemoryImage, addr: u32, v: u32)
    requires Valid(m) && RegionOf(addr) == 5
    ensures var o := addr % 0x1_0000;
      AfterWrite32(m, addr, v) ==
        if o < 0xFFFC then
          Ok(m.(ram := m.ram[o := Low8(v)][o + 1 := Low8(v / 0x100)]
                            [o + 2 := Low8(v / 0x1_0000)][o + 3 := Low8(v / 0x100_0000)]))
        else Err(IndexOutOfRange(0xFFFF, RAM_SIZE))
  {
    assert Region(Mask27(addr)) == 5 by { RegionsAgree(addr); }
    RamStore32Addr(m.ram, addr, v);
  }

  lemma RamStore16(s: seq<u8>, a: nat, o: nat, v: u16)
    requires |s| == RAM_SIZE && o < 0x1_0000
    requires And(a, 0xFFFF) == o && And(a + 1, 0xFFFF) == RamWrap(o + 1)
    ensures Store16At(s, a, 0xFFFF, v) ==
      if o < 0xFFFE then Ok(s[o := Low8(v)][o + 1 := Low8(v / 0x100)])
      else Err(IndexOutOfRange(0xFFFF, RAM_SIZE))
  {
    if o < 0xFFFE {
      Store16Known(s, a, 0xFFFF, v, o, o + 1);
    } else if o == 0xFFFE {
      Store16Known(s, a, 0xFFFF, v, 0xFFFE, 0xFFFF);
    } else {
      Store16Known(s, a, 0xFFFF, v, 0xFFFF, 0);
    }
  }

  lemma RamIndices(addr: u32)
    ensures var a, o := Mask27(addr), addr % 0x1_0000;
      && And(a, 0xFFFF) == o && And(a + 1, 0xFFFF) == RamWrap(o + 1)
      && And(a + 2, 0xFFFF) == RamWrap(o + 2) && And(a + 3, 0xFFFF) == RamWrap(o + 3)
  {
    RamIndex(addr, 0);
    RamIndex(addr, 1);
    RamIndex(addr, 2);
    RamIndex(addr, 3);
  }

  /** The four byte indices of a word store into RAM, as offsets of the 0x1_0000 window. */
  lemma RamStore32Addr(s: seq<u8>, addr: u32, v: u32)
    requires |s| == RAM_SIZE
    ensures var o := addr % 0x1_0000;
      Store32At(s, Mask27(addr), 0xFFFF, v) ==
        if o < 0xFFFC then
          Ok(s[o := Low8(v)][o + 1 := Low8(v / 0x100)][o + 2 := Low8(v / 0x1_0000)][o + 3 := Low8(v / 0x100_0000)])
        else Err(IndexOutOfRange(0xFFFF, RAM_SIZE))
  {
    var a, o := Mask27(addr), addr % 0x1_0000;
    assert And(a, 0xFFFF) == o && And(a + 1, 0xFFFF) == RamWrap(o + 1)
        && And(a + 2, 0xFFFF) == RamWrap(o + 2) && And(a + 3, 0xFFFF) == RamWrap(o + 3) by {
      RamIndices(addr);
    }
    RamStore32(s, a, o, v);
  }

  lemma RamStore32(s: seq<u8>, a: nat, o: nat, v: u32)
    requires |s| == RAM_SIZE && o < 0x1_0000
    requires And(a, 0xFFFF) == o && And(a + 1, 0xFFFF) == RamWrap(o + 1)
    requires And(a + 2, 0xFFFF) == RamWrap(o + 2) && And(a + 3, 0xFFFF) == RamWrap(o + 3)
    ensures Store32At(s, a, 0xFFFF, v) ==
      if o < 0xFFFC then
        Ok(s[o := Low8(v)][o + 1 := Low8(v / 0x100)][o + 2 := Low8(v / 0x1_0000)][o + 3 := Low8(v / 0x100_0000)])
      else Err(IndexOutOfRange(0xFFFF, RAM_SIZE))
  {
    if o < 0xFFFC {
      Store32Known(s, a, 0xFFFF, v, o, o + 1, o + 2, o + 3);
    } else if o == 0xFFFC {
      Store32Known(s, a, 0xFFFF, v, 0xFFFC, 0xFFFD, 0xFFFE, 0xFFFF);
    } else if o == 0xFFFD {
      Store32Known(s, a, 0xFFFF, v, 0xFFFD, 0xFFFE, 0xFFFF, 0);
    } else if o == 0xFFFE {
      Store32Known(s, a, 0xFFFF, v, 0xFFFE, 0xFFFF, 0, 1);
    } else {
      Store32Known(s, a, 0xFFFF, v, 0xFFFF, 0, 1, 2);
    }
  }

  /**
   * Writes to the video stub never leave its array: byte k of the value goes
   * to index (addr + k) modulo the 0x8_0000-byte window.  Byte writes:
   */
  lemma VipWrite8(m: MemoryImage, addr: u32, v: u8)
    requires Valid(m) && RegionOf(addr) == 0
    ensures AfterWrite8(m, addr, v) == Ok(m.(vip := m.vip[addr % 0x8_0000 := v]))
  {
    var a := Mask27(addr);
    assert Region(a) == 0 by { RegionsAgree(addr); }
    assert And(a, 0x7_FFFF) == addr % 0x8_0000 by { StubIndex(addr, 0); }
  }

  /** Halfword writes to the video stub, each byte index wrapped on its own. */
  lemma VipWrite16(m: MemoryImage, addr: u32, v: u16)
    requires Valid(m) && RegionOf(addr) == 0
    ensures AfterWrite16(m, addr, v) ==
      Ok(m.(vip := m.vip[addr % 0x8_0000 := Low8(v)][(addr + 1) % 0x8_0000 := Low8(v / 0x100)]))
  {
    assert Region(Mask27(addr)) == 0 by { RegionsAgree(addr); }
    VipStore16(m.vip, addr, v);
  }

  /** Word writes to the video stub, each byte index wrapped on its own. */
  lemma VipWrite32(m: MemoryImage, addr: u32, v: u32)
    requires Valid(m) && RegionOf(addr) == 0
    ensures AfterWrite32(m, addr, v) ==
      Ok(m.(vip := m.vip[addr % 0x8_0000 := Low8(v)][(addr + 1) % 0x8_0000 := Low8(v / 0x100)]
                        [(addr + 2) % 0x8_0000 := Low8(v / 0x1_0000)]
                        [(addr + 3) % 0x8_0000 := Low8(v / 0x100_0000)]))
  {
    assert Region(Mask27(addr)) == 0 by { RegionsAgree(addr); }
    VipStore32(m.vip, addr, v);
  }


  /** The two byte indices of a halfword store into the video stub. */
  lemma VipStore16(s: seq<u8>, addr: u32, v: u16)
    requires |s| == VIP_STUB_SIZE
    ensures Store16At(s, Mask27(addr), 0x7_FFFF, v) ==
      Ok(s[addr % 0x8_0000 := Low8(v)][(addr + 1) % 0x8_0000 := Low8(v / 0x100)])
  {
    var a := Mask27(addr);
    assert And(a, 0x7_FFFF) == addr % 0x8_0000 by { StubIndex(addr, 0); }
    assert And(a + 1, 0x7_FFFF) == (addr + 1) % 0x8_0000 by { StubIndex(addr, 1); }
    Store16Known(s, a, 0x7_FFFF, v, addr % 0x8_0000, (addr + 1) % 0x8_0000);
  }

  /** The four byte indices of a word store into the video stub, wrapped by its mask. */
  lemma VipStore32(s: seq<u8>, addr: u32, v: u32)
    requires |s| == VIP_STUB_SIZE
    ensures Store32At(s, Mask27(addr), 0x7_FFFF, v) ==
      Ok(s[addr % 0x8_0000 := Low8(v)][(addr + 1) % 0x8_0000 := Low8(v / 0x100)]
          [(addr + 2) % 0x8_0000 := Low8(v / 0x1_0000)][(addr + 3) % 0x8_0000 := Low8(v / 0x100_0000)])
  {
    var a := Mask27(addr);
    assert And(a, 0x7_FFFF) == addr % 0x8_0000 by { StubIndex(addr, 0); }
    assert And(a + 1, 0x7_FFFF) == (addr + 1) % 0x8_0000 by { StubIndex(addr, 1); }
    assert And(a + 2, 0x7_FFFF) == (addr + 2) % 0x8_0000 by { StubIndex(addr, 2); }
    assert And(a + 3, 0x7_FFFF) == (addr + 3) % 0x8_0000 by { StubIndex(addr, 3); }
    Store32Known(s, a, 0x7_FFFF, v, addr % 0x8_0000, (addr + 1) % 0x8_0000,
                 (addr + 2) % 0x8_0000, (addr + 3) % 0x8_0000);
  }

  /** The four byte indices of a word store into the sound stub, wrapped by its mask. */
  lemma VsuStore32(s: seq<u8>, addr: u32, v: u32)
    requires |s| == VSU_STUB_SIZE
    ensures Store32At(s, Mask27(addr), 0x7FF, v) ==
      Ok(s[addr % 0x800 := Low8(v)][(addr + 1) % 0x800 := Low8(v / 0x100)]
          [(addr + 2) % 0x800 := Low8(v / 0x1_0000)][(addr + 3) % 0x800 := Low8(v / 0x100_0000)])
  {
    var a := Mask27(addr);
    assert And(a, 0x7FF) == addr % 0x800 by { StubIndex(addr, 0); }
    assert And(a + 1, 0x7FF) == (addr + 1) % 0x800 by { StubIndex(addr, 1); }
    assert And(a + 2, 0x7FF) == (addr + 2) % 0x800 by { StubIndex(addr, 2); }
    assert And(a + 3, 0x7FF) == (addr + 3) % 0x800 by { StubIndex(addr, 3); }
    Store32Known(s, a, 0x7FF, v, addr % 0x800, (addr + 1) % 0x800,
                 (addr + 2) % 0x800, (addr + 3) % 0x800);
  }


  /** Word writes to the sound stub: byte k goes to (addr + k) modulo 0x800. */
  lemma VsuWrite32(m: MemoryImage, addr: u32, v: u32)
    requires Valid(m) && RegionOf(addr) == 1
    ensures AfterWrite32(m, addr, v) ==
      Ok(m.(vsu := m.vsu[addr % 0x800 := Low8(v)][(addr + 1) % 0x800 := Low8(v / 0x100)]
                        [(addr + 2) % 0x800 := Low8(v / 0x1_0000)]
                        [(addr + 3) % 0x800 := Low8(v / 0x100_0000)]))
  {
    assert Region(Mask27(addr)) == 1 by { RegionsAgree(addr); }
    VsuStore32(m.vsu, addr, v);
  }

  /**
   * RAM round trip: a byte written inside the RAM array reads back unchanged,
   * and so does a word written to a 4-aligned offset whose last byte is inside.
   */
  lemma RamRoundTrip(m: MemoryImage, addr: u32, v8: u8, v32: u32)
    requires Valid(m) && RegionOf(addr) == 5
    ensures addr % 0x1_0000 < RAM_SIZE ==>
      AfterWrite8(m, addr, v8).Ok? && Read8(AfterWrite8(m, addr, v8).value, addr) == Ok(v8)
    ensures addr % 4 == 0 && addr % 0x1_0000 + 3 < RAM_SIZE ==>
      AfterWrite32(m, addr, v32).Ok? && Read32(AfterWrite32(m, addr, v32).value, addr) == Ok(v32)
  {
    if addr % 0x1_0000 < RAM_SIZE {
      RamWrite8(m, addr, v8);
      RamReads(AfterWrite8(m, addr, v8).value, addr);
    }
    if addr % 4 == 0 && addr % 0x1_0000 + 3 < RAM_SIZE {
      RamWrite32(m, addr, v32);
      RamReads(AfterWrite32(m, addr, v32).value, addr);
      Le32RoundTrip(v32);
    }
  }

  /**
   * Video-stub round trip: a halfword written at an even address reads back
   * unchanged.  (RAM has no such round trip, since halfword reads of RAM fault.)
   */
  lemma VipRoundTrip16(m: MemoryImage, addr: u32, v: u16)
    requires Valid(m) && RegionOf(addr) == 0 && addr % 2 == 0
    ensures AfterWrite16(m, addr, v).Ok?
    ensures Read16(AfterWrite16(m, addr, v).value, addr) == Ok(v)
  {
    var o := addr % 0x8_0000;
    assert o % 2 == 0 && o + 1 < 0x8_0000 && (addr + 1) % 0x8_0000 == o + 1 by {
      ModOfModDivisor(addr, 2, 0x8_0000);
      ModWindow(addr, 1, 0x8_0000, 0x8_0000);
    }
    VipWrite16(m, addr, v);
    var m' := AfterWrite16(m, addr, v).value;
    assert m'.vip == m.vip[o := Low8(v)][o + 1 := Low8(v / 0x100)];
    VipRead16(m', addr);
    Le16RoundTrip(v);
  }

  /** Likewise a word written at a 4-aligned video-stub address reads back unchanged. */
  lemma VipRoundTrip32(m: MemoryImage, addr: u32, v: u32)
    requires Valid(m) && RegionOf(addr) == 0 && addr % 4 == 0
    ensures AfterWrite32(m, addr, v).Ok?
    ensures Read32(AfterWrite32(m, addr, v).value, addr) == Ok(v)
  {
    var o := addr % 0x8_0000;
    VipWordOffsets(addr);
    VipWrite32(m, addr, v);
    var m' := AfterWrite32(m, addr, v).value;
    assert m'.vip == m.vip[o := Low8(v)][o + 1 := Low8(v / 0x100)]
                          [o + 2 := Low8(v / 0x1_0000)][o + 3 := Low8(v / 0x100_0000)];
    VipRead32(m', addr);
    assert Read32(m', addr) == Le32At(m'.vip, o);
    Le32RoundTrip(v);
  }

  /** The four byte offsets of a 4-aligned video-stub word are consecutive inside the window. */
  lemma VipWordOffsets(addr: u32)
    requires addr % 4 == 0
    ensures var o := addr % 0x8_0000;
      && o % 4 == 0 && o + 3 < 0x8_0000
      && (addr + 1) % 0x8_0000 == o + 1 && (addr + 2) % 0x8_0000 == o + 2
      && (addr + 3) % 0x8_0000 == o + 3
  {
    var o := addr % 0x8_0000;
    ModOfModDivisor(addr, 4, 0x8_0000);
    ModWindow(addr, 1, 0x8_0000, 0x8_0000);
    ModWindow(addr, 2, 0x8_0000, 0x8_0000);
    ModWindow(addr, 3, 0x8_0000, 0x8_0000);
    ModUnique(o + 1, 0x8_0000, 0, o + 1);
    ModUnique(o + 2, 0x8_0000, 0, o + 2);
    ModUnique(o + 3, 0x8_0000, 0, o + 3);
  }

  /**
   * Offset 0xFFFF of the RAM window passes the mask but is not in the array:
   * byte reads and writes there fault, and so does every wider access
   * that touches it.
   */
  lemma RamLastByteFaults(m: MemoryImage, addr: u32, v8: u8, v16: u16, v32: u32)
    requires Valid(m) && RegionOf(addr) == 5 && addr % 0x1_0000 == 0xFFFF
    ensures Read8(m, addr) == Err(IndexOutOfRange(0xFFFF, RAM_SIZE))
    ensures Read32(m, addr).Err?
    ensures AfterWrite8(m, addr, v8) == Err(IndexOutOfRange(0xFFFF, RAM_SIZE))
    ensures AfterWrite16(m, addr, v16) == Err(IndexOutOfRange(0xFFFF, RAM_SIZE))
    ensures AfterWrite32(m, addr, v32) == Err(IndexOutOfRange(0xFFFF, RAM_SIZE))
  {
    RamReads(m, addr);
    RamWrite8(m, addr, v8);
    RamWrite16(m, addr, v16);
    RamWrite32(m, addr, v32);
  }

  // ----- the bus object ----------------------------------------------------------

  /**
   * `Bus`, owning the memory.  ROM and its mask never change after
   * construction; RAM and the two stubs are arrays that writes update in place.
   */
  class Bus {
    const rom: seq<u8>
    const romMask: nat
    const ram: array<u8>
    const vip: array<u8>
    const vsu: array<u8>

    /** The current contents of the bus as a value. */
    function Image(): MemoryImage
      reads ram, vip, vsu
    {
      MemoryImage(rom, ram[..], romMask, vip[..], vsu[..])
    }

    ghost predicate Valid()
      reads ram, vip, vsu
    {
      ram != vip && ram != vsu && vip != vsu && Mem.Valid(Image())
    }

    /** `Bus::new`, given the memory `Memory::new` produced. */
    constructor (memory: MemoryImage)
      requires Mem.Valid(memory)
      ensures Valid() && Image() == memory
      ensures fresh(ram) && fresh(vip) && fresh(vsu)
    {
      rom := memory.rom;
      romMask := memory.romMask;
      ram := new u8[|memory.ram|](i requires 0 <= i < |memory.ram| => memory.ram[i]);
      vip := new u8[|memory.vip|](i requires 0 <= i < |memory.vip| => memory.vip[i]);
      vsu := new u8[|memory.vsu|](i requires 0 <= i < |memory.vsu| => memory.vsu[i]);
      new;
      assert ram[..] == memory.ram && vip[..] == memory.vip && vsu[..] == memory.vsu;
    }

    /** `Bus::write8`. */
    method Write8(addr: u32, val: u8) returns (r: Outcome)
      requires Valid()
      modifies ram, vip
      ensures Valid()
      ensures AfterWrite8(old(Image()), addr, val) == if r.Pass? then Ok(Image()) else Err(r.fault)
    {
      var a := Mask27(addr);
      var region := Region(a);
      if region == 0 {
        r := StoreByte(vip, And(a, 0x7_FFFF), val);
      } else if region == 5 {
        r := StoreByte(ram, And(a, 0xFFFF), val);
      } else {
        r := Fail(UnmappedWrite(8, a));
      }
    }

    /** `Bus::write16`. */
    method Write16(addr: u32, val: u16) returns (r: Outcome)
      requires Valid()
      modifies ram, vip
      ensures Valid()
      ensures AfterWrite16(old(Image()), addr, val) == if r.Pass? then Ok(Image()) else Err(r.fault)
    {
      var a := Mask27(addr);
      var region := Region(a);
      if region == 0 {
        r := StoreHalfword(vip, a, 0x7_FFFF, val);
      } else if region == 5 {
        r := StoreHalfword(ram, a, 0xFFFF, val);
      } else {
        r := Fail(UnmappedWrite(16, a));
      }
    }

    /** `Bus::write32`. */
    method Write32(addr: u32, val: u32) returns (r: Outcome)
      requires Valid()
      modifies ram, vip, vsu
      ensures Valid()
      ensures AfterWrite32(old(Image()), addr, val) == if r.Pass? then Ok(Image()) else Err(r.fault)
    {
      var a := Mask27(addr);
      var region := Region(a);
      if region == 0 {
        r := StoreWord(vip, a, 0x7_FFFF, val);
      } else if region == 1 {
        r := StoreWord(vsu, a, 0x7FF, val);
      } else if region == 2 {
        r := Pass;
      } else if region == 5 {
        r := StoreWord(ram, a, 0xFFFF, val);
      } else {
        r := Fail(UnmappedWrite(32, a));
      }
    }
  }

  /** One checked byte store `arr[i] = val`. */
  method StoreByte(arr: array<u8>, i: nat, val: u8) returns (r: Outcome)
    modifies arr
    ensures Poke(old(arr[..]), i, val) == if r.Pass? then Ok(arr[..]) else Err(r.fault)
    ensures r.Fail? ==> arr[..] == old(arr[..])
  {
    if i >= arr.Length {
      return Fail(IndexOutOfRange(i, arr.Length));
    }
    arr[i] := val;
    r := Pass;
  }

  /** The two byte stores of a 16-bit write, each index wrapped by `mask`. */
  method StoreHalfword(arr: array<u8>, a: nat, mask: nat, val: u16) returns (r: Outcome)
    modifies arr
    ensures Store16At(old(arr[..]), a, mask, val) == if r.Pass? then Ok(arr[..]) else Err(r.fault)
  {
    r := StoreByte(arr, And(a, mask), Low8(val));
    if r.Fail? { return; }
    r := StoreByte(arr, And(a + 1, mask), Low8(val / 0x100));
  }

  /** The four byte stores of a 32-bit write, each index wrapped by `mask`. */
  method StoreWord(arr: array<u8>, a: nat, mask: nat, val: u32) returns (r: Outcome)
    modifies arr
    ensures Store32At(old(arr[..]), a, mask, val) == if r.Pass? then Ok(arr[..]) else Err(r.fault)
  {
    r := StoreByte(arr, And(a, mask), Low8(val));
    if r.Fail? { return; }
    r := StoreByte(arr, And(a + 1, mask), Low8(val / 0x100));
    if r.Fail? { return; }
    r := StoreByte(arr, And(a + 2, mask), Low8(val / 0x1_0000));
    if r.Fail? { return; }
    r := StoreByte(arr, And(a + 3, mask), Low8(val / 0x100_0000));
  }
}
