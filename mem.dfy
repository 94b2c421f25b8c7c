/**
 * The memory image behind the bus: the cartridge ROM, work RAM and the two
 * peripheral stub arrays, with the ROM's mirroring mask.
 */
module Mem {
  import opened Word
  import opened Outcomes

  /** Size of the work-RAM array as allocated (`vec![0; 0xFFFF]`). */
  const RAM_SIZE: nat := 0xFFFF
  /** Size of the video (VIP) stub array, indexed through `& 0x7FFFF`. */
  const VIP_STUB_SIZE: nat := 0x8_0000
  /** Size of the sound (VSU) stub array, indexed through `& 0x7FF`. */
  const VSU_STUB_SIZE: nat := 0x800

  datatype MemoryImage = MemoryImage(
    rom: seq<u8>,
    ram: seq<u8>,
    romMask: nat,     // mask that handles ROM read mirroring
    vip: seq<u8>,
    vsu: seq<u8>)

  /** Rust's `usize::is_power_of_two`: `n != 0 && n & (n - 1) == 0`. */
  predicate IsPowerOfTwo(n: nat)
  {
    n != 0 && And(n, n - 1) == 0
  }

  /** An image as `Memory::new` builds it and as the bus keeps it. */
  ghost predicate Valid(m: MemoryImage)
  {
    && (exists k: nat :: Pow2(k) == |m.rom|)
    && m.romMask == |m.rom| - 1
    && |m.ram| == RAM_SIZE
    && |m.vip| == VIP_STUB_SIZE
    && |m.vsu| == VSU_STUB_SIZE
  }

  /**
   * `Memory::new`, given the ROM's bytes rather than a file name.  A ROM whose
   * length is not a power of two is refused; otherwise the ROM is kept
   * verbatim, RAM and the stubs start zeroed, and the mask is length - 1.
   */
  function NewMemory(rom: seq<u8>): (r: Result<MemoryImage>)
    ensures r.Ok? <==> exists k: nat :: Pow2(k) == |rom|
    ensures r.Err? ==> r.fault == RomSizeNotPowerOfTwo(|rom|)
    ensures r.Ok? ==> Valid(r.value) && r.value.rom == rom && r.value.romMask == |rom| - 1
    ensures r.Ok? ==> forall i :: 0 <= i < RAM_SIZE ==> r.value.ram[i] == 0
    ensures r.Ok? ==> forall i :: 0 <= i < VIP_STUB_SIZE ==> r.value.vip[i] == 0
    ensures r.Ok? ==> forall i :: 0 <= i < VSU_STUB_SIZE ==> r.value.vsu[i] == 0
  {
    PowerOfTwoIff(|rom|);
    if !IsPowerOfTwo(|rom|) then Err(RomSizeNotPowerOfTwo(|rom|))
    else
      Ok(MemoryImage(rom, seq(RAM_SIZE, _ => 0), |rom| - 1,
                     seq(VIP_STUB_SIZE, _ => 0), seq(VSU_STUB_SIZE, _ => 0)))
  }

  lemma {:induction false} AndSelf(a: nat)
    ensures And(a, a) == a
  {
    if a > 0 {
      AndSelf(a / 2);
    }
  }

  /** The bit trick agrees with the arithmetic meaning: n is some 2^k. */
  lemma {:induction false} PowerOfTwoIff(n: nat)
    ensures IsPowerOfTwo(n) <==> exists k: nat :: Pow2(k) == n
  {
    if exists k: nat :: Pow2(k) == n {
      var k: nat :| Pow2(k) == n;
      AndLowMask(n, k);
      assert n % n == 0;
      assert IsPowerOfTwo(n);
    } else if IsPowerOfTwo(n) {
      PowerOfTwoExponent(n);
    }
  }

  lemma {:induction false} PowerOfTwoExponent(n: nat)
    requires IsPowerOfTwo(n)
    ensures exists k: nat :: Pow2(k) == n
  {
    if n == 1 {
      assert Pow2(0) == 1;
    } else if n % 2 == 1 {
      assert And(n, n - 1) == 2 * And(n / 2, (n - 1) / 2);
      AndSelf(n / 2);
      assert false;
    } else {
      assert And(n, n - 1) == 2 * And(n / 2, n / 2 - 1);
      PowerOfTwoExponent(n / 2);
      var k: nat :| Pow2(k) == n / 2;
      assert Pow2(k + 1) == n;
    }
  }

  /**
   * In a valid image the ROM mask reduces any index modulo the ROM length,
   * so `i & rom_mask` is always a valid ROM index.
   */
  lemma RomMaskIsModulo(m: MemoryImage, i: nat)
    requires Valid(m)
    ensures And(i, m.romMask) == i % |m.rom| < |m.rom|
  {
    var k: nat :| Pow2(k) == |m.rom|;
    AndLowMask(i, k);
  }

  /**
   * RAM has one byte fewer than its `& 0xFFFF` mirroring mask can select: the
   * offset 0xFFFF passes the mask but is not an index of the array.
   */
  lemma RamMaskOutrunsRam(m: MemoryImage)
    requires Valid(m)
    ensures And(0xFFFF, 0xFFFF) == 0xFFFF && 0xFFFF >= |m.ram|
  {
    AndSelf(0xFFFF);
  }
}
