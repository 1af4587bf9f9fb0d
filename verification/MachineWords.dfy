/** Field widths and machine arithmetic shared by the encoders and decoders. */
module MachineWords {
  const TWO_64: int := 0x1_0000_0000_0000_0000

  type uint3 = x: int | 0 <= x < 8
  type uint4 = x: int | 0 <= x < 0x10
  type uint7 = x: int | 0 <= x < 0x80
  type uint8 = x: int | 0 <= x < 0x100
  type uint16 = x: int | 0 <= x < 0x1_0000
  type uint20 = x: int | 0 <= x < 0x10_0000
  type uint23 = x: int | 0 <= x < 0x80_0000
  type uint24 = x: int | 0 <= x < 0x100_0000
  type uint30 = x: int | 0 <= x < 0x4000_0000
  type uint31 = x: int | 0 <= x < 0x8000_0000
  type uint32 = x: int | 0 <= x < 0x1_0000_0000
  type uint40 = x: int | 0 <= x < 0x100_0000_0000
  type uint64 = x: int | 0 <= x < TWO_64

  /** The two pointer widths dyld supports. */
  type PointerSize = p: int | p == 4 || p == 8 witness 8

  /** 64-bit wrap-around of a sum or difference of two words. */
  function Wrap64(x: int): uint64
    requires -TWO_64 <= x < 2 * TWO_64
  {
    if x < 0 then x + TWO_64 else if x < TWO_64 then x else x - TWO_64
  }

  /** `n` pointers, in bytes (the product, written without a variable-times-variable term). */
  function Pointers(p: PointerSize, n: int): int { if p == 4 then 4 * n else 8 * n }

  predicate Aligned(p: PointerSize, x: nat) { if p == 4 then x % 4 == 0 else x % 8 == 0 }

  /** Bytes divided by the pointer size, rounding down. */
  function InPointers(p: PointerSize, bytes: nat): nat { if p == 4 then bytes / 4 else bytes / 8 }

  lemma WrapAdd(a: int, b: int)
    requires 0 <= a && 0 <= b && a + b < 2 * TWO_64
    ensures Wrap64(Wrap64(a) + b) == Wrap64(a + b)
  {
  }
}
