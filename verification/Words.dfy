/** Machine words of the driver as bounded integers. */
module Words {
  const TWO16 := 0x1_0000
  const TWO32 := 0x1_0000_0000

  type u4 = x: int | 0 <= x < 16
  type u8 = x: int | 0 <= x < 0x100
  type u16 = x: int | 0 <= x < 0x1_0000
  type u32 = x: int | 0 <= x < 0x1_0000_0000

  const ALL_ONES: u32 := 0xffff_ffff

  /** 32-bit address arithmetic. */
  function Wrap(x: int): u32 { x % TWO32 }

  lemma WrapAdd(a: int, b: int)
    ensures Wrap(Wrap(a) + b) == Wrap(a + b)
  {
  }

  lemma WrapOf(x: u32)
    ensures Wrap(x) == x
  {
  }

  /** Going on by less than the whole address space never comes back to the start. */
  lemma WrapMoves(x: u32, n: nat)
    requires 0 < n < TWO32
    ensures Wrap(x + n) != x
  {
  }
}
