/** Machine integers. */
module Words {
  type u16 = x: int | 0 <= x < 0x1_0000
  type u32 = x: int | 0 <= x < 0x1_0000_0000

  const TWO_32 := 0x1_0000_0000
}
