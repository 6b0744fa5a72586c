/** Machine word sizes, and the one saturating operation, where the width matters. */
module Words {

  const U16: nat := 0x1_0000
  const U32: nat := 0x1_0000_0000
  const U64: nat := 0x1_0000_0000_0000_0000
  const U64_MAX: nat := U64 - 1

  /** `saturating_add` on 64-bit words. */
  function SatAdd(a: nat, b: nat): nat { if a + b > U64_MAX then U64_MAX else a + b }
}
