/** Fixed-width machine words, written out on unbounded integers. */
module Words {

  const TWO32: nat := 0x1_0000_0000
  const TWO64: nat := 0x1_0000_0000_0000_0000

  type Byte = x: int | 0 <= x < 256
  type Word64 = x: int | 0 <= x < TWO64

  /** Unsigned 64-bit addition and subtraction wrap around. */
  function Add64(a: Word64, b: Word64): Word64 {
    if a + b < TWO64 then a + b else a + b - TWO64
  }

  function Sub64(a: Word64, b: Word64): Word64 {
    if b <= a then a - b else a - b + TWO64
  }

  lemma WrapIsModulo(a: Word64, b: Word64)
    ensures Add64(a, b) == (a + b) % 0x1_0000_0000_0000_0000 && Sub64(a, b) == (a - b) % 0x1_0000_0000_0000_0000
  {
  }
}

module Options {
  datatype Option<+T> = None | Some(value: T)
}
