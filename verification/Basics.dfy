/** What several modules share: optional values, machine words and small arithmetic. */
module Basics {

  datatype Option<+T> = None | Some(value: T)

  type Byte = x: int | 0 <= x < 256 witness 0

  type Word32 = x: int | 0 <= x < 0x1_0000_0000 witness 0

  const TWO64 := 0x1_0000_0000_0000_0000

  function Min(a: int, b: int): int { if a < b then a else b }

  function Max(a: int, b: int): int { if a < b then b else a }

  /** Multiply-and-shift in place of a remainder: always an index below `n`. */
  function FastMod(x: Word32, n: nat): (r: nat)
    requires n > 0
    ensures r < n
  {
    ProductBelow(x, n);
    (x * n) / 0x1_0000_0000
  }

  lemma ProductBelow(x: Word32, n: nat)
    requires n > 0
    ensures 0 <= x * n < 0x1_0000_0000 * n
  {
  }
}
