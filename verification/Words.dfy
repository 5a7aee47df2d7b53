/** The integers of the C++ sources, inside unbounded integers. */
module Words {

  const TWO_63 := 0x8000_0000_0000_0000
  const TWO_64 := 0x1_0000_0000_0000_0000

  /** std::max and std::min. */
  function Max(a: int, b: int): int {
    if a < b then b else a
  }

  function Min(a: int, b: int): int {
    if a < b then a else b
  }

  /** Conversion to uint64_t. */
  function U64(x: int): int {
    x % TWO_64
  }

  /** Conversion of a uint64_t to int64_t. */
  function I64(x: int): int {
    if x < TWO_63 then x else x - TWO_64
  }

  /** Wrap-around can be left to the end. */
  lemma WrapLater(x: int, y: int)
    ensures U64(U64(x) + y) == U64(x + y)
  {
  }
}
