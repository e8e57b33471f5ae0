/** Fixed-width arithmetic of util/overflow.go: Go's uint64 and uint32 wrap around. */
module Overflow {
  const TWO_TO_THE_32: int := 0x1_0000_0000
  const TWO_TO_THE_63: int := 0x8000_0000_0000_0000
  const TWO_TO_THE_64: int := 0x1_0000_0000_0000_0000

  type U32 = x: int | 0 <= x < TWO_TO_THE_32
  type U64 = x: int | 0 <= x < TWO_TO_THE_64

  /** Go's conversion of an arbitrary integer to uint64, and the raw `+` and `-` on uint64. */
  function Wrap64(x: int): U64 {
    if 0 <= x < TWO_TO_THE_64 then x
    else if TWO_TO_THE_64 <= x < 2 * TWO_TO_THE_64 then x - TWO_TO_THE_64
    else if -TWO_TO_THE_64 <= x < 0 then x + TWO_TO_THE_64
    else x % TWO_TO_THE_64
  }

  lemma WrapIsModulo(x: int)
    ensures Wrap64(x) == x % TWO_TO_THE_64
  {
  }

  lemma Int64IsModulo(x: int)
    ensures (Int64(x) - x) % TWO_TO_THE_64 == 0
  {
  }

  /** Go's conversion of an integer to int64 (two's complement). */
  function Int64(x: int): (r: int)
    ensures -TWO_TO_THE_63 <= r < TWO_TO_THE_63
    ensures -TWO_TO_THE_63 <= x < TWO_TO_THE_63 ==> r == x
  {
    (x + TWO_TO_THE_63) % TWO_TO_THE_64 - TWO_TO_THE_63
  }

  /** The flag is computed from the wrapped sum alone; it is exact. */
  function AddU64O(a: U64, b: U64): (r: (U64, bool))
    ensures r.1 <==> a + b < TWO_TO_THE_64
    ensures r.0 == if r.1 then a + b else a + b - TWO_TO_THE_64
  {
    (Wrap64(a + b), !(Wrap64(a + b) < a))
  }

  function SubU64O(a: U64, b: U64): (r: (U64, bool))
    ensures r.1 <==> b <= a
    ensures r.0 == if r.1 then a - b else a - b + TWO_TO_THE_64
  {
    (Wrap64(a - b), !(Wrap64(a - b) > a))
  }
}
