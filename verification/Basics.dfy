/** What several modules share: optional values, powers of two and machine word sizes. */
module Basics {

  datatype Option<T> = None | Some(value: T)

  const P32: int := 0x1_0000_0000
  const P64: int := 0x1_0000_0000_0000_0000

  function Exp2(n: nat): (p: nat)
    ensures p >= 1
  {
    if n == 0 then 1 else 2 * Exp2(n - 1)
  }
}
