/** Numbers of 32 bits. */
module Integers {

  const TWO32 := 0x1_0000_0000

  type uint32 = n: int | 0 <= n < 0x1_0000_0000

  function Wrap(n: int): uint32 { n % TWO32 }

  lemma {:induction false} WrapAdd(a: int, b: int)
    ensures Wrap(Wrap(a) + b) == Wrap(a + b)
  {}

  lemma {:induction false} NoWrap(n: uint32)
    ensures Wrap(n) == n
  {}
}
