/** Conversions to C's 32-bit int. */
module Integers {

  function ToInt32(x: int): int {
    (x + 0x8000_0000) % 0x1_0000_0000 - 0x8000_0000
  }

  lemma {:induction false} ToInt32Add(x: int, y: int)
    ensures ToInt32(ToInt32(x) + y) == ToInt32(x + y)
  {
  }

  /** The conversion keeps a number that is not negative exactly when that is below 2^31. */
  lemma {:induction false} ToInt32Exact(x: nat)
    ensures ToInt32(x) == x <==> x < 0x8000_0000
    ensures ToInt32(x) % 0x1_0000_0000 == x % 0x1_0000_0000
  {
  }

  /** An int that holds an unsigned number, seen as unsigned again. */
  lemma {:induction false} Unsigned(x: nat)
    requires x < 0x1_0000_0000
    ensures ToInt32(x) % 0x1_0000_0000 == x && (x < 0x8000_0000 ==> ToInt32(x) == x)
  {
  }

  lemma {:induction false} ToInt32Sub(x: int, y: int)
    ensures ToInt32(ToInt32(x) - y) == ToInt32(x - y)
  {
    ToInt32Add(x, 0 - y);
  }

  lemma {:induction false} ToInt32Wraps(x: nat)
    ensures ToInt32(x) == ToInt32(x % 0x1_0000_0000)
  {
  }
}
