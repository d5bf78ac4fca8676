/** C's unsigned integers as bit sequences, least significant bit first. */
module Bits {

  type Bits = seq<bool>

  function Zeros(n: nat): (r: Bits)
    ensures |r| == n && forall i :: 0 <= i < n ==> !r[i]
  {
    seq(n, i => false)
  }

  /** Bit `i`; there are only zeros above the top. */
  predicate Bit(x: Bits, i: int) {
    0 <= i < |x| && x[i]
  }

  /** Truncation or zero extension to `n` bits. */
  function Resize(x: Bits, n: nat): (r: Bits)
    ensures |r| == n
    ensures forall i :: 0 <= i < n ==> r[i] == Bit(x, i)
  {
    if n <= |x| then x[..n] else x + Zeros(n - |x|)
  }

  function ShiftRight(x: Bits, n: nat): (r: Bits)
    requires n <= |x|
    ensures |r| == |x|
    ensures forall i :: 0 <= i < |r| ==> r[i] == Bit(x, i + n)
  {
    x[n..] + Zeros(n)
  }

  function ShiftLeft(x: Bits, n: nat): (r: Bits)
    requires n <= |x|
    ensures |r| == |x|
    ensures forall i :: 0 <= i < |r| ==> r[i] == Bit(x, i - n)
  {
    Zeros(n) + x[..|x| - n]
  }

  /** Bitwise or, after the usual conversion to the wider type. */
  function BitOr(x: Bits, y: Bits): (r: Bits)
    ensures |r| == if |x| >= |y| then |x| else |y|
    ensures forall i :: 0 <= i < |r| ==> r[i] == (Bit(x, i) || Bit(y, i))
  {
    var n := if |x| >= |y| then |x| else |y|;
    seq(n, i requires 0 <= i < n => Resize(x, n)[i] || Resize(y, n)[i])
  }

  /** `x & (2^n - 1)`, the mask being a 64-bit constant. */
  function MaskLow(x: Bits, n: nat): (r: Bits)
    ensures |r| == 64
    ensures forall i :: 0 <= i < 64 ==> r[i] == (i < n && Bit(x, i))
  {
    Resize(if n <= |x| then x[..n] else x, 64)
  }
}
