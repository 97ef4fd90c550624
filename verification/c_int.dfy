/** Integer semantics of the C++ target (a 32-bit microcontroller) that the
    sketch relies on, written out over Dafny's unbounded `int`. */
module CInt {

  function Abs(a: int): (r: nat)
    ensures r == a || r == -a
  {
    if a < 0 then -a else a
  }

  /** C's `/` on integers: the quotient is truncated toward zero, so the
      remainder `a - q * b` is smaller than the divisor in magnitude and never
      has the opposite sign of the dividend. (Dafny's own `/` is Euclidean.) */
  function TruncDiv(a: int, b: int): (q: int)
    requires b != 0
    ensures Abs(a - q * b) < Abs(b)
    ensures a - q * b == 0 || (a - q * b < 0 <==> a < 0)
    ensures a >= 0 && b > 0 ==> q == a / b
  {
    var m := Abs(a) / Abs(b);
    if (a < 0) == (b < 0) then m else -m
  }

  /** Conversion of an `int` to `int16_t`: the unique value in the 16-bit
      signed range that is congruent to `v` modulo 2^16. Before C++20 an
      out-of-range conversion is implementation-defined; GCC, the compiler
      of the ESP32 toolchain, defines it as this reduction modulo 2^16. */
  function ToInt16(v: int): (w: int)
    ensures -0x8000 <= w < 0x8000
    ensures (v - w) % 0x1_0000 == 0
    ensures -0x8000 <= v < 0x8000 ==> w == v
  {
    var u := v % 0x1_0000;
    if u < 0x8000 then u else u - 0x1_0000
  }
}
