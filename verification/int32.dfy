/** The 32-bit signed integers of C# `int`, with the wrap-around of unchecked arithmetic. */
module Int32s {

  const MinInt32: int := -0x8000_0000
  const MaxInt32: int := 0x7FFF_FFFF
  const Modulus: int := 0x1_0000_0000

  type Int32 = x: int | MinInt32 <= x <= MaxInt32

  predicate InInt32(x: int) {
    MinInt32 <= x <= MaxInt32
  }

  /** The result of an unchecked C# `int` operation whose exact result is `x`. */
  function Wrap(x: int): (r: Int32)
    ensures InInt32(x) ==> r == x
    ensures (r - x) % Modulus == 0
  {
    var m := (x - MinInt32) % Modulus;
    m + MinInt32
  }
}
