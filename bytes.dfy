// Unsigned byte values and Java `int` arithmetic shared by every module of
// the model. Java's signed `byte` is read throughout kanzi as `b & 0xFF`;
// the model keeps that unsigned reading directly.
module Bytes {
  type byte = x: int | 0 <= x < 256

  /** Java `(byte) x` / Go `byte(x)` followed by `& 0xFF`: the low eight bits. */
  function ToByte(x: int): (b: byte)
    ensures 0 <= x < 256 ==> b == x
    ensures (b - x) % 256 == 0
  {
    x % 256
  }

  /** `1 << n`. */
  function Pow2(n: nat): (r: nat)
    ensures r >= 1
  {
    if n == 0 then 1 else 2 * Pow2(n - 1)
  }

  const INT_MIN := -0x8000_0000
  const INT_MAX := 0x7FFF_FFFF

  predicate IsInt(x: int) {
    INT_MIN <= x <= INT_MAX
  }

  /** Java `int` addition: the exact sum, wrapped to 32-bit two's complement. */
  function AddInt(x: int, y: int): (r: int)
    ensures IsInt(r) && (x + y - r) % 0x1_0000_0000 == 0
    ensures IsInt(x + y) ==> r == x + y
  {
    var m := (x + y) % 0x1_0000_0000;
    if m > INT_MAX then m - 0x1_0000_0000 else m
  }
}

// Failure-carrying results for constructors that reject their arguments.
module Wrappers {
  datatype Option<+T> = None | Some(value: T)

  datatype Result<+T> = Success(value: T) | Failure(error: string)
}
