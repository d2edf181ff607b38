/**
 * C# machine integers. Dafny integers are unbounded, so the unchecked
 * 32-bit arithmetic of the server (`index + 1`, `Column - 1`, the `(int)`
 * cast of a `uint`, the `uint` activity counter) is written out here.
 */
module Machine {

  const TwoTo31: int := 0x8000_0000
  const TwoTo32: int := 0x1_0000_0000
  const MaxInt32: int := 0x7FFF_FFFF
  const MinInt32: int := -0x8000_0000

  /** C# `int`. */
  type int32 = x: int | -0x8000_0000 <= x < 0x8000_0000

  /** C# `uint`. */
  type uint32 = x: int | 0 <= x < 0x1_0000_0000

  /** The two's-complement value an unchecked C# `int` computation yields for the exact result `x`. */
  function Wrap32(x: int): (r: int32)
    ensures (r - x) % TwoTo32 == 0
    ensures MinInt32 <= x <= MaxInt32 ==> r == x
  {
    (x + TwoTo31) % TwoTo32 - TwoTo31
  }

  /** The unchecked `(int)` cast of a `uint`: values from 2^31 upwards become negative. */
  function AsInt32(u: uint32): (r: int32)
    ensures u <= MaxInt32 ==> r == u
    ensures u > MaxInt32 ==> r == u - TwoTo32
  {
    Wrap32(u)
  }

  /** `x++` on a C# `uint`: one more, except that the largest value wraps to zero. */
  function IncUInt32(x: uint32): (r: uint32)
    ensures r != x
    ensures (r - x - 1) % TwoTo32 == 0
    ensures x < TwoTo32 - 1 ==> r > x
  {
    if x == TwoTo32 - 1 then 0 else x + 1
  }

  /** The 32 bits of an `int`, in two's complement, as C#'s bitwise operators see them. */
  function Bits32(x: int32): bv32 {
    ((x + TwoTo32) % TwoTo32) as bv32
  }

  /** `x & 1 != 0` on an `int` holds exactly for the odd values, negative ones included. */
  lemma LowBitIsOdd(x: int32)
    ensures (Bits32(x) & 1 != 0) <==> x % 2 == 1
  {
    var u := (x + TwoTo32) % TwoTo32;
    assert u % 2 == x % 2;
  }

  /** `Math.Max(0, x)`. */
  function Max0(x: int32): (r: int32)
    ensures r >= 0 && r >= x
    ensures r == x || r == 0
  {
    if x < 0 then 0 else x
  }

  /** Adding one and then subtracting one in unchecked `int` arithmetic gives back the start, even across the wrap. */
  lemma IncDecInverse(x: int32)
    ensures Wrap32(Wrap32(x + 1) - 1) == x
  {
    if x == MaxInt32 {
      assert Wrap32(x + 1) == MinInt32;
    }
  }

  /** Subtracting one and then adding one in unchecked `int` arithmetic gives back the start, even across the wrap. */
  lemma DecIncInverse(x: int32)
    ensures Wrap32(Wrap32(x - 1) + 1) == x
  {
    if x == MinInt32 {
      assert Wrap32(x - 1) == MaxInt32;
    }
  }
}
