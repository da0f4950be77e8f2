/** JVM integer widths and the Float-to-integer conversions the app uses,
    with Kotlin `Float` values modelled as mathematical reals. */
module Numeric {

  const IntMin: int := -0x8000_0000
  const IntMax: int := 0x7fff_ffff
  const LongMin: int := -0x8000_0000_0000_0000
  const LongMax: int := 0x7fff_ffff_ffff_ffff

  /** Fits in a Kotlin `Int`. */
  predicate IsInt32(x: int)
  {
    IntMin <= x <= IntMax
  }

  /** A Kotlin `Int`. */
  type Int32 = x: int | IsInt32(x)

  /** Two's-complement wrap-around of `Int` arithmetic. */
  function Wrap32(x: int): (r: int)
    ensures IsInt32(r)
    ensures (x - r) % 0x1_0000_0000 == 0
    ensures IsInt32(x) ==> r == x
  {
    (x - IntMin) % 0x1_0000_0000 + IntMin
  }

  /** Rounding toward zero. */
  function Truncate(x: real): (r: int)
    ensures 0.0 <= x ==> 0 <= r && r as real <= x < r as real + 1.0
    ensures x < 0.0 ==> r <= 0 && r as real - 1.0 < x <= r as real
  {
    if x >= 0.0 then x.Floor else -((-x).Floor)
  }

  function Clamp(x: int, lo: int, hi: int): (r: int)
    requires lo <= hi
    ensures lo <= r <= hi
    ensures lo <= x <= hi ==> r == x
    ensures x < lo ==> r == lo
    ensures hi < x ==> r == hi
  {
    if x < lo then lo else if hi < x then hi else x
  }

  /** `Float.toInt()`: truncation toward zero, saturating at the `Int` bounds. */
  function FloatToInt(x: real): (r: int)
    ensures IsInt32(r)
    ensures 0.0 <= x ==> 0 <= r && r as real <= x
    ensures 0.0 <= x < IntMax as real ==> x < r as real + 1.0
    ensures IntMin as real < x < 0.0 ==> r <= 0 && r as real - 1.0 < x <= r as real
    ensures IntMax as real <= x ==> r == IntMax
    ensures x <= IntMin as real ==> r == IntMin
  {
    Clamp(Truncate(x), IntMin, IntMax)
  }

  /** `Float.toLong()`: truncation toward zero, saturating at the `Long` bounds. */
  function FloatToLong(x: real): (r: int)
    ensures LongMin <= r <= LongMax
    ensures 0.0 <= x ==> 0 <= r && r as real <= x
    ensures 0.0 <= x < LongMax as real ==> x < r as real + 1.0
    ensures LongMin as real < x < 0.0 ==> r <= 0 && r as real - 1.0 < x <= r as real
    ensures LongMax as real <= x ==> r == LongMax
    ensures x <= LongMin as real ==> r == LongMin
  {
    Clamp(Truncate(x), LongMin, LongMax)
  }

  /** Kotlin `Int` division `/` and remainder `%` round toward zero. */
  function DivTrunc(a: int, b: int): (q: int)
    requires b > 0
    ensures a >= 0 ==> q == a / b
    ensures a < 0 ==> q == -((-a) / b)
  {
    if a >= 0 then a / b else -((-a) / b)
  }

  function RemTrunc(a: int, b: int): (r: int)
    requires b > 0
    ensures DivTrunc(a, b) * b + r == a
    ensures a >= 0 ==> 0 <= r < b
    ensures a < 0 ==> -b < r <= 0
  {
    a - DivTrunc(a, b) * b
  }
}
