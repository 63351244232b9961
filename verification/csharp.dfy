/** The few C# runtime notions the game logic depends on. */
module CSharp {

  /** A C# `int`: a 32-bit two's-complement integer. */
  newtype i32 = x: int | -0x8000_0000 <= x < 0x8000_0000

  const MaxInt: int := 0x7fff_ffff
  const MinInt: int := -0x8000_0000

  /** The exceptions the modelled code can throw. */
  datatype Exception =
    | ArgumentNull(paramName: string)   // System.ArgumentNullException
    | NullReference                      // System.NullReferenceException

  /** `x++` on an `int` in C#'s default unchecked context: the result is
      congruent to x + 1 modulo 2^32, so it is x + 1 except that int.MaxValue
      wraps round to int.MinValue. */
  function Increment(x: i32): (r: i32)
    ensures (r as int - x as int - 1) % 0x1_0000_0000 == 0
    ensures x as int < MaxInt ==> r as int == x as int + 1
  {
    if x as int == MaxInt then MinInt as i32 else x + 1
  }
}
