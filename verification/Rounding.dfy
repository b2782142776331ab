/** Rounding of exact times to whole numbers, and the order of two times. */
module Rounding {

  function Ceil(x: real): int { -((-x).Floor) }

  function Max(a: real, b: real): real { if a >= b then a else b }
  function Min(a: real, b: real): real { if a <= b then a else b }
}
