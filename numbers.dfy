/** JavaScript number helpers used on integer operands. */
module Numbers {

  /** `Math.ceil(a / b)` for a non-zero divisor: the least integer not below the exact quotient. */
  function CeilDiv(a: int, b: int): (q: int)
    requires b != 0
    ensures b > 0 ==> (q - 1) * b < a <= q * b
    ensures b < 0 ==> q * b <= a < (q - 1) * b
  {
    if b > 0 then -((-a) / b) else a / b
  }
}
