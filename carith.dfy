/** C99 integer division and remainder, which truncate toward zero
    (Dafny's own `/` and `%` are Euclidean). The server divides only by
    positive constants, so the divisor is positive here. */
module CArith {

  function Abs(x: int): nat { if x < 0 then -x else x }

  /** `a / d` as C computes it: the quotient rounded toward zero. */
  function CDiv(a: int, d: int): (q: int)
    requires d > 0
    ensures a >= 0 ==> q >= 0 && q * d <= a < q * d + d
    ensures a < 0 ==> q <= 0 && q * d - d < a <= q * d
  {
    if a >= 0 then a / d else -((-a) / d)
  }

  /** `a % d` as C computes it: the remainder takes the sign of `a`. */
  function CMod(a: int, d: int): (r: int)
    requires d > 0
    ensures CDiv(a, d) * d + r == a
    ensures Abs(r) < d
    ensures a >= 0 ==> r >= 0
    ensures a <= 0 ==> r <= 0
  {
    a - CDiv(a, d) * d
  }
}
