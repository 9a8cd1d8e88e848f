/** Types and arithmetic shared by the modules of the model. */
module Common {

  datatype Option<+T> = None | Some(value: T)

  /** The two return codes of the C library. */
  datatype Status = Success | Failure

  /** What a handle pointer points to. */
  class Handle {
    constructor () {}
  }

  /** Integer division as in C: the quotient is rounded towards zero. */
  function CDiv(a: int, b: int): int
    requires b > 0
  {
    if a >= 0 then a / b else -((-a) / b)
  }

  /** The remainder as in C: it has the sign of the dividend. */
  function CMod(a: int, b: int): int
    requires b > 0
  {
    a - b * CDiv(a, b)
  }
}
