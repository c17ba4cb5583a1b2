/**
 * The parts of C#'s integer semantics the model depends on.
 *
 * C# `/` truncates toward zero and `%` takes the sign of the dividend,
 * whereas Dafny's `/` and `%` are Euclidean. Every `/`, `%` and
 * `Math.Abs` of the source is written with the functions below.
 */
module Runtime {

  /** The exceptions the core can raise. */
  datatype Exception =
    | NotImplementedException
    | ArgumentOutOfRangeException
    | ArgumentException

  /** `int.MaxValue` */
  const IntMaxValue: int := 0x7fff_ffff

  /** `Math.Abs` */
  function Abs(a: int): (r: nat)
    ensures r == a || r == -a
  {
    if a < 0 then -a else a
  }

  /**
   * C# `a / 2`: the half truncated toward zero. Every division of the core
   * is by 2, so the divisor is fixed here and the solver sees linear terms.
   */
  function Half(a: int): int
  {
    if a >= 0 then a / 2 else -((-a) / 2)
  }

  /** C# `a % 2`: the remainder that goes with `Half`. */
  function HalfRem(a: int): int
  {
    a - 2 * Half(a)
  }

  /**
   * `Half` and `HalfRem` are the truncating pair: the remainder has the
   * dividend's sign and is smaller than 2 in magnitude.
   */
  lemma HalfTruncates(a: int)
    ensures a == 2 * Half(a) + HalfRem(a)
    ensures -1 <= HalfRem(a) <= 1
    ensures a >= 0 ==> HalfRem(a) >= 0 && Half(a) == a / 2
    ensures a < 0 ==> HalfRem(a) <= 0 && Half(a) == -Half(-a)
    ensures Abs(HalfRem(a)) == (if a % 2 == 0 then 0 else 1)
  {
  }
}
