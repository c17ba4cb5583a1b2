/**
 * The random source of the generator, injected instead of a PRNG.
 *
 * `System.Random` is modelled as an infinite stream of uniform draws in
 * [0, 1) together with the number of draws already consumed. `NextDouble`
 * takes the next draw; `Next(lo, hi)` takes the next draw `u` and scales it
 * to `lo + floor(u * (hi - lo))`, which lies in the half-open range
 * [lo, hi) and is `lo` when `lo == hi`.
 */
module Randomness {
  import opened Wrappers
  import opened Runtime

  /** A uniform draw in [0, 1). */
  type Unit = r: real | 0.0 <= r < 1.0

  /** The integer `Random.Next(lo, hi)` returns for the draw `u`: `lo + floor(u * (hi - lo))`. */
  function Scale(lo: int, hi: int, u: Unit): (r: int)
    requires lo <= hi
    ensures lo == hi ==> r == lo
    ensures lo < hi ==> lo <= r < hi
  {
    TimesBounds(u, hi - lo);
    lo + Times(u, hi - lo).Floor
  }

  /**
   * The product `u * n`, written as repeated addition so that unfolding it
   * never hands the verifier a nonlinear term.
   */
  function Times(u: real, n: nat): real
  {
    if n == 0 then 0.0 else Times(u, n - 1) + u
  }

  /** A draw scaled by `n` lies in [0, n), and is 0 for `n == 0`. */
  lemma {:induction false} TimesBounds(u: Unit, n: nat)
    ensures 0.0 <= Times(u, n) <= n as real
    ensures n > 0 ==> Times(u, n) < n as real
  {
    if n > 0 {
      TimesBounds(u, n - 1);
    }
  }

  /** The `i`-th draw of a stream. */
  function Draw(stream: nat -> Unit, i: nat): Unit
  {
    stream(i)
  }

  class Random {
    /** The injected draws; `stream(i)` is the i-th draw ever taken. */
    const stream: nat -> Unit
    /** How many draws have been taken so far. */
    var drawn: nat

    constructor (stream: nat -> Unit)
      ensures this.stream == stream && drawn == 0
    {
      this.stream := stream;
      drawn := 0;
    }

    /** `Random.NextDouble()` */
    method NextDouble() returns (u: Unit)
      modifies this`drawn
      ensures u == Draw(stream, old(drawn)) && drawn == old(drawn) + 1
    {
      u := Draw(stream, drawn);
      drawn := drawn + 1;
    }

    /**
     * `Random.Next(lo, hi)`: throws when the range is inverted, before any
     * draw is taken.
     */
    method Next(lo: int, hi: int) returns (r: Result<int, Exception>)
      modifies this`drawn
      ensures lo > hi ==> r == Failure(ArgumentOutOfRangeException) && drawn == old(drawn)
      ensures lo <= hi ==> r == Success(Scale(lo, hi, Draw(stream, old(drawn)))) && drawn == old(drawn) + 1
    {
      if lo > hi {
        return Failure(ArgumentOutOfRangeException);
      }
      var u := NextDouble();
      r := Success(Scale(lo, hi, u));
    }
  }
}
