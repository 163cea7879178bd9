/** Unsigned tick arithmetic.

    `OS_TICK` is an N-bit unsigned integer whose width comes from the port's
    type headers, so the modulus 2^N is a parameter (`Config.tickMod`) rather
    than a constant. Every C expression `a + b` or `a - b - 1u` over `OS_TICK`
    is written here as `Wrap(...)`: Dafny's `%` is Euclidean, so for a positive
    modulus it yields exactly the unsigned wrap-around result. */
module TickMath {

  /** The build-time configuration the tick code reads:
      - `tickMod`: 2^N, where N is the width of `OS_TICK`;
      - `thRdy`: `OS_TICK_TH_RDY`, the largest horizon an absolute match may lie ahead;
      - `wheelSize`: `OSCfg_TickWheelSize`, the number of spokes. */
  datatype Config = Config(tickMod: nat, thRdy: nat, wheelSize: nat) {
    /** The header constants are sane: a horizon strictly shorter than a full
        turn of the counter (so that `delta + 1u` never wraps) and a non-empty wheel. */
    predicate Valid() {
      2 <= tickMod && thRdy + 1 < tickMod && 0 < wheelSize
    }
  }

  /** Reduction of an integer expression to an `OS_TICK` value. */
  function Wrap(x: int, m: nat): (r: nat)
    requires 0 < m
    ensures r < m
    ensures 0 <= x < m ==> r == x
  {
    x % m
  }

  /** `a - b` in unsigned tick arithmetic: how many increments take `b` to `a`. */
  function Dist(a: int, b: int, m: nat): (r: nat)
    requires 0 < m
    ensures r < m
  {
    Wrap(a - b, m)
  }

  /** Euclidean remainder of an integer within one modulus of the range. */
  lemma WrapNear(x: int, m: nat)
    requires 0 < m && -(m as int) <= x < 2 * m
    ensures Wrap(x, m) == if x < 0 then x + m else if x < m then x else x - m
  {
    var d := x / m;
    assert x == d * m + x % m;
    MulBounds(d, m);
  }

  /** A quotient outside -1..1 scales the divisor past twice itself. */
  lemma MulBounds(d: int, m: nat)
    ensures d <= -2 ==> d * m <= -2 * m
    ensures d >= 2 ==> d * m >= 2 * m
  {
    if d <= -2 {
      assert (d + 2) * m <= 0;
    }
    if d >= 2 {
      assert (d - 2) * m >= 0;
    }
  }

  /** Counting one more tick from `t0 + j` is counting `j + 1` ticks from `t0`. */
  lemma WrapStep(t0: nat, j: nat, m: nat)
    requires 0 < m && t0 < m && j < m
    ensures Wrap(Wrap(t0 + j, m) + 1, m) == Wrap(t0 + j + 1, m)
  {
    WrapNear(t0 + j, m);
    WrapNear(Wrap(t0 + j, m) + 1, m);
    WrapNear(t0 + j + 1, m);
  }

  /** The distance from `b` to `a` is zero exactly when the two ticks coincide. */
  lemma DistZero(a: nat, b: nat, m: nat)
    requires 0 < m && a < m && b < m
    ensures Dist(a, b, m) == 0 <==> a == b
  {
    WrapNear(a - b, m);
  }

  /** The distance to `b + d` from `b` is `d`, for any `d` below the modulus. */
  lemma DistAfterAdd(b: nat, d: nat, m: nat)
    requires 0 < m && b < m && d < m
    ensures Dist(Wrap(b + d, m), b, m) == d
  {
    WrapNear(b + d, m);
    WrapNear(Wrap(b + d, m) - b, m);
  }

  /** One tick later, every match that is not due now is one tick closer. */
  lemma DistAfterTick(a: nat, now: nat, m: nat)
    requires 0 < m && a < m && now < m && a != now
    ensures Dist(a, Wrap(now + 1, m), m) == Dist(a, now, m) - 1
  {
    WrapNear(now + 1, m);
    WrapNear(a - now, m);
    WrapNear(a - Wrap(now + 1, m), m);
  }

  /** `(a - b - 1) + 1` recovers `a - b` unless the first difference wrapped to the top. */
  lemma DistPredecessor(a: nat, b: nat, m: nat)
    requires 0 < m && a < m && b < m
    requires Wrap(a - b - 1, m) + 1 < m
    ensures Dist(a, b, m) == Wrap(a - b - 1, m) + 1
  {
    WrapNear(a - b - 1, m);
    WrapNear(a - b, m);
  }
}
