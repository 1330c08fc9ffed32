/** Simulated time as seen by the DEVS engine: a finite instant or the
    "never again" sentinel. The engine's double-precision time is modelled
    with unbounded integers; the largest finite double is kept as a
    constant because the engine starts its minimum computations from it. */
module DevsTime {

  datatype Time = Fin(v: int) | Inf

  /** The largest finite IEEE-754 double, (2^53 - 1) * 2^971. */
  const MaxDouble: int := 0xfffffffffffff800000000000000000000000000000000000000000000000000000000000000000000000000000000000000000000000000000000000000000000000000000000000000000000000000000000000000000000000000000000000000000000000000000000000000000000000000000000000000000000000000

  /** Strict order on times; Inf is later than every finite time. */
  predicate Before(a: Time, b: Time) {
    match (a, b)
    case (Fin(x), Fin(y)) => x < y
    case (Fin(_), Inf) => true
    case (Inf, _) => false
  }

  predicate NotAfter(a: Time, b: Time) {
    !Before(b, a)
  }

  /** A result the engine rejects with a modelling error. */
  predicate IsNegative(t: Time) {
    t.Fin? && t.v < 0
  }

  /** The engine's `std::min(tn, ret)`: keeps `a` unless `b` is strictly earlier. */
  function Min(a: Time, b: Time): (r: Time)
    ensures NotAfter(r, a) && NotAfter(r, b)
    ensures r == a || r == b
  {
    if Before(b, a) then b else a
  }
}
