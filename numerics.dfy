/** Numbers as the ray tracer uses them: exact reals, the host's math library as
    oracle functions, and "no hit" as an Option instead of NaN. */
module Numerics {

  datatype Option<T> = None | Some(value: T)

  /** The library calls the engine makes (Math.sqrt, Math.pow, Math.tan, Math.PI).
      They are parameters of the model; nothing is known about them except where
      a lemma asks for `Sound`. */
  datatype MathLib = MathLib(sqrt: real -> real, pow: (real, real) -> real, tan: real -> real, pi: real)

  /** The one law the proofs use: `sqrt` is the exact non-negative square root. */
  ghost predicate Sound(m: MathLib)
  {
    forall x: real :: 0.0 <= x ==> 0.0 <= m.sqrt(x) && m.sqrt(x) * m.sqrt(x) == x
  }

  /** The tolerance of the source's `greaterEpsilon`. */
  const Epsilon: real := 0.0000000001

  function Abs(x: real): real { if x < 0.0 then -x else x }

  /** `greaterEpsilon(num)`: |num| > 1e-10. */
  predicate GreaterEpsilon(x: real) { Abs(x) > Epsilon }

  function Min(a: real, b: real): real { if a <= b then a else b }

  function Max(a: real, b: real): real { if a >= b then a else b }

  /** What `Sound` says at one point. */
  lemma SqrtSquared(m: MathLib, x: real)
    requires Sound(m) && 0.0 <= x
    ensures 0.0 <= m.sqrt(x) && m.sqrt(x) * m.sqrt(x) == x
  {
  }

  /** A sound square root is the identity on squares of non-negative numbers. */
  lemma SqrtOfSquare(m: MathLib, y: real)
    requires Sound(m) && 0.0 <= y
    ensures m.sqrt(y * y) == y
  {
    var s := m.sqrt(y * y);
    assert 0.0 <= s && s * s == y * y;
    if s < y {
      SquareStrictlyMonotone(s, y);
    } else if y < s {
      SquareStrictlyMonotone(y, s);
    }
  }

  /** Squaring is strictly increasing on the non-negative reals. */
  lemma SquareStrictlyMonotone(a: real, b: real)
    requires 0.0 <= a < b
    ensures a * a < b * b
  {
    assert 0.0 < (b - a) * b;
    assert 0.0 <= a * (b - a);
    assert b * b - a * a == (b - a) * b + a * (b - a);
  }
}
