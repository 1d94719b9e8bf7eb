/** Scalar helpers shared by the geometry package: the float operations of
    java.lang.Math that the routines use, modelled over real numbers. */
module Scalars {

  datatype Option<T> = None | Some(value: T)

  /** Math.abs */
  function Abs(a: real): (r: real)
    ensures r >= 0.0 && (r == a || r == -a)
  {
    if a < 0.0 then -a else a
  }

  /** Math.min */
  function Min(a: real, b: real): (r: real)
    ensures r <= a && r <= b && (r == a || r == b)
  {
    if a <= b then a else b
  }

  /** Math.max */
  function Max(a: real, b: real): (r: real)
    ensures r >= a && r >= b && (r == a || r == b)
  {
    if a >= b then a else b
  }

  /** root is the value Math.sqrt returns for x. Real square roots have no
      closed form here, so every routine that calls Math.sqrt receives the
      root as a parameter that satisfies this predicate. */
  predicate IsSqrt(root: real, x: real)
  {
    root >= 0.0 && root * root == x
  }

  /** The square root of a non-zero radicand is positive. */
  lemma SqrtPositive(root: real, x: real)
    requires IsSqrt(root, x) && x != 0.0
    ensures root > 0.0
  {
    assert root == 0.0 ==> root * root == 0.0;
  }

  /** Float.MAX_VALUE, (2 - 2^-23) * 2^127, the sentinel rayInCircle uses for "no hit". */
  const FloatMax: real := 340282346638528859811704183484516925440.0
}
