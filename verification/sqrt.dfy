/** The square root of `f64::sqrt`, over the reals.

    The reals are complete, so every non-negative real has a non-negative square root;
    the verifier cannot derive that fact from its theory of arithmetic, so members that
    rely on it take `SquareRootsExist()` as a hypothesis. `Sqrt` itself needs no
    hypothesis for the roots it can see, such as that of a perfect square. */
module Roots {

  /** `r` is the non-negative square root of `x`. */
  predicate IsRoot(r: real, x: real) {
    r >= 0.0 && r * r == x
  }

  ghost predicate HasSqrt(x: real) {
    exists r: real :: IsRoot(r, x)
  }

  /** Completeness of the reals, restricted to square roots. */
  ghost predicate SquareRootsExist() {
    forall x: real :: x >= 0.0 ==> HasSqrt(x)
  }

  ghost function Sqrt(x: real): (r: real)
    requires x >= 0.0
    ensures r >= 0.0
    ensures r == 0.0 <==> x == 0.0
    ensures HasSqrt(x) ==> r * r == x
  {
    // The fallback is never taken for a real `x >= 0`; it only keeps the result
    // positive for positive `x` where the verifier cannot see a root.
    if r: real :| IsRoot(r, x) then PositiveSquare(r); r else x
  }

  lemma PositiveSquare(r: real)
    requires r >= 0.0
    ensures r * r == 0.0 <==> r == 0.0
  {
    if r > 0.0 {
      SquareMonotone(0.0, r);
    }
  }

  lemma SquareMonotone(r: real, s: real)
    requires 0.0 <= r < s
    ensures r * r < s * s
  {
    var rr, rs, ss := r * r, r * s, s * s;
    assert rr <= rs;
    assert rs < ss;
  }

  lemma NonNegativeRootUnique(x: real, r: real, s: real)
    requires r >= 0.0 && s >= 0.0
    requires r * r == x && s * s == x
    ensures r == s
  {
    if r < s {
      SquareMonotone(r, s);
    } else if s < r {
      SquareMonotone(s, r);
    }
  }

  /** `Sqrt(x) * Sqrt(x) == x` for every non-negative `x`, given completeness. */
  lemma SqrtSquared(x: real)
    requires SquareRootsExist()
    requires x >= 0.0
    ensures Sqrt(x) >= 0.0 && Sqrt(x) * Sqrt(x) == x
  {
    assert HasSqrt(x);
  }

  /** The root of a perfect square is found without any hypothesis. */
  lemma SqrtOfSquare(r: real)
    requires r >= 0.0
    ensures Sqrt(r * r) == r
  {
    assert HasSqrt(r * r) by { assert IsRoot(r, r * r); }
    NonNegativeRootUnique(r * r, Sqrt(r * r), r);
  }


  /** Square roots preserve "at least one". */
  lemma SqrtAtLeastOne(x: real)
    requires SquareRootsExist()
    requires x >= 1.0
    ensures Sqrt(x) >= 1.0
  {
    SqrtSquared(x);
    var r := Sqrt(x);
    if r < 1.0 {
      SquareMonotone(r, 1.0);
    }
  }
}
