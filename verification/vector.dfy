/** `Vector3`: the arithmetic, products, normalisation, reflection and random sampling of
    raytracer/src/vector.rs. The earlier snapshot src/vector.rs has the same definitions
    minus `reflect`, `near_zero` and `random_normalized`. The `vector` module of expanded.rs
    keeps only the operators, `dot`, `cross`, `normalize` and a `length` computed as
    `sqrt(dot(self, self))` (see `LengthByDot`); it has no `vector3`, `length_squared`,
    random sampling, `reflect`, `near_zero` or `Into<Color>`. */
module Vectors {
  import opened Arith
  import opened Roots
  import opened Options
  import opened Rng
  import Colors

  datatype Vector3 = Vector3(x: real, y: real, z: real)

  /** `vector3(x, y, z)`. */
  function MakeVector(x: real, y: real, z: real): (v: Vector3)
    ensures v.x == x && v.y == y && v.z == z
  {
    Vector3(x, y, z)
  }

  const Zero := Vector3(0.0, 0.0, 0.0)

  function Add(u: Vector3, v: Vector3): Vector3 { Vector3(u.x + v.x, u.y + v.y, u.z + v.z) }
  function Sub(u: Vector3, v: Vector3): Vector3 { Vector3(u.x - v.x, u.y - v.y, u.z - v.z) }
  function Mul(u: Vector3, v: Vector3): Vector3 { Vector3(u.x * v.x, u.y * v.y, u.z * v.z) }
  function Div(u: Vector3, v: Vector3): Vector3
    requires v.x != 0.0 && v.y != 0.0 && v.z != 0.0
  {
    Vector3(u.x / v.x, u.y / v.y, u.z / v.z)
  }

  function AddS(v: Vector3, k: real): Vector3 { Vector3(v.x + k, v.y + k, v.z + k) }
  function SubS(v: Vector3, k: real): Vector3 { Vector3(v.x - k, v.y - k, v.z - k) }
  function MulS(v: Vector3, k: real): Vector3 { Vector3(v.x * k, v.y * k, v.z * k) }
  function DivS(v: Vector3, k: real): Vector3 requires k != 0.0 { Vector3(v.x / k, v.y / k, v.z / k) }

  function Neg(v: Vector3): Vector3 {
    Vector3(-v.x, -v.y, -v.z)
  }

  predicate Divisible(op: Op, other: Vector3) {
    Defined(op, other.x) && Defined(op, other.y) && Defined(op, other.z)
  }

  /** The vector-by-vector operator the macro generates for `op`. */
  function Combine(op: Op, v: Vector3, other: Vector3): Vector3
    requires Divisible(op, other)
  {
    match op
    case Plus => Add(v, other)
    case Minus => Sub(v, other)
    case Times => Mul(v, other)
    case Over => Div(v, other)
  }

  /** The vector-by-scalar operator the macro generates for `op`. */
  function Scale(op: Op, v: Vector3, k: real): Vector3
    requires Defined(op, k)
  {
    match op
    case Plus => AddS(v, k)
    case Minus => SubS(v, k)
    case Times => MulS(v, k)
    case Over => DivS(v, k)
  }

  /** Every operator acts on each component separately, with the same scalar operator. */
  lemma OperatorsComponentwise(op: Op, v: Vector3, other: Vector3, k: real)
    requires Divisible(op, other) && Defined(op, k)
    ensures Combine(op, v, other) ==
      Vector3(Apply(op, v.x, other.x), Apply(op, v.y, other.y), Apply(op, v.z, other.z))
    ensures Scale(op, v, k) == Vector3(Apply(op, v.x, k), Apply(op, v.y, k), Apply(op, v.z, k))
  {
    CombineComponentwise(op, v, other);
    ScaleComponentwise(op, v, k);
  }

  lemma CombineComponentwise(op: Op, v: Vector3, other: Vector3)
    requires Divisible(op, other)
    ensures Combine(op, v, other) ==
      Vector3(Apply(op, v.x, other.x), Apply(op, v.y, other.y), Apply(op, v.z, other.z))
  {
    match op
    case Plus =>
    case Minus =>
    case Times =>
    case Over =>
  }

  lemma ScaleComponentwise(op: Op, v: Vector3, k: real)
    requires Defined(op, k)
    ensures Scale(op, v, k) == Vector3(Apply(op, v.x, k), Apply(op, v.y, k), Apply(op, v.z, k))
  {
    match op
    case Plus =>
    case Minus =>
    case Times =>
    case Over =>
  }

  /** `self $aop other`: the compound-assignment form updates the receiver one field at a
      time and leaves it equal to the binary operator's result. */
  method CombineAssign(v: Vector3, op: Op, other: Vector3) returns (self: Vector3)
    requires Divisible(op, other)
    ensures self == Combine(op, v, other)
  {
    self := v;
    self := self.(x := Apply(op, self.x, other.x));
    self := self.(y := Apply(op, self.y, other.y));
    self := self.(z := Apply(op, self.z, other.z));
  }

  /** `self $aop k` for a scalar `k`. */
  method ScaleAssign(v: Vector3, op: Op, k: real) returns (self: Vector3)
    requires Defined(op, k)
    ensures self == Scale(op, v, k)
  {
    self := v;
    self := self.(x := Apply(op, self.x, k));
    self := self.(y := Apply(op, self.y, k));
    self := self.(z := Apply(op, self.z, k));
  }

  function Dot(u: Vector3, v: Vector3): real {
    u.x * v.x + u.y * v.y + u.z * v.z
  }

  function LengthSquared(v: Vector3): real {
    v.x * v.x + v.y * v.y + v.z * v.z
  }

  ghost function Length(v: Vector3): real {
    Sqrt(LengthSquared(v))
  }

  function Cross(u: Vector3, v: Vector3): Vector3 {
    Vector3(u.y * v.z - u.z * v.y, u.z * v.x - u.x * v.z, u.x * v.y - u.y * v.x)
  }

  /** `self / self.length()`; the zero vector has no direction, so it is excluded. */
  ghost function Normalize(v: Vector3): Vector3
    requires v != Zero
  {
    LengthSquaredPositive(v);
    DivS(v, Length(v))
  }

  function Reflect(v: Vector3, normal: Vector3): Vector3 {
    Sub(v, MulS(MulS(normal, Dot(v, normal)), 2.0))
  }

  const Tolerance: real := 0.00000001

  function Abs(a: real): real {
    if a < 0.0 then -a else a
  }

  predicate NearZero(v: Vector3) {
    Abs(v.x) < Tolerance && Abs(v.y) < Tolerance && Abs(v.z) < Tolerance
  }

  /** `Into<Color>`: the components carry over unchanged as red, green and blue. */
  function IntoColor(v: Vector3): (c: Colors.Color)
    ensures c.r == v.x && c.g == v.y && c.b == v.z
  {
    Colors.Color(v.x, v.y, v.z)
  }

  // ---- random sampling ------------------------------------------------------------

  /** `Vector3::random`: three draws, in x, y, z order. It needs exactly three draws, and
      with draws in `gen_range`'s range its components lie in the cube `[-1, 1)^3`. */
  function RandomVector(d: Draws): (r: Option<Sample<Vector3>>)
    ensures r.None? <==> |d| < 3
    ensures r.Some? ==> Consumed(d, r.value.rest) && |r.value.rest| == |d| - 3
    ensures r.Some? && InRange(d) ==> InCube(r.value.value)
  {
    if |d| < 3 then None
    else
      assert InRange(d) ==> -1.0 <= d[0] < 1.0 && -1.0 <= d[1] < 1.0 && -1.0 <= d[2] < 1.0;
      Some(Sample(Vector3(d[0], d[1], d[2]), d[3..]))
  }

  /** `random_in_unit_sphere`: draw three components until their squared length is below
      one. The accepted vector lies strictly inside the unit sphere, and when the draws are
      in `gen_range`'s range so are its components. */
  function RandomInUnitSphere(d: Draws): (r: Option<Sample<Vector3>>)
    ensures r.Some? ==> LengthSquared(r.value.value) < 1.0
    ensures r.Some? ==> Consumed(d, r.value.rest)
    decreases |d|
  {
    match RandomVector(d)
    case None => None
    case Some(Sample(v, rest)) =>
      if LengthSquared(v) < 1.0 then Some(Sample(v, rest)) else RandomInUnitSphere(rest)
  }

  /** Each component lies in `[-1, 1)`. */
  predicate InCube(v: Vector3) {
    -1.0 <= v.x < 1.0 && -1.0 <= v.y < 1.0 && -1.0 <= v.z < 1.0
  }

  /** `random_normalized` returns the unit-sphere sample as it is, without normalising it. */
  function RandomNormalized(d: Draws): (r: Option<Sample<Vector3>>)
    ensures r == RandomInUnitSphere(d)
  {
    RandomInUnitSphere(d)
  }

  // ---- properties -----------------------------------------------------------------

  lemma LengthSquaredPositive(v: Vector3)
    requires v != Zero
    ensures LengthSquared(v) > 0.0
  {
    assert v.x * v.x >= 0.0 && v.y * v.y >= 0.0 && v.z * v.z >= 0.0;
    if v.x != 0.0 {
      PositiveSquare(Abs(v.x));
    } else if v.y != 0.0 {
      PositiveSquare(Abs(v.y));
    } else {
      PositiveSquare(Abs(v.z));
    }
  }

  lemma LengthSquaredZero(v: Vector3)
    ensures LengthSquared(v) >= 0.0
    ensures LengthSquared(v) == 0.0 <==> v == Zero
  {
    if v != Zero {
      LengthSquaredPositive(v);
    }
  }

  lemma DotSymmetric(u: Vector3, v: Vector3)
    ensures Dot(u, v) == Dot(v, u)
  {
  }

  lemma LengthSquaredIsDot(v: Vector3)
    ensures LengthSquared(v) == Dot(v, v)
    ensures LengthSquared(v) >= 0.0
  {
  }

  /** Negating one side of a dot product negates it. */
  lemma DotNegated(u: Vector3, v: Vector3)
    ensures Dot(u, Neg(v)) == -Dot(u, v)
  {
    var w := Neg(v);
    assert u.x * w.x == -(u.x * v.x);
    assert u.y * w.y == -(u.y * v.y);
    assert u.z * w.z == -(u.z * v.z);
  }

  /** The cross product is orthogonal to both of its operands. */
  lemma CrossOrthogonal(a: Vector3, b: Vector3)
    ensures Dot(a, Cross(a, b)) == 0.0
    ensures Dot(b, Cross(a, b)) == 0.0
  {
  }

  /** Lagrange's identity `|u|²|v|² − (u·v)² == |u × v|²`, and with it the Cauchy–Schwarz
      inequality `(u·v)² <= |u|²|v|²`. */
  lemma CauchySchwarz(u: Vector3, v: Vector3)
    ensures LengthSquared(u) * LengthSquared(v) - Dot(u, v) * Dot(u, v) == LengthSquared(Cross(u, v))
    ensures Dot(u, v) * Dot(u, v) <= LengthSquared(u) * LengthSquared(v)
  {
    LengthSquaredZero(Cross(u, v));
  }

  /** A vector shorter than 1 has a component in `(-1, 1)` along any unit vector. */
  lemma ShortComponent(s: Vector3, n: Vector3)
    requires LengthSquared(n) == 1.0 && LengthSquared(s) < 1.0
    ensures -1.0 < Dot(s, n) < 1.0
  {
    CauchySchwarz(s, n);
    SquareBound(Dot(s, n), LengthSquared(s), LengthSquared(n));
  }

  /** A number whose square is at most `a b`, with `a < 1` and `b == 1`, lies in `(-1, 1)`. */
  lemma SquareBound(c: real, a: real, b: real)
    requires c * c <= a * b && a < 1.0 && b == 1.0
    ensures -1.0 < c < 1.0
  {
    SquareAtLeastOne(c);
  }

  /** Outside `(-1, 1)` a square is at least 1. */
  lemma SquareAtLeastOne(c: real)
    ensures c >= 1.0 || c <= -1.0 ==> c * c >= 1.0
  {
    if c >= 1.0 {
      assert c * c >= c;
    } else if c <= -1.0 {
      assert c * c >= -c;
    }
  }

  /** The dot product with `n` is linear in its first operand. */
  lemma DotSubScaled(u: Vector3, n: Vector3, k: real)
    ensures Dot(Sub(u, MulS(n, k)), n) == Dot(u, n) - k * Dot(n, n)
  {
    var w := Sub(u, MulS(n, k));
    SubScaledComponent(u.x, n.x, k);
    SubScaledComponent(u.y, n.y, k);
    SubScaledComponent(u.z, n.z, k);
    assert w.x == u.x - n.x * k && w.y == u.y - n.y * k && w.z == u.z - n.z * k;
  }

  lemma SubScaledComponent(a: real, n: real, k: real)
    ensures (a - n * k) * n == a * n - k * (n * n)
  {
  }

  /** `reflect` subtracts twice the projection on the normal: `v - 2(v.n)n`, for any `n`. */
  lemma ReflectFormula(v: Vector3, n: Vector3)
    ensures Reflect(v, n) == Sub(v, MulS(n, 2.0 * Dot(v, n)))
  {
    assert MulS(MulS(n, Dot(v, n)), 2.0) == MulS(n, 2.0 * Dot(v, n));
  }

  /** About a unit normal, `reflect` negates the normal component. */
  lemma ReflectAboutUnit(v: Vector3, n: Vector3)
    requires LengthSquared(n) == 1.0
    ensures Dot(Reflect(v, n), n) == -Dot(v, n)
  {
    var k := 2.0 * Dot(v, n);
    ReflectFormula(v, n);
    DotSubScaled(v, n, k);
    LengthSquaredIsDot(n);
  }

  /** Reflecting twice about the same unit normal gives back the original vector. */
  lemma ReflectTwice(v: Vector3, n: Vector3)
    requires LengthSquared(n) == 1.0
    ensures Reflect(Reflect(v, n), n) == v
  {
    ReflectAboutUnit(v, n);
    var r := Reflect(v, n);
    ReflectFormula(r, n);
    assert Dot(r, n) == -Dot(v, n);
    assert Reflect(r, n) == Sub(r, MulS(n, -2.0 * Dot(v, n)));
  }

  /** `near_zero` is strict: a component equal to the tolerance is not near zero. A vector
      that is not near zero is not the zero vector, and a near-zero vector is short. */
  lemma NearZeroProperties(v: Vector3)
    ensures NearZero(Zero)
    ensures !NearZero(Vector3(Tolerance, 0.0, 0.0))
    ensures !NearZero(Vector3(0.0, -Tolerance, 0.0))
    ensures !NearZero(v) ==> v != Zero
    ensures NearZero(v) ==> LengthSquared(v) < 3.0 * Tolerance * Tolerance
  {
    if NearZero(v) {
      SquareBelow(v.x, Tolerance);
      SquareBelow(v.y, Tolerance);
      SquareBelow(v.z, Tolerance);
    }
  }

  lemma SquareBelow(a: real, t: real)
    requires Abs(a) < t
    ensures a * a < t * t
  {
    SquareMonotone(Abs(a), t);
  }

  /** Scaling a vector by `1/k` scales its squared length by `1/k^2`. */
  lemma LengthSquaredDivS(v: Vector3, k: real)
    requires k != 0.0
    ensures LengthSquared(DivS(v, k)) * (k * k) == LengthSquared(v)
  {
    var w := DivS(v, k);
    assert w.x * k == v.x && w.y * k == v.y && w.z * k == v.z;
    calc {
      LengthSquared(w) * (k * k);
      (w.x * k) * (w.x * k) + (w.y * k) * (w.y * k) + (w.z * k) * (w.z * k);
      LengthSquared(v);
    }
  }

  /** Dividing by any positive square root of the squared length gives a unit vector. */
  lemma DivideByRootIsUnit(v: Vector3, len: real)
    requires len > 0.0 && len * len == LengthSquared(v)
    ensures LengthSquared(DivS(v, len)) == 1.0
  {
    LengthSquaredDivS(v, len);
    CancelSquare(LengthSquared(DivS(v, len)), len, LengthSquared(v));
  }

  /** A normalised non-zero vector has length one. */
  lemma NormalizeUnit(v: Vector3)
    requires SquareRootsExist()
    requires v != Zero
    ensures LengthSquared(Normalize(v)) == 1.0
    ensures Length(Normalize(v)) == 1.0
  {
    LengthSquaredPositive(v);
    SqrtSquared(LengthSquared(v));
    DivideByRootIsUnit(v, Length(v));
    SqrtOfSquare(1.0);
  }

  lemma CancelSquare(a: real, k: real, s: real)
    requires k != 0.0 && a * (k * k) == s && s == k * k
    ensures a == 1.0
  {
    SquareMonotone(0.0, Abs(k));
    var kk := k * k;
    assert Abs(k) * Abs(k) == kk;
    assert a * kk == s;
    CancelPositive(a, kk);
  }

  lemma CancelPositive(a: real, b: real)
    requires b > 0.0 && a * b == b
    ensures a == 1.0
  {
    assert (a - 1.0) * b == 0.0;
  }

  /** The vertical vectors normalise to the vertical unit vectors, whatever their length. */
  lemma NormalizeVertical(k: real)
    requires k > 0.0
    ensures Normalize(Vector3(0.0, k, 0.0)) == Vector3(0.0, 1.0, 0.0)
    ensures Normalize(Vector3(0.0, -k, 0.0)) == Vector3(0.0, -1.0, 0.0)
  {
    VerticalLength(k);
    VerticalLength(-k);
    assert Length(Vector3(0.0, k, 0.0)) == k;
    assert Length(Vector3(0.0, -k, 0.0)) == k;
    DivideVertical(k, k);
    DivideVertical(-k, k);
  }

  lemma DivideVertical(a: real, k: real)
    requires k != 0.0
    ensures DivS(Vector3(0.0, a, 0.0), k) == Vector3(0.0, a / k, 0.0)
    ensures a == k ==> a / k == 1.0
    ensures a == -k ==> a / k == -1.0
  {
  }

  lemma VerticalLength(a: real)
    requires a != 0.0
    ensures Length(Vector3(0.0, a, 0.0)) == Abs(a)
  {
    assert LengthSquared(Vector3(0.0, a, 0.0)) == Abs(a) * Abs(a);
    SqrtOfSquare(Abs(a));
  }

  /** expanded.rs computes the length as `sqrt(dot(self, self))`; it is the same length. */
  ghost function LengthByDot(v: Vector3): (len: real)
    ensures len == Length(v)
    ensures len >= 0.0 && (len == 0.0 <==> v == Zero)
  {
    LengthSquaredIsDot(v);
    LengthSquaredZero(v);
    Sqrt(Dot(v, v))
  }

  /** The `k`-th candidate of the rejection loop: draws `3k`, `3k+1` and `3k+2`. */
  function Candidate(d: Draws, k: nat): Vector3
    requires 3 * k + 3 <= |d|
  {
    RandomVector(d[3 * k..]).value.value
  }

  /** The rejection loop returns the first candidate whose squared length is below one,
      with the draws after it; every earlier candidate is rejected and redrawn. */
  lemma {:induction false} RejectionReturnsFirstAccepted(d: Draws, k: nat)
    requires 3 * k + 3 <= |d|
    requires forall j :: 0 <= j < k ==> LengthSquared(Candidate(d, j)) >= 1.0
    ensures LengthSquared(Candidate(d, k)) < 1.0 ==>
      RandomInUnitSphere(d) == Some(Sample(Candidate(d, k), d[3 * k + 3..]))
    ensures LengthSquared(Candidate(d, k)) >= 1.0 ==>
      RandomInUnitSphere(d) == RandomInUnitSphere(d[3 * k + 3..])
  {
    assert d[3 * 0..] == d;
    if k > 0 {
      assert LengthSquared(Candidate(d, 0)) >= 1.0;
      var rest := d[3..];
      forall j | 0 <= j < k - 1
        ensures LengthSquared(Candidate(rest, j)) >= 1.0
      {
        assert rest[3 * j..] == d[3 * (j + 1)..];
        assert Candidate(rest, j) == Candidate(d, j + 1);
      }
      RejectionReturnsFirstAccepted(rest, k - 1);
      assert rest[3 * (k - 1)..] == d[3 * k..];
      assert rest[3 * (k - 1) + 3..] == d[3 * k + 3..];
    } else {
      assert d[3..] == d[3 * k + 3..];
    }
  }

  /** `random_normalized` returns the unit-sphere sample as it is: three zero draws give
      the zero vector, whose squared length is zero rather than one. */
  lemma RandomNormalizedIsNotUnit(d: Draws)
    requires |d| >= 3 && d[0] == 0.0 && d[1] == 0.0 && d[2] == 0.0
    ensures RandomNormalized(d).Some? && RandomNormalized(d).value.value == Zero
    ensures LengthSquared(RandomNormalized(d).value.value) == 0.0
  {
    assert d[3 * 0..] == d;
    assert Candidate(d, 0) == Zero;
    RejectionReturnsFirstAccepted(d, 0);
  }

  /** With draws from `gen_range(-1.0..1.0)` the accepted vector also lies in the cube
      `[-1, 1)^3` the candidates are drawn from. */
  lemma {:induction false} UnitSphereSampleInCube(d: Draws)
    requires InRange(d)
    ensures RandomInUnitSphere(d).Some? ==> InCube(RandomInUnitSphere(d).value.value)
    decreases |d|
  {
    if |d| >= 3 {
      var v := RandomVector(d).value.value;
      if LengthSquared(v) >= 1.0 {
        assert InRange(d[3..]) by {
          forall i | 0 <= i < |d[3..]| ensures -1.0 <= d[3..][i] < 1.0 {
            assert d[3..][i] == d[i + 3];
          }
        }
        UnitSphereSampleInCube(d[3..]);
      }
    }
  }
}
