/** `Color` and its component-wise operators (raytracer/src/color.rs; the same code is
    src/color.rs). */
module Colors {
  import opened Arith

  datatype Color = Color(r: real, g: real, b: real)

  /** `color(r, g, b)`. */
  function MakeColor(r: real, g: real, b: real): (c: Color)
    ensures c.r == r && c.g == g && c.b == b
  {
    Color(r, g, b)
  }

  const Black := Color(0.0, 0.0, 0.0)
  const White := Color(1.0, 1.0, 1.0)

  function Add(c: Color, d: Color): Color { Color(c.r + d.r, c.g + d.g, c.b + d.b) }
  function Sub(c: Color, d: Color): Color { Color(c.r - d.r, c.g - d.g, c.b - d.b) }
  function Mul(c: Color, d: Color): Color { Color(c.r * d.r, c.g * d.g, c.b * d.b) }
  function Div(c: Color, d: Color): Color
    requires d.r != 0.0 && d.g != 0.0 && d.b != 0.0
  {
    Color(c.r / d.r, c.g / d.g, c.b / d.b)
  }

  function AddS(c: Color, k: real): Color { Color(c.r + k, c.g + k, c.b + k) }
  function SubS(c: Color, k: real): Color { Color(c.r - k, c.g - k, c.b - k) }
  function MulS(c: Color, k: real): Color { Color(c.r * k, c.g * k, c.b * k) }
  function DivS(c: Color, k: real): Color requires k != 0.0 { Color(c.r / k, c.g / k, c.b / k) }

  predicate Divisible(op: Op, other: Color) {
    Defined(op, other.r) && Defined(op, other.g) && Defined(op, other.b)
  }

  /** The colour-by-colour operator the macro generates for `op`. */
  function Combine(op: Op, c: Color, other: Color): Color
    requires Divisible(op, other)
  {
    match op
    case Plus => Add(c, other)
    case Minus => Sub(c, other)
    case Times => Mul(c, other)
    case Over => Div(c, other)
  }

  /** The colour-by-scalar operator the macro generates for `op`. */
  function Scale(op: Op, c: Color, k: real): Color
    requires Defined(op, k)
  {
    match op
    case Plus => AddS(c, k)
    case Minus => SubS(c, k)
    case Times => MulS(c, k)
    case Over => DivS(c, k)
  }

  /** Every operator acts on each channel separately, with the same scalar operator. */
  lemma OperatorsComponentwise(op: Op, c: Color, other: Color, k: real)
    requires Divisible(op, other) && Defined(op, k)
    ensures Combine(op, c, other) ==
      Color(Apply(op, c.r, other.r), Apply(op, c.g, other.g), Apply(op, c.b, other.b))
    ensures Scale(op, c, k) == Color(Apply(op, c.r, k), Apply(op, c.g, k), Apply(op, c.b, k))
  {
    CombineComponentwise(op, c, other);
    ScaleComponentwise(op, c, k);
  }

  lemma CombineComponentwise(op: Op, c: Color, other: Color)
    requires Divisible(op, other)
    ensures Combine(op, c, other) ==
      Color(Apply(op, c.r, other.r), Apply(op, c.g, other.g), Apply(op, c.b, other.b))
  {
    match op
    case Plus =>
    case Minus =>
    case Times =>
    case Over =>
  }

  lemma ScaleComponentwise(op: Op, c: Color, k: real)
    requires Defined(op, k)
    ensures Scale(op, c, k) == Color(Apply(op, c.r, k), Apply(op, c.g, k), Apply(op, c.b, k))
  {
    match op
    case Plus =>
    case Minus =>
    case Times =>
    case Over =>
  }

  /** `self $aop other`: the compound-assignment form updates the receiver one field at a
      time and leaves it equal to the binary operator's result. */
  method CombineAssign(c: Color, op: Op, other: Color) returns (self: Color)
    requires Divisible(op, other)
    ensures self == Combine(op, c, other)
  {
    self := c;
    self := self.(r := Apply(op, self.r, other.r));
    self := self.(g := Apply(op, self.g, other.g));
    self := self.(b := Apply(op, self.b, other.b));
  }

  /** `self $aop k` for a scalar `k`. */
  method ScaleAssign(c: Color, op: Op, k: real) returns (self: Color)
    requires Defined(op, k)
    ensures self == Scale(op, c, k)
  {
    self := c;
    self := self.(r := Apply(op, self.r, k));
    self := self.(g := Apply(op, self.g, k));
    self := self.(b := Apply(op, self.b, k));
  }

  /** Multiplying by black gives black; by white, or by the scalar 1, changes nothing. */
  lemma MulIdentities(c: Color)
    ensures Mul(c, Black) == Black && Mul(Black, c) == Black
    ensures Mul(c, White) == c && Mul(White, c) == c
    ensures MulS(c, 1.0) == c
  {
  }

  /** Component-wise multiplication is associative, which lets attenuations be
      compounded in any grouping. */
  lemma MulAssociative(c: Color, d: Color, e: Color)
    ensures Mul(Mul(c, d), e) == Mul(c, Mul(d, e))
  {
  }

  /** Subtraction undoes addition and division by a non-zero scalar undoes
      multiplication by it. */
  lemma InverseOperators(c: Color, d: Color, k: real)
    requires k != 0.0
    ensures Sub(Add(c, d), d) == c
    ensures DivS(MulS(c, k), k) == c
  {
  }

  /** Every component of `c` lies in the unit interval. */
  predicate InUnitCube(c: Color) {
    0.0 <= c.r <= 1.0 && 0.0 <= c.g <= 1.0 && 0.0 <= c.b <= 1.0
  }

  lemma UnitProduct(x: real, y: real)
    requires 0.0 <= x <= 1.0 && 0.0 <= y <= 1.0
    ensures 0.0 <= x * y <= 1.0
  {
    ProductBounds(x, y);
  }

  lemma ProductBounds(x: real, y: real)
    requires 0.0 <= x <= 1.0 && 0.0 <= y
    ensures 0.0 <= x * y <= y
  {
  }

  lemma MulInUnitCube(c: Color, d: Color)
    requires InUnitCube(c) && InUnitCube(d)
    ensures InUnitCube(Mul(c, d))
  {
    UnitProduct(c.r, d.r);
    UnitProduct(c.g, d.g);
    UnitProduct(c.b, d.b);
  }
}
