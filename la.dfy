/** Integer 2D vectors and the scalar helpers of la.h.
    The C macros write their result into an output vector; here each one is a
    function returning that vector. C `int` overflow is not modelled. */
module LinearAlgebra {

  datatype Vec2 = Vec2(x: int, y: int)

  //----------------------------------------------------------------------
  // Scalar helpers: SIGN, ABS, MAX, MIN
  //----------------------------------------------------------------------

  /** SIGN: (x > 0) - (x < 0). */
  function Sign(v: int): (s: int)
    ensures s == -1 <==> v < 0
    ensures s == 0 <==> v == 0
    ensures s == 1 <==> v > 0
  {
    (if v > 0 then 1 else 0) - (if v < 0 then 1 else 0)
  }

  /** ABS: SIGN(x) * x, which is the absolute value. */
  function Abs(v: int): (a: int)
    ensures a >= 0
    ensures a == v || a == -v
    ensures a == 0 <==> v == 0
  {
    Sign(v) * v
  }

  /** MAX: (a > b) ? a : b */
  function Max(a: int, b: int): (m: int)
    ensures m == a || m == b
    ensures m >= a && m >= b
  {
    if a > b then a else b
  }

  /** MIN: (a > b) ? b : a */
  function Min(a: int, b: int): (m: int)
    ensures m == a || m == b
    ensures m <= a && m <= b
  {
    if a > b then b else a
  }

  //----------------------------------------------------------------------
  // Comparison operators: COMPARE2 joins the two component tests with &&
  //----------------------------------------------------------------------

  function Eql(a: Vec2, b: Vec2): (r: bool)
    ensures r <==> a == b
  {
    a.x == b.x && a.y == b.y
  }

  /** v2_neq is COMPARE2 with `!=`: BOTH components must differ. */
  function Neq(a: Vec2, b: Vec2): (r: bool)
    ensures r ==> !Eql(a, b)
    ensures r <==> !Eql(a, Vec2(a.x, b.y)) && !Eql(a, Vec2(b.x, a.y))
  {
    a.x != b.x && a.y != b.y
  }

  /** v2_gte: `a` is the componentwise maximum of `a` and `b`. */
  function Gte(a: Vec2, b: Vec2): (r: bool)
    ensures r <==> Vec2(Max(a.x, b.x), Max(a.y, b.y)) == a
  {
    a.x >= b.x && a.y >= b.y
  }

  /** v2_gtr: on integers, strictly greater is at least one more. */
  function Gtr(a: Vec2, b: Vec2): (r: bool)
    ensures r <==> Gte(a, AddS(b, 1))
    ensures r ==> Neq(a, b)
  {
    a.x > b.x && a.y > b.y
  }

  /** v2_lss is v2_gtr with the arguments swapped. */
  function Lss(a: Vec2, b: Vec2): (r: bool)
    ensures r <==> Gtr(b, a)
  {
    a.x < b.x && a.y < b.y
  }

  /** v2_lte is v2_gte with the arguments swapped. */
  function Lte(a: Vec2, b: Vec2): (r: bool)
    ensures r <==> Gte(b, a)
  {
    a.x <= b.x && a.y <= b.y
  }

  /** v2_eql and v2_neq are not complements: vectors that agree on one
      component and differ on the other satisfy neither. */
  lemma NeqIsNotNegatedEql()
    ensures exists a: Vec2, b: Vec2 :: !Eql(a, b) && !Neq(a, b)
  {
    var a, b := Vec2(1, 2), Vec2(1, 3);
    assert !Eql(a, b) && !Neq(a, b);
  }

  /** v2_gte is a partial order (the componentwise order), and v2_gtr
      excludes v2_lte. */
  lemma ComparisonsAreProductOrder(a: Vec2, b: Vec2, c: Vec2)
    ensures Gte(a, a)
    ensures Gte(a, b) && Gte(b, c) ==> Gte(a, c)
    ensures Gte(a, b) && Gte(b, a) <==> Eql(a, b)
    ensures Gtr(a, b) ==> !Lte(a, b)
  {
  }

  //----------------------------------------------------------------------
  // Arithmetic operators (ARITH2) and scalar operators (SCALAR2)
  //----------------------------------------------------------------------

  /** v2_add: subtracting either operand gives back the other. */
  function Add(a: Vec2, b: Vec2): (r: Vec2)
    ensures Sub(r, b) == a && Sub(r, a) == b
  {
    Vec2(a.x + b.x, a.y + b.y)
  }

  /** v2_sub: the difference is zero exactly for equal vectors. */
  function Sub(a: Vec2, b: Vec2): (r: Vec2)
    ensures r == Vec2(0, 0) <==> a == b
  {
    Vec2(a.x - b.x, a.y - b.y)
  }

  /** v2_mul: each component's sign is the product of the operands' signs,
      and its magnitude the product of their magnitudes. */
  function Mul(a: Vec2, b: Vec2): (r: Vec2)
    ensures Sign(r.x) == Sign(a.x) * Sign(b.x) && Sign(r.y) == Sign(a.y) * Sign(b.y)
    ensures Abs(r.x) == Abs(a.x) * Abs(b.x) && Abs(r.y) == Abs(a.y) * Abs(b.y)
  {
    Vec2(a.x * b.x, a.y * b.y)
  }

  /** C99 `/` on int: the quotient truncated toward zero. Its magnitude is
      that of the quotient of the magnitudes, and it is zero or carries
      the product of the operands' signs. */
  function TruncDiv(a: int, b: int): (q: int)
    requires b != 0
    ensures Abs(q) == Abs(a) / Abs(b)
    ensures q == 0 || Sign(q) == Sign(a) * Sign(b)
  {
    Sign(a) * Sign(b) * (Abs(a) / Abs(b))
  }

  /** C99 `%` on int: smaller than the divisor in magnitude, and zero or of
      the sign of the dividend. */
  function TruncRem(a: int, b: int): (m: int)
    requires b != 0
    ensures Abs(m) < Abs(b)
    ensures m == 0 || Sign(m) == Sign(a)
  {
    Sign(a) * (Abs(a) % Abs(b))
  }

  /** v2_div: componentwise truncating division. */
  function Div(a: Vec2, b: Vec2): (r: Vec2)
    requires b.x != 0 && b.y != 0
    ensures Abs(r.x) == Abs(a.x) / Abs(b.x) && Abs(r.y) == Abs(a.y) / Abs(b.y)
  {
    Vec2(TruncDiv(a.x, b.x), TruncDiv(a.y, b.y))
  }

  /** v2_rem: componentwise C remainder, below the divisor in magnitude. */
  function Rem(a: Vec2, b: Vec2): (r: Vec2)
    requires b.x != 0 && b.y != 0
    ensures Abs(r.x) < Abs(b.x) && Abs(r.y) < Abs(b.y)
  {
    Vec2(TruncRem(a.x, b.x), TruncRem(a.y, b.y))
  }

  /** The scalar operators are their vector operators applied to (s, s). */
  function AddS(a: Vec2, s: int): (r: Vec2)
    ensures r == Add(a, Vec2(s, s))
  {
    Vec2(a.x + s, a.y + s)
  }

  function SubS(a: Vec2, s: int): (r: Vec2)
    ensures r == Sub(a, Vec2(s, s))
  {
    Vec2(a.x - s, a.y - s)
  }

  function MulS(a: Vec2, s: int): (r: Vec2)
    ensures r == Mul(a, Vec2(s, s))
  {
    Vec2(a.x * s, a.y * s)
  }

  function DivS(a: Vec2, s: int): (r: Vec2)
    requires s != 0
    ensures r == Div(a, Vec2(s, s))
  {
    Vec2(TruncDiv(a.x, s), TruncDiv(a.y, s))
  }

  function RemS(a: Vec2, s: int): (r: Vec2)
    requires s != 0
    ensures r == Rem(a, Vec2(s, s))
  {
    Vec2(TruncRem(a.x, s), TruncRem(a.y, s))
  }

  /** v2_add undoes v2_sub. */
  lemma AddUndoesSub(a: Vec2, b: Vec2)
    ensures Add(Sub(a, b), b) == a
  {
  }

  /** The C division law for one component: a == b*(a/b) + a%b. */
  lemma TruncDivision(a: int, b: int)
    requires b != 0
    ensures a == b * TruncDiv(a, b) + TruncRem(a, b)
  {
    var q, m := Abs(a) / Abs(b), Abs(a) % Abs(b);
    assert Abs(a) == Abs(b) * q + m;
    assert b * Sign(b) == Abs(b) && a == Sign(a) * Abs(a);
    assert b * TruncDiv(a, b) == Sign(a) * (Abs(b) * q);
  }

  /** Truncation agrees with Dafny's Euclidean division on non-negative
      dividends and positive divisors. */
  lemma TruncAgreesOnNaturals(a: int, b: int)
    requires a >= 0 && b > 0
    ensures TruncDiv(a, b) == a / b && TruncRem(a, b) == a % b
  {
  }

  /** v2_div and v2_rem recombine into the dividend. */
  lemma DivRemRecombine(a: Vec2, b: Vec2)
    requires b.x != 0 && b.y != 0
    ensures Add(Mul(b, Div(a, b)), Rem(a, b)) == a
  {
    TruncDivision(a.x, b.x);
    TruncDivision(a.y, b.y);
  }

  //----------------------------------------------------------------------
  // Algorithmic operators
  //----------------------------------------------------------------------

  /** v2_sqr: each component squared. */
  function Sqr(a: Vec2): (r: Vec2)
    ensures r.x >= 0 && r.y >= 0
    ensures r.x == 0 <==> a.x == 0
    ensures r.y == 0 <==> a.y == 0
    ensures r.x == Abs(a.x) * Abs(a.x) && r.y == Abs(a.y) * Abs(a.y)
  {
    Mul(a, a)
  }

  /** v2_dst: the squared distance (a.x-b.x)^2 + (a.y-b.y)^2. The macro
      also leaves its scratch vector holding Sqr(Sub(a, b)). */
  function Dst(a: Vec2, b: Vec2): (d: int)
    ensures d >= 0
    ensures d == 0 <==> a == b
    ensures d == Abs(a.x - b.x) * Abs(a.x - b.x) + Abs(a.y - b.y) * Abs(a.y - b.y)
  {
    var r := Sqr(Sub(a, b));
    r.x + r.y
  }

  /** v2_sgn: the componentwise sign. */
  function Sgn(a: Vec2): (r: Vec2)
    ensures -1 <= r.x <= 1 && -1 <= r.y <= 1
    ensures r == Vec2(0, 0) <==> a == Vec2(0, 0)
    ensures (r.x == 0 <==> a.x == 0) && (r.y == 0 <==> a.y == 0)
    ensures Mul(r, a) == Vec2(Abs(a.x), Abs(a.y))
  {
    Vec2(Sign(a.x), Sign(a.y))
  }

  /** The squared distance does not depend on the order of its arguments. */
  lemma DstSymmetric(a: Vec2, b: Vec2)
    ensures Dst(a, b) == Dst(b, a)
  {
  }
}
