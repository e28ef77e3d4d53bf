/**
 Twisted Edwards curves: the affine addition law, that it keeps points on the curve, and that it is
 defined everywhere on it when `a` is a square and `d` is not.
 */
module EdwardsCurve {
  import opened Arithmetic
  import opened PrimeField

  datatype Point = Point(x: int, y: int)

  /** The curve `a * x^2 + y^2 == 1 + d * x^2 * y^2` over a field. */
  datatype Curve = Curve(f: Field, a: int, d: int) {
    /** `a` is a square and `d` is not: what makes the addition law complete. */
    ghost predicate Complete() {
      && f.Valid()
      && (exists s :: f.Eq(s * s, a))
      && (forall y {:trigger f.Eq(y * y, d)} :: !f.Eq(y * y, d))
    }

    predicate OnCurve(p: Point)
      requires f.p > 0
    {
      f.Element(p.x) && f.Element(p.y) && f.Eq(a * (p.x * p.x) + p.y * p.y, 1 + d * ((p.x * p.x) * (p.y * p.y)))
    }

    function T(p: Point, q: Point): int { d * ((p.x * q.x) * (p.y * q.y)) }

    function NumX(p: Point, q: Point): int { p.x * q.y + p.y * q.x }

    function NumY(p: Point, q: Point): int { p.y * q.y - a * (p.x * q.x) }

    /** The affine twisted Edwards law. */
    function Sum(p: Point, q: Point): Point
      requires f.p > 0
    {
      Point(f.Mul(NumX(p, q), f.Inv(1 + T(p, q))), f.Mul(NumY(p, q), f.Inv(1 - T(p, q))))
    }

    ghost predicate Denominators(p: Point, q: Point)
      requires f.p > 0
    {
      !f.Eq(1 + T(p, q), 0) && !f.Eq(1 - T(p, q), 0)
    }

    /** Where its denominators are not zero, the law's coordinates are the quotients it names. */
    lemma SumSolves(p: Point, q: Point)
      requires f.Valid() && Denominators(p, q)
      ensures f.Eq(Sum(p, q).x * (1 + T(p, q)), NumX(p, q))
      ensures f.Eq(Sum(p, q).y * (1 - T(p, q)), NumY(p, q))
    {
      Quotient(NumX(p, q), 1 + T(p, q));
      Quotient(NumY(p, q), 1 - T(p, q));
    }

    lemma Quotient(n: int, m: int)
      requires f.Valid() && !f.Eq(m, 0)
      ensures f.Eq(f.Mul(n, f.Inv(m)) * m, n)
    {
      f.EqMul(n, n, f.Inv(m), f.inverse(m));
      f.EqMul(f.Mul(n, f.Inv(m)), n * f.inverse(m), m, m);
      MulAssociate(n, f.inverse(m), m);
      f.UndoFactor(n, m);
    }
  }

  // ---------- the sum of two points of the curve is on the curve ----------

  /** The curve equation of the sum, cleared of denominators. */
  function SumEquation(a: int, d: int, nx: int, ny: int, plus: int, minus: int): int {
    a * (nx * nx) * (minus * minus) + ny * ny * (plus * plus)
      - (plus * plus) * (minus * minus) - d * (nx * nx) * (ny * ny)
  }

  /** The same in `m_i == a * x_i^2 + y_i^2` and `q_i == d * x_i^2 * y_i^2`. */
  function Defect(m1: int, m2: int, q1: int, q2: int): int {
    m1 * m2 * (1 + q1 * q2) - (1 - q1 * q2) * (1 - q1 * q2) - q1 * (m2 * m2) - q2 * (m1 * m1)
  }

  /** On the curve, where `m_i == 1 + q_i`, nothing is left. */
  lemma DefectVanishes(q1: int, q2: int)
    ensures Defect(1 + q1, 1 + q2, q1, q2) == 0
  {
  }

  /**
   With `u == nx^2 - 2 * st` and `v == ny^2 + 2 * a * st`, where `st` is the product of all four
   coordinates and `w == d * st`, the mixed terms of the equation cancel.
   */
  lemma MixedTermsCancel(a: int, d: int, nn: int, mm: int, st: int, u: int, v: int, w: int)
    requires nn == u + 2 * st && mm == v - 2 * (a * st) && w == d * st
    ensures a * nn * ((1 - w) * (1 - w)) + mm * ((1 + w) * (1 + w))
            - ((1 + w) * (1 + w)) * ((1 - w) * (1 - w)) - d * nn * mm
         == (a * u + v) * (1 + w * w) - (1 - w * w) * (1 - w * w) - d * (u * v) - 4 * (a * (w * st))
  {
    var e, plus, minus := 1 + w * w, (1 + w) * (1 + w), (1 - w) * (1 - w);
    assert plus == e + 2 * w && minus == e - 2 * w;
    DifferenceOfSquares(w, plus, minus);
    MulDistribute(u, 2 * st, a);
    MixedSides(a * u, a * st, v, e, w, a * nn, mm, minus, plus);
    MixedProduct(a, d, u, v, st, w, nn, mm);
    MulDistribute(a * u, v, e);
    MoveFactor(w, a, st);
  }

  lemma MoveFactor(x: int, y: int, z: int)
    ensures x * (y * z) == y * (x * z)
  {
  }

  lemma DifferenceOfSquares(w: int, plus: int, minus: int)
    requires plus == (1 + w) * (1 + w) && minus == (1 - w) * (1 - w)
    ensures plus * minus == (1 - w * w) * (1 - w * w)
  {
    Swap(1 + w, 1 + w, 1 - w, 1 - w);
    assert (1 + w) * (1 - w) == 1 - w * w;
  }

  lemma MixedSides(au: int, ast: int, v: int, e: int, w: int, an: int, mm: int, minus: int, plus: int)
    requires an == au + 2 * ast && mm == v - 2 * ast && minus == e - 2 * w && plus == e + 2 * w
    ensures an * minus + mm * plus == au * e + v * e - 2 * (w * au) + 2 * (w * v) - 8 * (w * ast)
  {
    Expand(au, 2 * ast, e, -2 * w);
    Expand(v, -2 * ast, e, 2 * w);
  }

  lemma MixedProduct(a: int, d: int, u: int, v: int, st: int, w: int, nn: int, mm: int)
    requires nn == u + 2 * st && mm == v - 2 * (a * st) && w == d * st
    ensures d * nn * mm == d * (u * v) - 2 * (w * (a * u)) + 2 * (w * v) - 4 * (w * (a * st))
  {
    var ast := a * st;
    MulAssociate(d, nn, mm);
    SumTimesDifference(u, st, v, ast);
    Scale(d, u * v, u * ast, st * v, st * ast);
    MoveFactor(u, a, st);
    MoveFactor(a, u, st);
    MulAssociate(d, st, a * u);
    assert u * ast == st * (a * u);
    MulAssociate(d, st, v);
    MulAssociate(d, st, ast);
  }

  lemma SumTimesDifference(u: int, x: int, v: int, y: int)
    ensures (u + 2 * x) * (v - 2 * y) == u * v - 2 * (u * y) + 2 * (x * v) - 4 * (x * y)
  {
    Expand(u, 2 * x, v, -2 * y);
  }

  lemma Scale(d: int, x: int, y: int, z: int, k: int)
    ensures d * (x - 2 * y + 2 * z - 4 * k) == d * x - 2 * (d * y) + 2 * (d * z) - 4 * (d * k)
  {
    MulDistribute(x - 2 * y, 2 * z - 4 * k, d);
    MulDistribute(x, -2 * y, d);
    MulDistribute(2 * z, -4 * k, d);
  }

  lemma Swap(w: int, x: int, y: int, z: int)
    ensures (w * x) * (y * z) == (w * y) * (x * z)
  {
  }

  lemma Expand(p: int, q: int, r: int, s: int)
    ensures (p + q) * (r + s) == p * r + p * s + q * r + q * s
  {
  }

  /** `u * v`, with `a_i == x_i^2` and `b_i == y_i^2`. */
  lemma ProductUV(a1: int, b1: int, a2: int, b2: int, aa: int)
    ensures (a1 * b2 + b1 * a2) * (b1 * b2 + aa * (a1 * a2))
         == (a1 * b1) * (aa * (a2 * a2) + b2 * b2) + (a2 * b2) * (aa * (a1 * a1) + b1 * b1)
  {
    Expand(a1 * b2, b1 * a2, b1 * b2, aa * (a1 * a2));
    Swap(a1, b2, b1, b2);
    Swap(b1, a2, b1, b2);
    ScaledSwap(a1, b2, aa, a2);
    ScaledSwap(a2, b1, aa, a1);
    MulDistribute(aa * (a2 * a2), b2 * b2, a1 * b1);
    MulDistribute(aa * (a1 * a1), b1 * b1, a2 * b2);
  }

  lemma ScaledSwap(x: int, y: int, aa: int, z: int)
    ensures (x * y) * (aa * (x * z)) == (z * y) * (aa * (x * x))
    ensures (y * x) * (aa * (z * x)) == (z * y) * (aa * (x * x))
  {
    assert (x * y) * (aa * (x * z)) == aa * ((x * x) * (y * z));
    assert (z * y) * (aa * (x * x)) == aa * ((x * x) * (y * z));
    assert x * z == z * x;
    assert x * y == y * x;
  }

  /** `a * u + v == m1 * m2`. */
  lemma FirstRelation(a: int, a1: int, b1: int, a2: int, b2: int)
    ensures a * (a1 * b2 + b1 * a2) + (b1 * b2 + a * a * (a1 * a2)) == (a * a1 + b1) * (a * a2 + b2)
  {
    Expand(a * a1, b1, a * a2, b2);
    Swap(a, a1, a, a2);
    MulDistribute(a1 * b2, b1 * a2, a);
    MulAssociate(a, a1, b2);
    MulAssociate(a, a2, b1);
  }

  /** `u * v + 4 * a * g * h == g * m2^2 + h * m1^2`, where `g == a1 * b1` and `h == a2 * b2`. */
  lemma SecondRelation(a: int, a1: int, b1: int, a2: int, b2: int, m1: int, m2: int, g: int, h: int, u: int, v: int)
    requires m1 == a * a1 + b1 && m2 == a * a2 + b2 && g == a1 * b1 && h == a2 * b2
    requires u == a1 * b2 + b1 * a2 && v == b1 * b2 + a * a * (a1 * a2)
    ensures u * v + 4 * a * (g * h) == g * (m2 * m2) + h * (m1 * m1)
  {
    var r, s := a * a * (a1 * a1) + b1 * b1, a * a * (a2 * a2) + b2 * b2;
    assert u * v == g * s + h * r by { ProductUV(a1, b1, a2, b2, a * a); }
    assert m1 * m1 == r + 2 * a * g by { SquareOfSum(a, a1, b1); }
    assert m2 * m2 == s + 2 * a * h by { SquareOfSum(a, a2, b2); }
    Combine(a, g, h, r, s, m1 * m1, m2 * m2, u * v);
  }

  lemma Combine(a: int, g: int, h: int, r: int, s: int, mm1: int, mm2: int, uv: int)
    requires mm1 == r + 2 * a * g && mm2 == s + 2 * a * h && uv == g * s + h * r
    ensures uv + 4 * a * (g * h) == g * mm2 + h * mm1
  {
    Regroup(g, h, r, s, a);
  }

  lemma SquareOfSum(a: int, x: int, y: int)
    ensures (a * x + y) * (a * x + y) == (a * a * (x * x) + y * y) + 2 * a * (x * y)
  {
  }

  lemma Regroup(g: int, h: int, r: int, s: int, a: int)
    ensures g * (s + 2 * a * h) + h * (r + 2 * a * g) == g * s + h * r + 4 * a * (g * h)
  {
  }

  /** The squared numerators, without their mixed terms. */
  lemma SquaredNumerators(a: int, x1: int, y1: int, x2: int, y2: int, s: int, t: int)
    requires s == x1 * x2 && t == y1 * y2
    ensures (x1 * y2 + y1 * x2) * (x1 * y2 + y1 * x2) == ((x1 * x1) * (y2 * y2) + (y1 * y1) * (x2 * x2)) + 2 * (s * t)
    ensures (t - a * s) * (t - a * s) == ((y1 * y1) * (y2 * y2) + a * a * ((x1 * x1) * (x2 * x2))) - 2 * a * (s * t)
    ensures (s * t) * (s * t) == ((x1 * x1) * (y1 * y1)) * ((x2 * x2) * (y2 * y2))
  {
    SquaredSum(x1, y1, x2, y2);
    assert (x1 * y2) * (y1 * x2) == s * t by { Swap(x1, y2, x2, y1); }
    SquaredDifference(a, x1, y1, x2, y2);
    Swap(s, t, s, t);
    Swap(x1, x2, x1, x2);
    Swap(y1, y2, y1, y2);
    Swap(x1 * x1, x2 * x2, y1 * y1, y2 * y2);
  }

  lemma SquaredSum(x1: int, y1: int, x2: int, y2: int)
    ensures (x1 * y2 + y1 * x2) * (x1 * y2 + y1 * x2)
         == ((x1 * x1) * (y2 * y2) + (y1 * y1) * (x2 * x2)) + 2 * ((x1 * y2) * (y1 * x2))
  {
    Expand(x1 * y2, y1 * x2, x1 * y2, y1 * x2);
    Swap(x1, y2, x1, y2);
    Swap(y1, x2, y1, x2);
  }

  lemma SquaredDifference(a: int, x1: int, y1: int, x2: int, y2: int)
    ensures var s, t := x1 * x2, y1 * y2;
      (t - a * s) * (t - a * s) == ((y1 * y1) * (y2 * y2) + a * a * ((x1 * x1) * (x2 * x2))) - 2 * a * (s * t)
  {
    Swap(y1, y2, y1, y2);
    Swap(x1, x2, x1, x2);
    SquareOfSum(a, -(x1 * x2), y1 * y2);
  }

  /** Cleared of denominators, the curve equation of the sum is the defect of the two summands. */
  lemma EquationIsDefect(a: int, d: int, x1: int, y1: int, x2: int, y2: int, w: int)
    requires w == d * ((x1 * x2) * (y1 * y2))
    ensures SumEquation(a, d, x1 * y2 + y1 * x2, y1 * y2 - a * (x1 * x2), 1 + w, 1 - w)
         == Defect(a * (x1 * x1) + y1 * y1, a * (x2 * x2) + y2 * y2,
                   d * ((x1 * x1) * (y1 * y1)), d * ((x2 * x2) * (y2 * y2)))
  {
    var s, t := x1 * x2, y1 * y2;
    var a1, b1, a2, b2 := x1 * x1, y1 * y1, x2 * x2, y2 * y2;
    SquaredNumerators(a, x1, y1, x2, y2, s, t);
    FirstRelation(a, a1, b1, a2, b2);
    var u, v := a1 * b2 + b1 * a2, b1 * b2 + a * a * (a1 * a2);
    SecondRelation(a, a1, b1, a2, b2, a * a1 + b1, a * a2 + b2, a1 * b1, a2 * b2, u, v);
    Assemble(a, d, s, t, u, v, a * a1 + b1, a * a2 + b2, a1 * b1, a2 * b2,
             x1 * y2 + y1 * x2, y1 * y2 - a * (x1 * x2));
  }

  lemma Assemble(a: int, d: int, s: int, t: int, u: int, v: int, m1: int, m2: int, g: int, h: int, nx: int, ny: int)
    requires nx * nx == u + 2 * (s * t) && ny * ny == v - 2 * a * (s * t)
    requires a * u + v == m1 * m2 && (s * t) * (s * t) == g * h
    requires u * v + 4 * a * (g * h) == g * (m2 * m2) + h * (m1 * m1)
    ensures SumEquation(a, d, nx, ny, 1 + d * (s * t), 1 - d * (s * t)) == Defect(m1, m2, d * g, d * h)
  {
    var w, st := d * (s * t), s * t;
    MoveFactor(a, s, t);
    assert ny * ny == v - 2 * (a * st);
    MixedTermsCancel(a, d, nx * nx, ny * ny, st, u, v, w);
    assert w * w == (d * g) * (d * h) by { Swap(d, st, d, st); Swap(d, g, d, h); }
    assert w * st == d * (g * h) by { MulAssociate(d, st, st); }
    assert d * (u * v) + 4 * a * (w * st) == (d * g) * (m2 * m2) + (d * h) * (m1 * m1) by {
      Scaled(a, d, g, h, u * v, m1 * m1, m2 * m2);
    }
  }

  lemma Scaled(a: int, d: int, g: int, h: int, uv: int, mm1: int, mm2: int)
    requires uv + 4 * a * (g * h) == g * mm2 + h * mm1
    ensures d * uv + 4 * a * (d * (g * h)) == (d * g) * mm2 + (d * h) * mm1
  {
    assert d * (uv + 4 * a * (g * h)) == d * uv + 4 * a * (d * (g * h));
    assert d * (g * mm2 + h * mm1) == (d * g) * mm2 + (d * h) * mm1;
  }

  lemma EqDefect(f: Field, m1: int, m1': int, m2: int, m2': int, q1: int, q2: int)
    requires f.Valid() && f.Eq(m1, m1') && f.Eq(m2, m2')
    ensures f.Eq(Defect(m1, m2, q1, q2), Defect(m1', m2', q1, q2))
  {
    var k, l := 1 + q1 * q2, (1 - q1 * q2) * (1 - q1 * q2);
    f.EqMul(m1, m1', m2, m2');
    f.EqMul(m1 * m2, m1' * m2', k, k);
    f.EqMul(m1, m1', m1, m1');
    f.EqMul(m2, m2', m2, m2');
    f.EqMul(q1, q1, m2 * m2, m2' * m2');
    f.EqMul(q2, q2, m1 * m1, m1' * m1');
    f.EqSub(m1 * m2 * k, m1' * m2' * k, l, l);
    f.EqSub(m1 * m2 * k - l, m1' * m2' * k - l, q1 * (m2 * m2), q1 * (m2' * m2'));
    f.EqSub(m1 * m2 * k - l - q1 * (m2 * m2), m1' * m2' * k - l - q1 * (m2' * m2'), q2 * (m1 * m1), q2 * (m1' * m1'));
  }

  lemma EqSumEquation(c: Curve, nx: int, nx': int, ny: int, ny': int, plus: int, minus: int)
    requires c.f.Valid() && c.f.Eq(nx, nx') && c.f.Eq(ny, ny')
    ensures c.f.Eq(SumEquation(c.a, c.d, nx, ny, plus, minus), SumEquation(c.a, c.d, nx', ny', plus, minus))
  {
    var f, a, d, pp, mm := c.f, c.a, c.d, plus * plus, minus * minus;
    f.EqMul(nx, nx', nx, nx');
    f.EqMul(ny, ny', ny, ny');
    f.EqMul(a, a, nx * nx, nx' * nx');
    f.EqMul(a * (nx * nx), a * (nx' * nx'), mm, mm);
    f.EqMul(ny * ny, ny' * ny', pp, pp);
    f.EqAdd(a * (nx * nx) * mm, a * (nx' * nx') * mm, ny * ny * pp, ny' * ny' * pp);
    f.EqSub(a * (nx * nx) * mm + ny * ny * pp, a * (nx' * nx') * mm + ny' * ny' * pp, pp * mm, pp * mm);
    f.EqMul(d, d, nx * nx, nx' * nx');
    f.EqMul(d * (nx * nx), d * (nx' * nx'), ny * ny, ny' * ny');
    f.EqSub(a * (nx * nx) * mm + ny * ny * pp - pp * mm, a * (nx' * nx') * mm + ny' * ny' * pp - pp * mm,
            d * (nx * nx) * (ny * ny), d * (nx' * nx') * (ny' * ny'));
  }

  /** The equation of a point, scaled by the squares of two denominators. */
  lemma ScaledEquation(a: int, d: int, x: int, y: int, plus: int, minus: int)
    ensures SumEquation(a, d, x * plus, y * minus, plus, minus)
         == (a * (x * x) + y * y - (1 + d * ((x * x) * (y * y)))) * ((plus * plus) * (minus * minus))
  {
    var xx, yy, pp, mm := x * x, y * y, plus * plus, minus * minus;
    Swap(x, plus, x, plus);
    Swap(y, minus, y, minus);
    assert a * (xx * pp) * mm == (a * xx) * (pp * mm) by { MulAssociate(a, xx, pp); MulAssociate(a * xx, pp, mm); }
    assert yy * mm * pp == yy * (pp * mm);
    assert d * (xx * pp) * (yy * mm) == (d * (xx * yy)) * (pp * mm) by {
      Swap(xx, pp, yy, mm);
      MulAssociate(d, xx * pp, yy * mm);
      MulAssociate(d, xx * yy, pp * mm);
    }
    FactorOut(a * xx, yy, d * (xx * yy), pp * mm);
  }

  lemma FactorOut(g: int, h: int, i: int, k: int)
    ensures g * k + h * k - k - i * k == (g + h - (1 + i)) * k
  {
  }

  /** The sum of two points of the curve is a point of the curve, wherever the law is defined. */
  lemma SumOnCurve(c: Curve, p: Point, q: Point)
    requires c.f.Valid() && c.OnCurve(p) && c.OnCurve(q) && c.Denominators(p, q)
    ensures c.OnCurve(c.Sum(p, q))
  {
    var f, s, plus, minus := c.f, c.Sum(p, q), 1 + c.T(p, q), 1 - c.T(p, q);
    var nx, ny := c.NumX(p, q), c.NumY(p, q);
    c.SumSolves(p, q);
    EqSumEquation(c, s.x * plus, nx, s.y * minus, ny, plus, minus);
    EquationIsDefect(c.a, c.d, p.x, p.y, q.x, q.y, c.T(p, q));
    var q1, q2 := c.d * ((p.x * p.x) * (p.y * p.y)), c.d * ((q.x * q.x) * (q.y * q.y));
    EqDefect(f, c.a * (p.x * p.x) + p.y * p.y, 1 + q1, c.a * (q.x * q.x) + q.y * q.y, 1 + q2, q1, q2);
    DefectVanishes(q1, q2);
    ScaledEquation(c.a, c.d, s.x, s.y, plus, minus);
    var left, right := c.a * (s.x * s.x) + s.y * s.y, 1 + c.d * ((s.x * s.x) * (s.y * s.y));
    assert f.Eq((left - right) * ((plus * plus) * (minus * minus)), 0);
    NonZeroProduct(f, plus, minus);
    f.NoZeroDivisors(left - right, (plus * plus) * (minus * minus));
    f.EqAdd(left - right, 0, right, right);
    assert left - right + right == left;
  }

  lemma NonZeroProduct(f: Field, x: int, y: int)
    requires f.Valid() && !f.Eq(x, 0) && !f.Eq(y, 0)
    ensures !f.Eq((x * x) * (y * y), 0)
  {
    if f.Eq((x * x) * (y * y), 0) {
      f.NoZeroDivisors(x * x, y * y);
      if f.Eq(x * x, 0) {
        f.NoZeroDivisors(x, x);
      } else {
        f.NoZeroDivisors(y, y);
      }
    }
  }

  // ---------- the law is defined everywhere on the curve ----------

  /** `v^2 == d * u^2` with `u` not zero would make `d` a square. */
  lemma SquareRatio(c: Curve, v: int, u: int)
    requires c.Complete() && c.f.Eq(v * v, c.d * (u * u))
    ensures c.f.Eq(u, 0)
  {
    var f := c.f;
    if !f.Eq(u, 0) {
      var w := f.inverse(u);
      f.EqMul(v * v, c.d * (u * u), w * w, w * w);
      Swap(v, v, w, w);
      assert c.d * (u * u) * (w * w) == c.d * ((u * w) * (u * w)) by {
        MulAssociate(c.d, u * u, w * w);
        Swap(u, u, w, w);
      }
      f.EqMul(u * w, 1, u * w, 1);
      f.EqMul(c.d, c.d, (u * w) * (u * w), 1 * 1);
      assert f.Eq((v * w) * (v * w), c.d);
    }
  }

  /** If `d * x1 * x2 * y1 * y2` is `e`, a sign, then `(s * x1 + e * y1)^2 == d * (x1 * y1 * (s * x2 + y2))^2`. */
  lemma SignRelation(c: Curve, p: Point, q: Point, s: int, e: int)
    requires c.f.Valid() && c.OnCurve(p) && c.OnCurve(q)
    requires c.f.Eq(s * s, c.a) && c.f.Eq(c.T(p, q), e) && e * e == 1
    ensures var v, u := s * p.x + e * p.y, (p.x * p.y) * (s * q.x + q.y); c.f.Eq(v * v, c.d * (u * u))
  {
    SignLeft(c, p, s, e);
    SignRight(c, p, q, s, e);
  }

  lemma SignLeft(c: Curve, p: Point, s: int, e: int)
    requires c.f.Valid() && c.OnCurve(p) && c.f.Eq(s * s, c.a) && e * e == 1
    ensures c.f.Eq((s * p.x + e * p.y) * (s * p.x + e * p.y),
                   1 + c.d * ((p.x * p.x) * (p.y * p.y)) + 2 * (s * ((p.x * p.y) * e)))
  {
    var f, a1, b1, both := c.f, p.x * p.x, p.y * p.y, 2 * (s * ((p.x * p.y) * e));
    SignSquare(s, p.x, p.y, e);
    SquaredForm(c, s, p);
    f.EqAdd(s * s * a1 + b1, 1 + c.d * (a1 * b1), both, both);
  }

  /** The curve equation with a square root of `a`. */
  lemma SquaredForm(c: Curve, s: int, p: Point)
    requires c.f.Valid() && c.OnCurve(p) && c.f.Eq(s * s, c.a)
    ensures c.f.Eq(s * s * (p.x * p.x) + p.y * p.y, 1 + c.d * ((p.x * p.x) * (p.y * p.y)))
  {
    var a1, b1 := p.x * p.x, p.y * p.y;
    c.f.EqMul(s * s, c.a, a1, a1);
    c.f.EqAdd(s * s * a1, c.a * a1, b1, b1);
  }

  lemma SignRight(c: Curve, p: Point, q: Point, s: int, e: int)
    requires c.f.Valid() && c.OnCurve(q) && c.f.Eq(s * s, c.a) && c.f.Eq(c.T(p, q), e) && e * e == 1
    ensures var u := (p.x * p.y) * (s * q.x + q.y);
            c.f.Eq(c.d * (u * u), 1 + c.d * ((p.x * p.x) * (p.y * p.y)) + 2 * (s * ((p.x * p.y) * e)))
  {
    var f, xy, t := c.f, p.x * p.y, c.T(p, q);
    var q1, q2 := c.d * ((p.x * p.x) * (p.y * p.y)), c.d * ((q.x * q.x) * (q.y * q.y));
    SignProduct(c.d, p.x, p.y, q.x, q.y, s);
    SquaredForm(c, s, q);
    var m2 := s * s * (q.x * q.x) + q.y * q.y;
    f.EqMul(q1, q1, m2, 1 + q2);
    SquaredT(c.d, p.x, p.y, q.x, q.y);
    SignTail(f, q1, q2, m2, t, e, xy, s);
  }

  lemma SignTail(f: Field, q1: int, q2: int, m2: int, t: int, e: int, xy: int, s: int)
    requires f.Valid() && f.Eq(t, e) && e * e == 1 && q1 * q2 == t * t && f.Eq(q1 * m2, q1 * (1 + q2))
    ensures f.Eq(q1 * m2 + 2 * (s * (xy * t)), 1 + q1 + 2 * (s * (xy * e)))
  {
    f.EqMul(t, e, t, e);
    f.EqAdd(q1, q1, t * t, 1);
    MulDistribute(1, q2, q1);
    f.EqMul(xy, xy, t, e);
    f.EqMul(s, s, xy * t, xy * e);
    f.EqMul(2, 2, s * (xy * t), s * (xy * e));
    f.EqAdd(q1 * m2, q1 + 1, 2 * (s * (xy * t)), 2 * (s * (xy * e)));
  }

  lemma SignSquare(s: int, x: int, y: int, e: int)
    requires e * e == 1
    ensures (s * x + e * y) * (s * x + e * y) == (s * s * (x * x) + y * y) + 2 * (s * ((x * y) * e))
  {
    Expand(s * x, e * y, s * x, e * y);
    Swap(s, x, s, x);
    Swap(e, y, e, y);
    assert (s * x) * (e * y) == s * ((x * y) * e);
  }

  lemma SignProduct(d: int, x1: int, y1: int, x2: int, y2: int, s: int)
    ensures var u := (x1 * y1) * (s * x2 + y2);
            d * (u * u) == d * ((x1 * x1) * (y1 * y1)) * (s * s * (x2 * x2) + y2 * y2)
                           + 2 * (s * ((x1 * y1) * (d * ((x1 * x2) * (y1 * y2)))))
  {
    var xy, z := x1 * y1, s * x2 + y2;
    Swap(xy, z, xy, z);
    Swap(x1, y1, x1, y1);
    SquareOfSum(s, x2, y2);
    var g, r, k := xy * xy, s * s * (x2 * x2) + y2 * y2, x2 * y2;
    assert (xy * z) * (xy * z) == g * (r + 2 * s * k);
    assert (x1 * x2) * (y1 * y2) == xy * k by { Swap(x1, x2, y1, y2); }
    assert d * (g * (r + 2 * s * k)) == d * g * r + 2 * (s * (xy * (d * (xy * k)))) by {
      assert g * (r + 2 * s * k) == g * r + 2 * (s * (xy * (xy * k)));
      assert d * (s * (xy * (xy * k))) == s * (xy * (d * (xy * k)));
    }
  }

  lemma SquaredT(d: int, x1: int, y1: int, x2: int, y2: int)
    ensures (d * ((x1 * x1) * (y1 * y1))) * (d * ((x2 * x2) * (y2 * y2)))
         == (d * ((x1 * x2) * (y1 * y2))) * (d * ((x1 * x2) * (y1 * y2)))
  {
    SquaredNumerators(0, x1, y1, x2, y2, x1 * x2, y1 * y2);
    Swap(d, (x1 * x1) * (y1 * y1), d, (x2 * x2) * (y2 * y2));
    Swap(d, (x1 * x2) * (y1 * y2), d, (x1 * x2) * (y1 * y2));
  }

  /** One of `x1 * y1` and `s * x2 + y2` would have to vanish. */
  lemma SignFactor(c: Curve, p: Point, q: Point, s: int, e: int)
    requires c.Complete() && c.OnCurve(p) && c.OnCurve(q)
    requires c.f.Eq(s * s, c.a) && c.f.Eq(c.T(p, q), e) && e * e == 1
    ensures c.f.Eq(p.x * p.y, 0) || c.f.Eq(s * q.x + q.y, 0)
  {
    SignRelation(c, p, q, s, e);
    SquareRatio(c, s * p.x + e * p.y, (p.x * p.y) * (s * q.x + q.y));
    c.f.NoZeroDivisors(p.x * p.y, s * q.x + q.y);
  }

  /** If a factor of `d * x1 * x2 * y1 * y2` vanishes, so does the product. */
  lemma VanishingT(c: Curve, p: Point, q: Point)
    requires c.f.Valid() && (c.f.Eq(p.x * p.y, 0) || c.f.Eq(q.y, 0))
    ensures c.f.Eq(c.T(p, q), 0)
  {
    var f := c.f;
    Swap(p.x, q.x, p.y, q.y);
    if f.Eq(p.x * p.y, 0) {
      f.EqMul(p.x * p.y, 0, q.x * q.y, q.x * q.y);
    } else {
      f.EqMul(p.y, p.y, q.y, 0);
      f.EqMul(p.x * q.x, p.x * q.x, p.y * q.y, 0);
    }
    f.EqMul(c.d, c.d, (p.x * q.x) * (p.y * q.y), 0);
  }

  /** `d * x1 * x2 * y1 * y2` is never a sign. */
  lemma NeverASign(c: Curve, p: Point, q: Point, e: int)
    requires c.Complete() && c.OnCurve(p) && c.OnCurve(q) && (e == 1 || e == -1)
    ensures !c.f.Eq(c.T(p, q), e)
  {
    var f := c.f;
    if f.Eq(c.T(p, q), e) {
      var s :| f.Eq(s * s, c.a);
      assert (-s) * (-s) == s * s;
      SignFactor(c, p, q, s, e);
      SignFactor(c, p, q, -s, e);
      if !f.Eq(p.x * p.y, 0) {
        OppositeFactors(f, s * q.x, q.y, -s * q.x);
      }
      VanishingT(c, p, q);
      SignNotZero(f, e);
    }
  }

  lemma OppositeFactors(f: Field, x: int, y: int, x': int)
    requires f.Valid() && x' == -x && f.Eq(x + y, 0) && f.Eq(x' + y, 0)
    ensures f.Eq(y, 0)
  {
    f.EqAdd(x + y, 0, x' + y, 0);
    assert (x + y) + (x' + y) == 2 * y;
    f.TwoIsNotZero();
    f.NoZeroDivisors(2, y);
  }

  lemma SignNotZero(f: Field, e: int)
    requires f.Valid() && (e == 1 || e == -1)
    ensures !f.Eq(e, 0)
  {
    f.TwoIsNotZero();
    if f.Eq(e, 0) {
      f.EqMul(e, 0, e, 0);
    }
  }

  /** The addition law is complete: its denominators never vanish on the curve. */
  lemma LawIsComplete(c: Curve, p: Point, q: Point)
    requires c.Complete() && c.OnCurve(p) && c.OnCurve(q)
    ensures c.Denominators(p, q) && c.OnCurve(c.Sum(p, q))
  {
    var f, t := c.f, c.T(p, q);
    NeverASign(c, p, q, 1);
    NeverASign(c, p, q, -1);
    if f.Eq(1 + t, 0) {
      f.EqSub(1 + t, 0, 1, 1);
    }
    if f.Eq(1 - t, 0) {
      f.EqSub(1, 1, 1 - t, 0);
    }
    SumOnCurve(c, p, q);
  }
}
