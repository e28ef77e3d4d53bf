/**
 The Baby Jubjub group (Specification section of ERC-2494): projective addition without divisions,
 and double-and-add.
 */
module BabyJubjub {
  import opened Arithmetic
  import opened PrimeField
  import opened EdwardsCurve
  import opened Multiples

  const A := 168_700
  const D := 168_696

  function TheCurve(f: Field): Curve { Curve(f, A, D) }

  /** The prime of the field the source computes in. */
  const Q := 21888242871839275222246405745257275088548364400416034343698204186575808495617

  /** `A` is a square in that field, so completeness rests on `D` not being one. */
  lemma AIsASquare(f: Field)
    requires f.p == Q
    ensures exists s :: f.Eq(s * s, A)
  {
    var s := 7214280148105020021932206872019688659210616427216992810330019057549499971851;
    var k := 2377798819214617165433476951344251911883635150415111281305020607251752899453;
    assert s * s == A + k * Q;
    ReduceShift(f.p, A, k);
    assert f.Eq(s * s, A);
  }

  datatype Projective = Projective(x: int, y: int, z: int)

  const IDENTITY := Point(0, 1)

  function ToProjective(p: Point): Projective { Projective(p.x, p.y, 1) }

  function ToAffine(c: Curve, r: Projective): Point
    requires c.f.p > 0
  {
    if c.f.Eq(r.z, 0) then Point(0, 0)
    else
      var zinv := c.f.Inv(r.z);
      Point(c.f.Mul(r.x, zinv), c.f.Mul(r.y, zinv))
  }

  /** The addition formula add-2008-bbjlp, step by step. */
  function Add(c: Curve, r: Projective, q: Projective): Projective
    requires c.f.p > 0
  {
    var a := c.f.Mul(r.z, q.z);
    var b := c.f.Mul(a, a);
    var xx := c.f.Mul(r.x, q.x);
    var yy := c.f.Mul(r.y, q.y);
    var e := c.f.Mul(c.f.Mul(c.d, xx), yy);
    var f := c.f.Sub(b, e);
    var g := c.f.Add(b, e);
    var aux := c.f.Sub(c.f.Sub(c.f.Mul(c.f.Add(r.x, r.y), c.f.Add(q.x, q.y)), xx), yy);
    var ac := c.f.Mul(c.a, xx);
    var dac := c.f.Sub(yy, ac);
    Projective(c.f.Mul(c.f.Mul(a, f), aux), c.f.Mul(c.f.Mul(a, g), dac), c.f.Mul(f, g))
  }

  // ---------- projective addition computes the affine law ----------

  /** `r` stands for the affine point `p`. */
  ghost predicate Represents(c: Curve, r: Projective, p: Point)
    requires c.f.p > 0
  {
    !c.f.Eq(r.z, 0) && c.f.Eq(r.x, p.x * r.z) && c.f.Eq(r.y, p.y * r.z)
  }

  lemma ProjectiveRepresents(c: Curve, p: Point)
    requires c.f.Valid()
    ensures Represents(c, ToProjective(p), p)
  {
    c.f.TwoIsNotZero();
  }

  /** Going back to affine coordinates recovers the point. */
  lemma AffineRecovers(c: Curve, r: Projective, p: Point)
    requires c.f.Valid() && Represents(c, r, p) && c.f.Element(p.x) && c.f.Element(p.y)
    ensures ToAffine(c, r) == p
  {
    Undivide(c.f, r.x, p.x, r.z);
    Undivide(c.f, r.y, p.y, r.z);
  }

  lemma Undivide(f: Field, n: int, x: int, z: int)
    requires f.Valid() && !f.Eq(z, 0) && f.Eq(n, x * z) && f.Element(x)
    ensures f.Mul(n, f.Inv(z)) == x
  {
    f.EqMul(n, x * z, f.Inv(z), f.inverse(z));
    MulAssociate(x, z, f.inverse(z));
    f.UndoFactor(x, z);
  }

  /** The intermediate values of an addition, in terms of the affine points and `k == z1 * z2`. */
  lemma AddSteps(c: Curve, r: Projective, q: Projective, p1: Point, p2: Point, k: int)
    requires c.f.Valid() && Represents(c, r, p1) && Represents(c, q, p2) && k == r.z * q.z
    ensures var xx, yy := c.f.Mul(r.x, q.x), c.f.Mul(r.y, q.y);
            && c.f.Eq(c.f.Mul(r.z, q.z), k)
            && c.f.Eq(c.f.Mul(c.f.Mul(c.d, xx), yy), c.T(p1, p2) * (k * k))
            && c.f.Eq(c.f.Sub(c.f.Sub(c.f.Mul(c.f.Add(r.x, r.y), c.f.Add(q.x, q.y)), xx), yy), c.NumX(p1, p2) * k)
            && c.f.Eq(c.f.Sub(yy, c.f.Mul(c.a, xx)), c.NumY(p1, p2) * k)
  {
    var f, xx, yy := c.f, c.f.Mul(r.x, q.x), c.f.Mul(r.y, q.y);
    var s, t := p1.x * p2.x, p1.y * p2.y;
    f.EqMul(r.z, r.z, q.z, q.z);
    f.EqMul(r.x, p1.x * r.z, q.x, p2.x * q.z);
    Swap(p1.x, r.z, p2.x, q.z);
    f.EqMul(r.y, p1.y * r.z, q.y, p2.y * q.z);
    Swap(p1.y, r.z, p2.y, q.z);
    StepE(f, c.d, xx, yy, s, t, k);
    StepAux(c, r, q, p1, p2, xx, yy, k);
    StepDac(f, c.a, xx, yy, s, t, k);
  }

  lemma StepE(f: Field, d: int, xx: int, yy: int, s: int, t: int, k: int)
    requires f.Valid() && f.Eq(xx, s * k) && f.Eq(yy, t * k)
    ensures f.Eq(f.Mul(f.Mul(d, xx), yy), d * (s * t) * (k * k))
  {
    f.EqMul(d, d, xx, s * k);
    f.EqMul(f.Mul(d, xx), d * (s * k), yy, t * k);
    MulAssociate(d, s * k, t * k);
    Swap(s, k, t, k);
    MulAssociate(d, s * t, k * k);
  }

  lemma StepAux(c: Curve, r: Projective, q: Projective, p1: Point, p2: Point, xx: int, yy: int, k: int)
    requires c.f.Valid() && Represents(c, r, p1) && Represents(c, q, p2) && k == r.z * q.z
    requires c.f.Eq(xx, (p1.x * p2.x) * k) && c.f.Eq(yy, (p1.y * p2.y) * k)
    ensures c.f.Eq(c.f.Sub(c.f.Sub(c.f.Mul(c.f.Add(r.x, r.y), c.f.Add(q.x, q.y)), xx), yy), c.NumX(p1, p2) * k)
  {
    var f, s, t := c.f, p1.x * p2.x, p1.y * p2.y;
    f.EqAdd(r.x, p1.x * r.z, r.y, p1.y * r.z);
    f.EqAdd(q.x, p2.x * q.z, q.y, p2.y * q.z);
    var sum1, sum2 := p1.x * r.z + p1.y * r.z, p2.x * q.z + p2.y * q.z;
    f.EqMul(f.Add(r.x, r.y), sum1, f.Add(q.x, q.y), sum2);
    var product := f.Mul(f.Add(r.x, r.y), f.Add(q.x, q.y));
    f.EqSub(product, sum1 * sum2, xx, s * k);
    f.EqSub(f.Sub(product, xx), sum1 * sum2 - s * k, yy, t * k);
    AuxIsNumX(p1.x, p1.y, p2.x, p2.y, r.z, q.z);
  }

  lemma StepDac(f: Field, a: int, xx: int, yy: int, s: int, t: int, k: int)
    requires f.Valid() && f.Eq(xx, s * k) && f.Eq(yy, t * k)
    ensures f.Eq(f.Sub(yy, f.Mul(a, xx)), (t - a * s) * k)
  {
    f.EqMul(a, a, xx, s * k);
    f.EqSub(yy, t * k, f.Mul(a, xx), a * (s * k));
    MulAssociate(a, s, k);
    MulDistribute(t, a * s, k);
  }

  lemma AuxIsNumX(x1: int, y1: int, x2: int, y2: int, z1: int, z2: int)
    ensures (x1 * z1 + y1 * z1) * (x2 * z2 + y2 * z2) - (x1 * x2) * (z1 * z2) - (y1 * y2) * (z1 * z2)
         == (x1 * y2 + y1 * x2) * (z1 * z2)
  {
    Expand(x1 * z1, y1 * z1, x2 * z2, y2 * z2);
    Swap(x1, z1, x2, z2);
    Swap(x1, z1, y2, z2);
    Swap(y1, z1, x2, z2);
    Swap(y1, z1, y2, z2);
    MulDistribute(x1 * y2, y1 * x2, z1 * z2);
  }

  /** Adding projectively computes the affine sum, wherever the affine law is defined. */
  lemma AddRepresents(c: Curve, r: Projective, q: Projective, p1: Point, p2: Point)
    requires c.f.Valid() && Represents(c, r, p1) && Represents(c, q, p2) && c.Denominators(p1, p2)
    ensures Represents(c, Add(c, r, q), c.Sum(p1, p2))
  {
    var f, k, t := c.f, r.z * q.z, c.T(p1, p2);
    AddSteps(c, r, q, p1, p2, k);
    c.SumSolves(p1, p2);
    var a, e := f.Mul(r.z, q.z), f.Mul(f.Mul(c.d, f.Mul(r.x, q.x)), f.Mul(r.y, q.y));
    var minus, plus := f.Sub(f.Mul(a, a), e), f.Add(f.Mul(a, a), e);
    AddFactors(f, a, e, k, t);
    if f.Eq(k, 0) {
      f.NoZeroDivisors(r.z, q.z);
    }
    var sum := c.Sum(p1, p2);
    Coordinate(f, a, minus, k, 1 - t, 1 + t, c.NumX(p1, p2), sum.x,
      f.Sub(f.Sub(f.Mul(f.Add(r.x, r.y), f.Add(q.x, q.y)), f.Mul(r.x, q.x)), f.Mul(r.y, q.y)), f.Mul(minus, plus));
    Coordinate(f, a, plus, k, 1 + t, 1 - t, c.NumY(p1, p2), sum.y,
      f.Sub(f.Mul(r.y, q.y), f.Mul(c.a, f.Mul(r.x, q.x))), f.Mul(minus, plus));
    NonZeroThird(f, 1 - t, 1 + t, k, f.Mul(minus, plus));
  }

  /** The two factors of the third coordinate. */
  lemma AddFactors(f: Field, a: int, e: int, k: int, t: int)
    requires f.Valid() && f.Eq(a, k) && f.Eq(e, t * (k * k))
    ensures var minus, plus := f.Sub(f.Mul(a, a), e), f.Add(f.Mul(a, a), e);
            && f.Eq(minus, (1 - t) * (k * k))
            && f.Eq(plus, (1 + t) * (k * k))
            && f.Eq(f.Mul(minus, plus), ((1 - t) * (k * k)) * ((1 + t) * (k * k)))
            && f.Eq(f.Mul(minus, plus), ((1 + t) * (k * k)) * ((1 - t) * (k * k)))
  {
    f.EqMul(a, k, a, k);
    f.EqSub(f.Mul(a, a), k * k, e, t * (k * k));
    f.EqAdd(f.Mul(a, a), k * k, e, t * (k * k));
    MulDistribute(1, t, k * k);
    f.EqMul(f.Sub(f.Mul(a, a), e), (1 - t) * (k * k), f.Add(f.Mul(a, a), e), (1 + t) * (k * k));
    assert ((1 - t) * (k * k)) * ((1 + t) * (k * k)) == ((1 + t) * (k * k)) * ((1 - t) * (k * k)) by {
      Commute((1 - t) * (k * k), (1 + t) * (k * k));
    }
  }

  lemma Commute(x: int, y: int)
    ensures x * y == y * x
  {
  }

  /** One coordinate: `a * m * aux` over `z3` is the affine quotient `v`. */
  lemma Coordinate(f: Field, a: int, m: int, k: int, u: int, w: int, n: int, v: int, aux: int, z3: int)
    requires f.Valid() && f.Eq(a, k) && f.Eq(m, u * (k * k)) && f.Eq(aux, n * k) && f.Eq(v * w, n)
    requires f.Eq(z3, (u * (k * k)) * (w * (k * k)))
    ensures f.Eq(f.Mul(f.Mul(a, m), aux), v * z3)
  {
    var kk := k * k;
    f.EqMul(a, k, m, u * kk);
    f.EqMul(f.Mul(a, m), k * (u * kk), aux, n * k);
    CollectLeft(k, u, n, kk);
    f.EqMul(v, v, z3, (u * kk) * (w * kk));
    CollectRight(v, u, w, kk);
    f.EqMul(v * w, n, u * (kk * kk), u * (kk * kk));
  }

  lemma CollectLeft(k: int, u: int, n: int, kk: int)
    requires kk == k * k
    ensures k * (u * kk) * (n * k) == n * (u * (kk * kk))
  {
    assert k * (u * kk) == u * (k * kk);
    Swap(u, k * kk, n, k);
    assert (k * kk) * k == kk * kk;
    assert (u * n) * (kk * kk) == n * (u * (kk * kk));
  }

  lemma CollectRight(v: int, u: int, w: int, kk: int)
    ensures v * ((u * kk) * (w * kk)) == v * w * (u * (kk * kk))
  {
    Swap(u, kk, w, kk);
    var k4 := kk * kk;
    assert v * ((u * w) * k4) == v * w * (u * k4);
  }

  lemma NonZeroThird(f: Field, u: int, w: int, k: int, z3: int)
    requires f.Valid() && !f.Eq(u, 0) && !f.Eq(w, 0) && !f.Eq(k, 0)
    requires f.Eq(z3, (u * (k * k)) * (w * (k * k)))
    ensures !f.Eq(z3, 0)
  {
    if f.Eq(z3, 0) {
      f.NoZeroDivisors(u * (k * k), w * (k * k));
      if f.Eq(u * (k * k), 0) {
        f.NoZeroDivisors(u, k * k);
      } else {
        f.NoZeroDivisors(w, k * k);
      }
      f.NoZeroDivisors(k, k);
    }
  }

  // ---------- multiplication by a scalar ----------

  function SumOn(c: Curve): (Point, Point) -> Point requires c.f.p > 0 { (p, q) => c.Sum(p, q) }

  function AddOn(c: Curve): (Projective, Projective) -> Projective requires c.f.p > 0 { (r, q) => Add(c, r, q) }

  ghost function MemberOf(c: Curve): Point -> bool requires c.f.p > 0 { p => c.OnCurve(p) }

  ghost function RepOf(c: Curve): (Projective, Point) -> bool requires c.f.p > 0 { (r, p) => Represents(c, r, p) }

  /** `n` additions of `p` by the affine law. */
  function TimesPoint(c: Curve, n: nat, p: Point): Point
    requires c.f.p > 0
  {
    Times(SumOn(c), IDENTITY, n, p)
  }

  function SumLeft(c: Curve, p: Point, q: Point, r: Point): Point
    requires c.f.p > 0
  {
    c.Sum(c.Sum(p, q), r)
  }

  /** The one property of the group law taken as a hypothesis. */
  ghost predicate Associative(c: Curve)
    requires c.f.p > 0
  {
    forall p, q, r {:trigger SumLeft(c, p, q, r)} :: c.OnCurve(p) && c.OnCurve(q) && c.OnCurve(r) ==>
      SumLeft(c, p, q, r) == c.Sum(p, c.Sum(q, r))
  }

  ghost predicate Group(c: Curve) { c.Complete() && Associative(c) }

  lemma IdentityIsNeutral(c: Curve, p: Point)
    requires c.f.Valid() && c.f.Element(p.x) && c.f.Element(p.y)
    ensures c.Sum(IDENTITY, p) == p == c.Sum(p, IDENTITY)
  {
    var f := c.f;
    assert f.Inv(1) == 1 by {
      f.TwoIsNotZero();
      assert f.Eq(1 * f.inverse(1), 1);
    }
    assert c.T(IDENTITY, p) == 0 && c.NumX(IDENTITY, p) == p.x && c.NumY(IDENTITY, p) == p.y;
    assert c.T(p, IDENTITY) == 0 && c.NumX(p, IDENTITY) == p.x && c.NumY(p, IDENTITY) == p.y;
  }

  lemma IdentityOnCurve(c: Curve)
    requires c.f.Valid()
    ensures c.OnCurve(IDENTITY)
  {
  }

  /** Given associativity, the points of the curve form a monoid. */
  lemma CurveMonoid(c: Curve)
    requires Group(c)
    ensures Monoid(SumOn(c), IDENTITY, MemberOf(c))
  {
    var sum, member := SumOn(c), MemberOf(c);
    IdentityOnCurve(c);
    forall p, q {:trigger sum(p, q)} | member(p) && member(q)
      ensures member(sum(p, q))
    {
      LawIsComplete(c, p, q);
    }
    forall p | member(p)
      ensures sum(IDENTITY, p) == p && sum(p, IDENTITY) == p
    {
      IdentityIsNeutral(c, p);
    }
    forall p, q, r {:trigger sum(sum(p, q), r)} | member(p) && member(q) && member(r)
      ensures sum(sum(p, q), r) == sum(p, sum(q, r))
    {
      Reassociate(c, p, q, r);
    }
  }

  lemma Reassociate(c: Curve, p: Point, q: Point, r: Point)
    requires Group(c) && c.OnCurve(p) && c.OnCurve(q) && c.OnCurve(r)
    ensures c.Sum(c.Sum(p, q), r) == c.Sum(p, c.Sum(q, r))
  {
    assert SumLeft(c, p, q, r) == c.Sum(c.Sum(p, q), r);
  }

  lemma AddIsHomomorphic(c: Curve)
    requires c.Complete()
    ensures Homomorphic(SumOn(c), AddOn(c), MemberOf(c), RepOf(c))
  {
    forall r, q, a, b | Represents(c, r, a) && Represents(c, q, b) && c.OnCurve(a) && c.OnCurve(b)
      ensures Represents(c, Add(c, r, q), c.Sum(a, b))
    {
      LawIsComplete(c, a, b);
      AddRepresents(c, r, q, a, b);
    }
  }

  function Magnitude(n: int): nat { if n < 0 then -n else n }

  lemma ScalarStart(c: Curve, p: Point, bits: seq<bool>)
    requires Group(c) && c.OnCurve(p)
    ensures Doubling(SumOn(c), IDENTITY, RepOf(c), p, bits, 0, Projective(0, 1, 1), ToProjective(p))
  {
    CurveMonoid(c);
    ProjectiveRepresents(c, IDENTITY);
    ProjectiveRepresents(c, p);
    DoublingStarts(SumOn(c), IDENTITY, MemberOf(c), RepOf(c), p, bits, Projective(0, 1, 1), ToProjective(p));
  }

  lemma ScalarStep(c: Curve, p: Point, bits: seq<bool>, i: nat, r: Projective, exp: Projective)
    requires Group(c) && c.OnCurve(p) && i < |bits| && Doubling(SumOn(c), IDENTITY, RepOf(c), p, bits, i, r, exp)
    ensures Doubling(SumOn(c), IDENTITY, RepOf(c), p, bits, i + 1,
                     if bits[i] then AddOn(c)(r, exp) else r, AddOn(c)(exp, exp))
  {
    CurveMonoid(c);
    AddIsHomomorphic(c);
    DoublingStep(SumOn(c), IDENTITY, AddOn(c), MemberOf(c), RepOf(c), p, bits, i, r, exp);
  }

  /** The multiples of a point of the curve are on the curve. */
  lemma TimesOnCurve(c: Curve, n: nat, p: Point)
    requires Group(c) && c.OnCurve(p)
    ensures c.OnCurve(TimesPoint(c, n, p))
  {
    CurveMonoid(c);
    TimesMember(SumOn(c), IDENTITY, MemberOf(c), n, p);
  }

  lemma ScalarEnd(c: Curve, p: Point, m: nat, r: Projective, exp: Projective)
    requires Group(c) && c.OnCurve(p) && Doubling(SumOn(c), IDENTITY, RepOf(c), p, Bits(m), |Bits(m)|, r, exp)
    ensures ToAffine(c, r) == TimesPoint(c, m, p)
  {
    BitsSpell(m);
    TimesOnCurve(c, m, p);
    AffineRecovers(c, r, TimesPoint(c, m, p));
  }

  /**
   Double-and-add. It reads the magnitude of `n` only, and on the curve it computes that many
   additions of `p`.
   */
  method MulScalar(c: Curve, p: Point, n: int) returns (product: Point)
    requires c.f.p > 0
    ensures Group(c) && c.OnCurve(p) ==> product == TimesPoint(c, Magnitude(n), p)
  {
    var add := AddOn(c);
    var r := Projective(0, 1, 1);
    var exp := ToProjective(p);
    var bits := Bits(Magnitude(n));
    ghost var sound := Group(c) && c.OnCurve(p);
    if sound {
      ScalarStart(c, p, bits);
    }
    for i := 0 to |bits|
      invariant sound ==> Doubling(SumOn(c), IDENTITY, RepOf(c), p, bits, i, r, exp)
    {
      if sound {
        ScalarStep(c, p, bits, i, r, exp);
      }
      if bits[i] {
        r := add(r, exp);
      }
      exp := add(exp, exp);
    }
    if sound {
      ScalarEnd(c, p, Magnitude(n), r, exp);
    }
    product := ToAffine(c, r);
  }
}
