/** A curve of four points over the field of three elements: the hypotheses on curves can be met. */
module SmallCurve {
  import opened PrimeField
  import opened EdwardsCurve
  import opened BabyJubjub

  /** Three elements, each but zero its own inverse. */
  function Three(): Field { Field(3, (x: int) => x) }

  /** The curve `x^2 + y^2 == 1 + 2 * x^2 * y^2`. */
  function Four(): Curve { Curve(Three(), 1, 2) }

  lemma SquaresOfThree(x: int)
    ensures Three().Eq(x, 0) ==> Three().Eq(x * x, 0)
    ensures !Three().Eq(x, 0) ==> Three().Eq(x * x, 1)
  {
    var f, r := Three(), Reduce(3, x);
    f.EqMul(x, r, x, r);
    assert r == 0 || r == 1 || r == 2;
  }

  lemma ThreeIsField()
    ensures Three().Valid()
  {
    var f := Three();
    forall x {:trigger f.inverse(x)} | !f.Eq(x, 0)
      ensures f.Eq(x * f.inverse(x), 1)
    {
      SquaresOfThree(x);
    }
  }

  lemma FourIsComplete()
    ensures Four().Complete()
  {
    var c := Four();
    ThreeIsField();
    assert c.f.Eq(1 * 1, c.a);
    forall y {:trigger c.f.Eq(y * y, c.d)}
      ensures !c.f.Eq(y * y, c.d)
    {
      SquaresOfThree(y);
    }
  }

  /** The points, counted from the identity by adding (1, 0). */
  function PointOf(k: nat): Point
    requires k < 4
  {
    if k == 0 then Point(0, 1) else if k == 1 then Point(1, 0) else if k == 2 then Point(0, 2) else Point(2, 0)
  }

  lemma Small(x: int)
    requires 0 <= x < 3
    ensures x == 0 || (x == 1 && x * x == 1) || (x == 2 && x * x == 4)
  {
  }

  /** The equation of the curve fails where neither or both coordinates are zero. */
  lemma OffCurve(xx: int, yy: int)
    requires (xx == yy == 0) || ((xx == 1 || xx == 4) && (yy == 1 || yy == 4))
    ensures !Three().Eq(1 * xx + yy, 1 + 2 * (xx * yy))
  {
    if xx == 0 {
    } else if xx == 1 && yy == 1 {
      ReduceShift(3, 2, 0);
      ReduceShift(3, 0, 1);
    } else if xx == 4 && yy == 4 {
      ReduceShift(3, 2, 2);
      ReduceShift(3, 0, 11);
    } else {
      ReduceShift(3, 2, 1);
      ReduceShift(3, 0, 3);
    }
  }

  lemma OnAxis(x: int, y: int, xx: int, yy: int)
    requires 0 <= x < 3 && 0 <= y < 3 && xx == x * x && yy == y * y
    requires Three().Eq(1 * xx + yy, 1 + 2 * (xx * yy))
    ensures (x == 0 && (y == 1 || y == 2)) || (y == 0 && (x == 1 || x == 2))
  {
    Small(x);
    Small(y);
    if (x == 0 && y == 0) || (x > 0 && y > 0) {
      OffCurve(xx, yy);
    }
  }

  lemma FourPoints(p: Point) returns (k: nat)
    requires Four().OnCurve(p)
    ensures k < 4 && p == PointOf(k)
  {
    OnAxis(p.x, p.y, p.x * p.x, p.y * p.y);
    k := if p.x == 0 then (if p.y == 1 then 0 else 2) else if p.x == 1 then 1 else 3;
  }

  function Plus(i: nat, j: nat): (k: nat)
    requires i < 4 && j < 4
    ensures k < 4
  {
    if i + j < 4 then i + j else i + j - 4
  }

  /** Where the mixed product vanishes, the sum needs no division. */
  lemma PlainSum(x1: int, y1: int, x2: int, y2: int, x3: int, y3: int, k: int, l: int)
    requires 2 * ((x1 * x2) * (y1 * y2)) == 0 && 0 <= x3 < 3 && 0 <= y3 < 3
    requires x1 * y2 + y1 * x2 == x3 + k * 3 && y1 * y2 - x1 * x2 == y3 + l * 3
    ensures SumOn(Four())(Point(x1, y1), Point(x2, y2)) == Point(x3, y3)
  {
    ReduceShift(3, x3, k);
    ReduceShift(3, y3, l);
    assert Three().Inv(1) == 1;
    assert Four().T(Point(x1, y1), Point(x2, y2)) == 0;
  }

  lemma SumFrom0(j: nat)
    requires j < 4
    ensures SumOn(Four())(PointOf(0), PointOf(j)) == PointOf(Plus(0, j))
  {
    if j == 0 {
      PlainSum(0, 1, 0, 1, 0, 1, 0, 0);
    } else if j == 1 {
      PlainSum(0, 1, 1, 0, 1, 0, 0, 0);
    } else if j == 2 {
      PlainSum(0, 1, 0, 2, 0, 2, 0, 0);
    } else {
      PlainSum(0, 1, 2, 0, 2, 0, 0, 0);
    }
  }

  lemma SumFrom1(j: nat)
    requires j < 4
    ensures SumOn(Four())(PointOf(1), PointOf(j)) == PointOf(Plus(1, j))
  {
    if j == 0 {
      PlainSum(1, 0, 0, 1, 1, 0, 0, 0);
    } else if j == 1 {
      PlainSum(1, 0, 1, 0, 0, 2, 0, -1);
    } else if j == 2 {
      PlainSum(1, 0, 0, 2, 2, 0, 0, 0);
    } else {
      PlainSum(1, 0, 2, 0, 0, 1, 0, -1);
    }
  }

  lemma SumFrom2(j: nat)
    requires j < 4
    ensures SumOn(Four())(PointOf(2), PointOf(j)) == PointOf(Plus(2, j))
  {
    if j == 0 {
      PlainSum(0, 2, 0, 1, 0, 2, 0, 0);
    } else if j == 1 {
      PlainSum(0, 2, 1, 0, 2, 0, 0, 0);
    } else if j == 2 {
      PlainSum(0, 2, 0, 2, 0, 1, 0, 1);
    } else {
      PlainSum(0, 2, 2, 0, 1, 0, 1, 0);
    }
  }

  lemma SumFrom3(j: nat)
    requires j < 4
    ensures SumOn(Four())(PointOf(3), PointOf(j)) == PointOf(Plus(3, j))
  {
    if j == 0 {
      PlainSum(2, 0, 0, 1, 2, 0, 0, 0);
    } else if j == 1 {
      PlainSum(2, 0, 1, 0, 0, 1, 0, -1);
    } else if j == 2 {
      PlainSum(2, 0, 0, 2, 1, 0, 1, 0);
    } else {
      PlainSum(2, 0, 2, 0, 0, 2, 0, -2);
    }
  }

  /** The points add as the numbers modulo four do. */
  lemma SumIsPlus(i: nat, j: nat)
    requires i < 4 && j < 4
    ensures SumOn(Four())(PointOf(i), PointOf(j)) == PointOf(Plus(i, j))
  {
    match i
    case 0 => SumFrom0(j);
    case 1 => SumFrom1(j);
    case 2 => SumFrom2(j);
    case _ => SumFrom3(j);
  }

  /** Any addition of the points that is that of the numbers is associative. */
  lemma Regroup(sum: (Point, Point) -> Point, i: nat, j: nat, k: nat)
    requires i < 4 && j < 4 && k < 4
    requires forall m: nat, n: nat :: m < 4 && n < 4 ==> sum(PointOf(m), PointOf(n)) == PointOf(Plus(m, n))
    ensures sum(sum(PointOf(i), PointOf(j)), PointOf(k)) == sum(PointOf(i), sum(PointOf(j), PointOf(k)))
  {
    assert sum(PointOf(Plus(i, j)), PointOf(k)) == PointOf(Plus(Plus(i, j), k));
    assert sum(PointOf(i), PointOf(Plus(j, k))) == PointOf(Plus(i, Plus(j, k)));
  }

  lemma FourIsAssociative()
    ensures Associative(Four())
  {
    var c := Four();
    forall p, q, r {:trigger SumLeft(c, p, q, r)} | c.OnCurve(p) && c.OnCurve(q) && c.OnCurve(r)
      ensures SumLeft(c, p, q, r) == c.Sum(p, c.Sum(q, r))
    {
      RegroupPoints(p, q, r);
    }
  }

  lemma RegroupPoints(p: Point, q: Point, r: Point)
    requires Four().OnCurve(p) && Four().OnCurve(q) && Four().OnCurve(r)
    ensures SumLeft(Four(), p, q, r) == Four().Sum(p, Four().Sum(q, r))
  {
    var i := FourPoints(p);
    var j := FourPoints(q);
    var k := FourPoints(r);
    forall m: nat, n: nat | m < 4 && n < 4
      ensures SumOn(Four())(PointOf(m), PointOf(n)) == PointOf(Plus(m, n))
    {
      SumIsPlus(m, n);
    }
    Regroup(SumOn(Four()), i, j, k);
  }

  /** There is a curve that is a group in the sense of all results about curves. */
  lemma FourIsGroup()
    ensures Group(Four())
  {
    FourIsComplete();
    FourIsAssociative();
  }
}
