/** The curve of the source, and what the general results say of it. */
module ConcreteCurve {
  import opened MachineInts
  import opened Wrappers
  import opened PrimeField
  import opened EdwardsCurve
  import opened BabyJubjub
  import opened SignedWindows
  import opened Pedersen

  /** `D` is not a square. */
  ghost predicate NonSquare(f: Field)
    requires f.p > 0
  {
    forall y {:trigger f.Eq(y * y, D)} :: !f.Eq(y * y, D)
  }

  /** The addition law of the curve is complete, and its `a` is not zero. */
  lemma TheCurveIsComplete(f: Field)
    requires f.Valid() && f.p == Q && NonSquare(f)
    ensures TheCurve(f).Complete() && !f.Eq(A, 0)
  {
    AIsASquare(f);
    var c := TheCurve(f);
    var s :| f.Eq(s * s, A);
    assert f.Eq(s * s, c.a);
    forall y {:trigger f.Eq(y * y, c.d)}
      ensures !f.Eq(y * y, c.d)
    {
      assert !f.Eq(y * y, D);
    }
  }

  /** The generator of the whole group and that of the subgroup, from the Specification section of ERC-2494. */
  const GENERATOR := Point(
    995203441582195749578291179787384436505546430278305826713579947235728471134,
    5472060717959818805561601436314318772137091100104008585924551046643952123905)
  const BASE := Point(
    5299619240641551281634865583518297030282874472190772894086521144482721001553,
    16950150798460657717958625567821834550301663161624707787222815936182638968203)

  /** `A` and `D` are the coefficients of the curve that both of them lie on. */
  lemma GeneratorsOnCurve(f: Field)
    requires f.p == Q
    ensures TheCurve(f).OnCurve(GENERATOR) && TheCurve(f).OnCurve(BASE)
  {
    var ten80 :=
      100000000000000000000000000000000000000000000000000000000000000000000000000000000;
    OnCurveBy(f, GENERATOR,
      22857011131416604300236645266725642791895442248243740537842436253464396 * ten80 * ten80 +
      73504601489697911256852521507113098373201254359785706077531628089364356273080511 * ten80 +
      45211089404387376061435239572454067401258289184033925621102275044528454682719728);
    OnCurveBy(f, BASE,
      6219140308611022042552387573915436639910473949308617676041187739102172826 * ten80 * ten80 +
      76652689775614862539915633496590522149758734506423632036189166672477185074186549 * ten80 +
      6232627965121794341471165202544569711297598876439959086001470022024015404635204);
  }

  /** A point solves the curve's equation up to a multiple of the modulus. */
  lemma OnCurveBy(f: Field, p: Point, k: nat)
    requires f.p > 0 && f.Element(p.x) && f.Element(p.y)
    requires A * (p.x * p.x) + p.y * p.y + k * f.p == 1 + D * ((p.x * p.x) * (p.y * p.y))
    ensures TheCurve(f).OnCurve(p)
  {
    ReduceShift(f.p, A * (p.x * p.x) + p.y * p.y, k);
  }

  /** All that is taken on trust: the field and its size, that `D` is no square, and associativity. */
  ghost predicate Trusted(f: Field) {
    f.Valid() && f.p == Q && NonSquare(f) && Associative(TheCurve(f))
  }

  lemma TrustedGroup(f: Field)
    requires Trusted(f)
    ensures Group(TheCurve(f)) && !f.Eq(A, 0)
  {
    TheCurveIsComplete(f);
  }

  lemma TrustedSetting(f: Field, sqrt: int -> Option<int>)
    requires Trusted(f) && SquareRoot(f, sqrt)
    ensures Setting(TheCurve(f), sqrt)
  {
    TheCurveIsComplete(f);
  }

  /** `mul_scalar`: as many additions as the magnitude of `n`. */
  method MulScalar(f: Field, p: Point, n: int) returns (product: Point)
    requires f.p > 0
    ensures Trusted(f) && TheCurve(f).OnCurve(p) ==> product == TimesPoint(TheCurve(f), Magnitude(n), p)
  {
    product := BabyJubjub.MulScalar(TheCurve(f), p, n);
    if Trusted(f) {
      TrustedGroup(f);
    }
  }

  /** `unpack_point`: the point of the curve that the bytes encode, if there is one. */
  method UnpackPoint(f: Field, sqrt: int -> Option<int>, buff: seq<byte>) returns (p: Option<Point>)
    requires f.p > 0 && |buff| == 32
    ensures Trusted(f) && SquareRoot(f, sqrt) ==> forall q :: p == Some(q) <==> Decompresses(TheCurve(f), buff, q)
  {
    p := Pedersen.UnpackPoint(TheCurve(f), sqrt, buff);
    if Trusted(f) {
      TheCurveIsComplete(f);
    }
  }

  /**
   `pedersen_hash`: with generators that the search finds, the first coordinate of their combination
   with the scalars of the data.
   */
  method PedersenHash(f: Field, points: BasePoints, ghost sqrt: int -> Option<int>,
          ghost digest: nat -> nat -> seq<byte>, data: seq<byte>)
    returns (hash: int)
    requires f.p > 0 && points.Valid()
    modifies points
    ensures points.Valid()
    ensures Trusted(f) && SquareRoot(f, sqrt) && Searched(TheCurve(f), sqrt, digest, points.generator) ==>
      hash == Commitment(TheCurve(f), points.generator, Scalars(data), |Scalars(data)|).x
  {
    hash := Pedersen.PedersenHash(TheCurve(f), points, data);
    if Trusted(f) && SquareRoot(f, sqrt) && Searched(TheCurve(f), sqrt, digest, points.generator) {
      TrustedSetting(f, sqrt);
      SearchedInSubgroup(TheCurve(f), sqrt, digest, points.generator);
    }
  }
}
