/** The Pedersen hash over Baby Jubjub: base points, point decompression, and the hash itself. */
module Pedersen {
  import opened MachineInts
  import opened Wrappers
  import opened Arithmetic
  import opened PrimeField
  import opened EdwardsCurve
  import opened Multiples
  import opened BabyJubjub
  import opened SignedWindows

  /** The generator points, fetched at most once each. `generator` is what the search finds, see `Searched`. */
  class BasePoints {
    const generator: nat -> Point
    var cache: map<nat, Point>

    ghost predicate Valid() reads this {
      forall i :: i in cache ==> cache[i] == generator(i)
    }

    constructor (generator: nat -> Point)
      ensures Valid() && this.generator == generator
    {
      this.generator := generator;
      cache := map[];
    }

    method Get(i: nat) returns (p: Point)
      requires Valid()
      modifies this
      ensures Valid() && p == generator(i)
      ensures cache.Keys == old(cache).Keys + {i}
    {
      if i in cache {
        return cache[i];
      }
      p := generator(i);
      cache := cache[i := p];
    }
  }

  // ---------- the hash ----------

  /** The sum of the first `n` generators, each taken as often as its scalar says. */
  function Combination<P>(sum: (P, P) -> P, zero: P, generator: nat -> P, scalars: seq<int>, n: nat): P
    requires n <= |scalars|
  {
    if n == 0 then zero
    else
      sum(Combination(sum, zero, generator, scalars, n - 1),
          Times(sum, zero, Magnitude(scalars[n - 1]), generator(n - 1)))
  }

  /** One scalar takes its generator that many times. */
  lemma CombinationOfOne<P(!new)>(sum: (P, P) -> P, zero: P, member: P -> bool, generator: nat -> P, scalar: int)
    requires Monoid(sum, zero, member) && member(generator(0))
    ensures Combination(sum, zero, generator, [scalar], 1)
         == Times(sum, zero, if scalar < 0 then -scalar else scalar, generator(0))
  {
    assert Combination(sum, zero, generator, [scalar], 0) == zero;
    TimesMember(sum, zero, member, Magnitude(scalar), generator(0));
  }

  function Shifted<P>(generator: nat -> P, m: nat): nat -> P { (i: nat) => generator(m + i) }

  /** More scalars add what they combine to with the generators after those used. */
  lemma CombinationOfMore<P(!new)>(sum: (P, P) -> P, zero: P, member: P -> bool,
          generator: nat -> P, a: seq<int>, b: seq<int>)
    requires Monoid(sum, zero, member) && forall i: nat :: member(generator(i))
    ensures Combination(sum, zero, generator, a + b, |a + b|)
         == sum(Combination(sum, zero, generator, a, |a|), Combination(sum, zero, Shifted(generator, |a|), b, |b|))
  {
    MoreUpTo(sum, zero, member, generator, a, b, |b|);
  }

  lemma {:induction false} CombinationMember<P(!new)>(sum: (P, P) -> P, zero: P, member: P -> bool,
          generator: nat -> P, a: seq<int>, n: nat)
    requires Monoid(sum, zero, member) && n <= |a| && forall i: nat :: member(generator(i))
    ensures member(Combination(sum, zero, generator, a, n))
  {
    if n > 0 {
      CombinationMember(sum, zero, member, generator, a, n - 1);
      TimesMember(sum, zero, member, Magnitude(a[n - 1]), generator(n - 1));
    }
  }

  lemma {:induction false} MorePrefix<P>(sum: (P, P) -> P, zero: P, generator: nat -> P, a: seq<int>, b: seq<int>,
          n: nat)
    requires n <= |a|
    ensures Combination(sum, zero, generator, a + b, n) == Combination(sum, zero, generator, a, n)
  {
    if n > 0 {
      MorePrefix(sum, zero, generator, a, b, n - 1);
    }
  }

  lemma {:induction false} MoreUpTo<P(!new)>(sum: (P, P) -> P, zero: P, member: P -> bool,
          generator: nat -> P, a: seq<int>, b: seq<int>, n: nat)
    requires Monoid(sum, zero, member) && n <= |b| && forall i: nat :: member(generator(i))
    ensures Combination(sum, zero, generator, a + b, |a| + n)
         == sum(Combination(sum, zero, generator, a, |a|), Combination(sum, zero, Shifted(generator, |a|), b, n))
  {
    var first, rest := Combination(sum, zero, generator, a, |a|), Shifted(generator, |a|);
    CombinationMember(sum, zero, member, generator, a, |a|);
    if n == 0 {
      MorePrefix(sum, zero, generator, a, b, |a|);
    } else {
      MoreUpTo(sum, zero, member, generator, a, b, n - 1);
      var before, last := Combination(sum, zero, rest, b, n - 1), Times(sum, zero, Magnitude(b[n - 1]), rest(n - 1));
      CombinationMember(sum, zero, member, rest, b, n - 1);
      TimesMember(sum, zero, member, Magnitude(b[n - 1]), rest(n - 1));
      assert (a + b)[|a| + n - 1] == b[n - 1] && generator(|a| + n - 1) == rest(n - 1);
      assert sum(sum(first, before), last) == sum(first, sum(before, last));
    }
  }

  /** That sum on a curve. */
  function Commitment(c: Curve, generator: nat -> Point, scalars: seq<int>, n: nat): Point
    requires c.f.p > 0 && n <= |scalars|
  {
    Combination(SumOn(c), IDENTITY, generator, scalars, n)
  }

  /** One step of the accumulation: add projectively, return to affine coordinates. */
  function JoinOn(c: Curve): (Point, Point) -> Point
    requires c.f.p > 0
  {
    (p, q) => ToAffine(c, Add(c, ToProjective(p), ToProjective(q)))
  }

  lemma AccumulateStep(c: Curve, p: Point, q: Point)
    requires c.Complete() && c.OnCurve(p) && c.OnCurve(q)
    ensures JoinOn(c)(p, q) == c.Sum(p, q)
  {
    LawIsComplete(c, p, q);
    ProjectiveRepresents(c, p);
    ProjectiveRepresents(c, q);
    AddRepresents(c, ToProjective(p), ToProjective(q), p, q);
    AffineRecovers(c, Add(c, ToProjective(p), ToProjective(q)), c.Sum(p, q));
  }

  /** The curve is a group and every generator is on it. */
  ghost predicate Sound(c: Curve, generator: nat -> Point)
    requires c.f.p > 0
  {
    Group(c) && forall i: nat :: c.OnCurve(generator(i))
  }

  lemma {:induction false} CommitmentOnCurve(c: Curve, generator: nat -> Point, scalars: seq<int>, n: nat)
    requires c.f.p > 0 && Sound(c, generator) && n <= |scalars|
    ensures c.OnCurve(Commitment(c, generator, scalars, n))
  {
    if n == 0 {
      IdentityOnCurve(c);
    } else {
      CommitmentOnCurve(c, generator, scalars, n - 1);
      TimesOnCurve(c, Magnitude(scalars[n - 1]), generator(n - 1));
      LawIsComplete(c, Commitment(c, generator, scalars, n - 1),
          TimesPoint(c, Magnitude(scalars[n - 1]), generator(n - 1)));
    }
  }

  lemma HashStep(c: Curve, generator: nat -> Point, scalars: seq<int>, s: nat, acc: Point, contribution: Point)
    requires c.f.p > 0 && s < |scalars|
    ensures Sound(c, generator) && acc == Commitment(c, generator, scalars, s)
            && contribution == TimesPoint(c, Magnitude(scalars[s]), generator(s)) ==>
      JoinOn(c)(acc, contribution) == Commitment(c, generator, scalars, s + 1)
  {
    if Sound(c, generator) && acc == Commitment(c, generator, scalars, s)
       && contribution == TimesPoint(c, Magnitude(scalars[s]), generator(s)) {
      CommitmentOnCurve(c, generator, scalars, s);
      TimesOnCurve(c, Magnitude(scalars[s]), generator(s));
      AccumulateStep(c, acc, contribution);
    }
  }

  /** The scalar of segment `s`, its sign fixed up. */
  method SegmentEscalar(ghost data: seq<byte>, bits: seq<bool>, s: nat) returns (escalar: int)
    requires bits == DataBits(data) && s < SegmentCount(bits)
    ensures escalar == Scalars(data)[s]
  {
    escalar := SegmentScalar(Segment(bits, s));
    if escalar < 0 {
      escalar := escalar + SUBGROUP_ORDER;
    }
  }

  /** The body of the loop over the segments: adds the contribution of segment `s`. */
  method AddSegment(c: Curve, points: BasePoints, ghost scalars: seq<int>, escalar: int, s: nat, acc: Point)
    returns (next: Point)
    requires c.f.p > 0 && points.Valid() && s < |scalars| && escalar == scalars[s]
    modifies points
    ensures points.Valid()
    ensures Sound(c, points.generator) && acc == Commitment(c, points.generator, scalars, s) ==>
      next == Commitment(c, points.generator, scalars, s + 1)
  {
    var base := points.Get(s);
    var contribution := MulScalar(c, base, escalar);
    HashStep(c, points.generator, scalars, s, acc, contribution);
    var join := JoinOn(c);
    next := join(acc, contribution);
  }

  /**
   The hash of `data` is the first coordinate of the base points summed with the scalars that encode
   `data`, which `ScalarsInjective` shows to determine `data`.
   */
  method PedersenHash(c: Curve, points: BasePoints, data: seq<byte>) returns (hash: int)
    requires c.f.p > 0 && points.Valid()
    modifies points
    ensures points.Valid()
    ensures Sound(c, points.generator) ==>
      hash == Commitment(c, points.generator, Scalars(data), |Scalars(data)|).x
  {
    var bits := DataBits(data);
    var nSegments := SegmentCount(bits);
    var acc := IDENTITY;
    var s := 0;
    while s < nSegments
      invariant s <= nSegments && points.Valid()
      invariant Sound(c, points.generator) ==> acc == Commitment(c, points.generator, Scalars(data), s)
    {
      var escalar := SegmentEscalar(data, bits, s);
      acc := AddSegment(c, points, Scalars(data), escalar, s, acc);
      s := s + 1;
    }
    hash := acc.x;
  }

  /** The scalars are non-negative, so taking their magnitude loses nothing. */
  lemma ScalarsAreMultiples(data: seq<byte>, s: nat)
    requires s < |Scalars(data)|
    ensures 0 <= Scalars(data)[s] < SUBGROUP_ORDER && Magnitude(Scalars(data)[s]) == Scalars(data)[s]
  {
    FixUpInjective(Segment(DataBits(data), s), Segment(DataBits(data), s));
  }

  /** A point is accepted as a generator exactly when the subgroup's order takes it to the identity. */
  method InSubgroup(c: Curve, p: Point) returns (ok: bool)
    requires c.f.p > 0
    ensures Group(c) && c.OnCurve(p) ==> (ok <==> TimesPoint(c, SUBGROUP_ORDER, p) == IDENTITY)
  {
    var r := MulScalar(c, p, SUBGROUP_ORDER);
    ok := r == IDENTITY;
  }

  // ---------- decompression ----------

  /** The number spelled by bytes, lowest first. */
  function LittleEndian(bytes: seq<byte>): nat {
    if bytes == [] then 0 else bytes[0] + 256 * LittleEndian(bytes[1..])
  }

  /** What the field's square root promises: some root if there is one. */
  ghost predicate SquareRoot(f: Field, sqrt: int -> Option<int>)
    requires f.p > 0
  {
    forall x {:trigger sqrt(x)} ::
      match sqrt(x)
      case Some(r) => f.Element(r) && f.Eq(r * r, x)
      case None => forall r :: !f.Eq(r * r, x)
  }

  function Negate(f: Field, x: int): int
    requires f.p > 0
  {
    Reduce(f.p, -x)
  }

  /** The y-coordinate of a compressed point, its top bit cleared, and that bit. */
  function Unmask(bytes: seq<byte>): (seq<byte>, bool)
    requires |bytes| == 32
  {
    (bytes[31 := bytes[31] % 128], bytes[31] >= 128)
  }

  /** What a compressed point decompresses to, if its y-coordinate is a field element with a point above it. */
  function Unpacked(c: Curve, sqrt: int -> Option<int>, bytes: seq<byte>): Option<Point>
    requires c.f.p > 0 && |bytes| == 32
  {
    var f := c.f;
    var (yBytes, sign) := Unmask(bytes);
    var y := LittleEndian(yBytes);
    if y >= f.p then None
    else
      var y2 := f.Mul(y, y);
      var den := f.Sub(c.a, f.Mul(c.d, y2));
      if f.Eq(den, 0) then None
      else
        match sqrt(f.Mul(f.Sub(1, y2), f.Inv(den)))
        case None => None
        case Some(root) =>
          var low := if root > f.p / 2 then Negate(f, root) else root;
          Some(Point(if sign then Negate(f, low) else low, y))
  }

  /**
   `p` is the point of the curve with the encoded y-coordinate whose x-coordinate is above half of
   the modulus just when the top bit is set; 0 has no sign.
   */
  predicate Decompresses(c: Curve, bytes: seq<byte>, p: Point)
    requires c.f.p > 0 && |bytes| == 32
  {
    && c.OnCurve(p)
    && p.y == LittleEndian(Unmask(bytes).0)
    && (p.x == 0 || (p.x > c.f.p / 2 <==> Unmask(bytes).1))
  }

  /** The law is complete, the curve's `a` is not zero, and `sqrt` finds roots. */
  ghost predicate Rooted(c: Curve, sqrt: int -> Option<int>) {
    c.Complete() && !c.f.Eq(c.a, 0) && SquareRoot(c.f, sqrt)
  }

  /** `x^2` is the quotient the decompression computes exactly when the point is on the curve. */
  lemma QuotientIsSquare(c: Curve, x: int, y: int, v: int)
    requires c.f.Valid() && !c.f.Eq(c.a - c.d * (y * y), 0)
    requires c.f.Eq(v * (c.a - c.d * (y * y)), 1 - y * y)
    ensures c.f.Eq(x * x, v) <==> c.f.Eq(c.a * (x * x) + y * y, 1 + c.d * ((x * x) * (y * y)))
  {
    var f, xx, yy := c.f, x * x, y * y;
    var e, den := c.d * (xx * yy), c.a - c.d * yy;
    ScaledDenominator(c.a, c.d, xx, yy);
    if f.Eq(xx, v) {
      f.EqMul(xx, v, den, den);
      f.EqAdd(c.a * xx - e, 1 - yy, e + yy, e + yy);
    }
    if f.Eq(c.a * xx + yy, 1 + e) {
      f.EqSub(c.a * xx + yy, 1 + e, e + yy, e + yy);
      f.Cancel(xx, v, den);
    }
  }

  lemma ScaledDenominator(a: int, d: int, xx: int, yy: int)
    ensures xx * (a - d * yy) == a * xx - d * (xx * yy)
  {
    assert xx * (d * yy) == d * (xx * yy);
  }

  /** Two square roots of one number are equal or opposite. */
  lemma RootsAreOpposite(f: Field, x: int, r: int)
    requires f.Valid() && f.Element(x) && f.Element(r) && f.Eq(x * x, r * r)
    ensures x == r || x == Negate(f, r)
  {
    f.EqSub(x * x, r * r, r * r, r * r);
    assert (x - r) * (x + r) == x * x - r * r;
    f.NoZeroDivisors(x - r, x + r);
    if f.Eq(x - r, 0) {
      f.EqAdd(x - r, 0, r, r);
    } else {
      f.EqSub(x + r, 0, r, r);
    }
  }

  lemma NegateRoot(f: Field, r: int)
    requires f.Valid() && f.Element(r)
    ensures Negate(f, r) == if r == 0 then 0 else f.p - r
    ensures f.Eq(Negate(f, r) * Negate(f, r), r * r)
  {
    f.EqMul(Negate(f, r), -r, Negate(f, r), -r);
    assert (-r) * (-r) == r * r;
  }

  /** The denominator never vanishes when `a` is a square, `d` is not, and `a` is not zero. */
  lemma DenominatorNotZero(c: Curve, y: int)
    requires c.Complete() && !c.f.Eq(c.a, 0)
    ensures !c.f.Eq(c.a - c.d * (y * y), 0)
  {
    var f, z := c.f, c.d * (y * y);
    if f.Eq(c.a - z, 0) {
      var s :| f.Eq(s * s, c.a);
      f.EqAdd(c.a - z, 0, z, z);
      SquareRatio(c, s, y);
      f.EqMul(y, 0, y, 0);
      f.EqMul(c.d, c.d, y * y, 0);
    }
  }

  /** Decompression is exact: it returns the point of the curve that the bytes encode, if there is one. */
  lemma UnpackExact(c: Curve, sqrt: int -> Option<int>, bytes: seq<byte>, p: Point)
    requires Rooted(c, sqrt) && |bytes| == 32
    ensures Unpacked(c, sqrt, bytes) == Some(p) <==> Decompresses(c, bytes, p)
  {
    var f := c.f;
    f.IsOdd();
    var y := LittleEndian(Unmask(bytes).0);
    if y < f.p {
      var y2 := f.Mul(y, y);
      var den := f.Sub(c.a, f.Mul(c.d, y2));
      DenominatorNotZero(c, y);
      f.EqMul(c.d, c.d, y2, y * y);
      f.EqSub(c.a, c.a, f.Mul(c.d, y2), c.d * (y * y));
      f.EqSub(1, 1, y2, y * y);
      var v := f.Mul(f.Sub(1, y2), f.Inv(den));
      c.Quotient(f.Sub(1, y2), den);
      f.EqMul(v, v, den, c.a - c.d * (y * y));
      UnpackRoot(c, sqrt, Unmask(bytes).1, y, v, p);
    }
  }

  lemma UnpackRoot(c: Curve, sqrt: int -> Option<int>, sign: bool, y: nat, v: int, p: Point)
    requires c.f.Valid() && SquareRoot(c.f, sqrt) && c.f.p % 2 == 1 && y < c.f.p
    requires !c.f.Eq(c.a - c.d * (y * y), 0) && c.f.Eq(v * (c.a - c.d * (y * y)), 1 - y * y)
    ensures (sqrt(v).Some? &&
             var low := if sqrt(v).value > c.f.p / 2 then Negate(c.f, sqrt(v).value) else sqrt(v).value;
             p == Point(if sign then Negate(c.f, low) else low, y))
       <==> c.OnCurve(p) && p.y == y && (p.x == 0 || (p.x > c.f.p / 2 <==> sign))
  {
    var f := c.f;
    QuotientIsSquare(c, p.x, y, v);
    if sqrt(v).Some? {
      var root := sqrt(v).value;
      NegateRoot(f, root);
      NegateRoot(f, Negate(f, root));
      if f.Element(p.x) && f.Eq(p.x * p.x, v) {
        RootsAreOpposite(f, p.x, root);
      }
    }
  }

  /**
   Decompresses a point: the sign bit is cleared from the buffer, the root normalised and then negated
   for the sign.
   */
  method UnpackPoint(c: Curve, sqrt: int -> Option<int>, buff: seq<byte>) returns (p: Option<Point>)
    requires c.f.p > 0 && |buff| == 32
    ensures p == Unpacked(c, sqrt, buff)
    ensures Rooted(c, sqrt) ==> forall q :: p == Some(q) <==> Decompresses(c, buff, q)
  {
    if Rooted(c, sqrt) {
      forall q
        ensures Unpacked(c, sqrt, buff) == Some(q) <==> Decompresses(c, buff, q)
      {
        UnpackExact(c, sqrt, buff, q);
      }
    }
    var f, yBytes := c.f, buff;
    var sign := yBytes[31] >= 128;
    yBytes := yBytes[31 := yBytes[31] % 128];
    var y := LittleEndian(yBytes);
    if y >= f.p {
      return None;
    }
    var y2 := f.Mul(y, y);
    var den := f.Sub(c.a, f.Mul(c.d, y2));
    if f.Eq(den, 0) {
      return None;
    }
    var root := sqrt(f.Mul(f.Sub(1, y2), f.Inv(den)));
    if root.None? {
      return None;
    }
    var x := root.value;
    if x > f.p / 2 {
      x := Negate(f, x);
    }
    if sign {
      x := Negate(f, x);
    }
    p := Some(Point(x, y));
  }

  // ---------- the search for generators ----------

  const COFACTOR: nat := 8

  /** A digest with bit 254 cleared. */
  function Masked(h: seq<byte>): (bytes: seq<byte>)
    requires |h| == 32
    ensures |bytes| == 32
  {
    h[31 := if Quotient(h[31], 64) % 2 == 1 then h[31] - 64 else h[31]]
  }

  /** What one try of the search accepts: the decompressed digest times the cofactor, if it lies in the subgroup. */
  function Candidate(c: Curve, sqrt: int -> Option<int>, h: seq<byte>): Option<Point>
    requires c.f.p > 0 && |h| == 32
  {
    match Unpacked(c, sqrt, Masked(h))
    case None => None
    case Some(q) =>
      var g := TimesPoint(c, COFACTOR, q);
      if TimesPoint(c, SUBGROUP_ORDER, g) == IDENTITY then Some(g) else None
  }

  /** The curve is a group, and its points can be decompressed. */
  ghost predicate Setting(c: Curve, sqrt: int -> Option<int>) {
    Rooted(c, sqrt) && Associative(c)
  }

  ghost predicate Killed(c: Curve, g: Point, order: nat)
    requires c.f.p > 0
  {
    c.OnCurve(g) && TimesPoint(c, order, g) == IDENTITY
  }

  /** A point of the curve that generates no more than the subgroup. */
  ghost predicate InSubgroupOf(c: Curve, g: Point)
    requires c.f.p > 0
  {
    Killed(c, g, SUBGROUP_ORDER)
  }

  lemma CandidateInSubgroup(c: Curve, sqrt: int -> Option<int>, h: seq<byte>)
    requires Setting(c, sqrt) && |h| == 32
    ensures Candidate(c, sqrt, h).Some? ==> InSubgroupOf(c, Candidate(c, sqrt, h).value)
  {
    var q := Unpacked(c, sqrt, Masked(h));
    if q.Some? {
      UnpackExact(c, sqrt, Masked(h), q.value);
      TimesOnCurve(c, COFACTOR, q.value);
    }
  }

  /** A try accepts exactly when the order of the whole group takes the decompressed point to the identity. */
  lemma AcceptedIffOrderKills(c: Curve, sqrt: int -> Option<int>, h: seq<byte>)
    requires Setting(c, sqrt) && |h| == 32
    ensures Candidate(c, sqrt, h).Some? <==>
      Unpacked(c, sqrt, Masked(h)).Some? && TimesPoint(c, ORDER, Unpacked(c, sqrt, Masked(h)).value) == IDENTITY
  {
    var q := Unpacked(c, sqrt, Masked(h));
    if q.Some? {
      UnpackExact(c, sqrt, Masked(h), q.value);
      SubgroupOrder();
      CofactorThenOrder(c, COFACTOR, SUBGROUP_ORDER, ORDER, q.value);
    }
  }

  lemma CofactorThenOrder(c: Curve, k: nat, m: nat, n: nat, q: Point)
    requires Group(c) && c.OnCurve(q) && m * k == n
    ensures TimesPoint(c, m, TimesPoint(c, k, q)) == TimesPoint(c, n, q)
  {
    CurveMonoid(c);
    TimesTimes(SumOn(c), IDENTITY, MemberOf(c), m, k, n, q);
  }

  /** One try of the search. */
  method TryPoint(c: Curve, sqrt: int -> Option<int>, h: seq<byte>) returns (p: Option<Point>)
    requires c.f.p > 0 && |h| == 32
    ensures Setting(c, sqrt) ==> p == Candidate(c, sqrt, h)
  {
    var q := UnpackPoint(c, sqrt, Masked(h));
    if q.None? {
      return None;
    }
    var p8 := MulScalar(c, q.value, COFACTOR);
    if Setting(c, sqrt) {
      TimesOnCurve(c, COFACTOR, q.value);
    }
    var ok := InSubgroup(c, p8);
    p := if ok then Some(p8) else None;
  }

  /** What each try of one search accepts. */
  function Candidates(c: Curve, sqrt: int -> Option<int>, digest: nat -> seq<byte>): nat -> Option<Point>
    requires c.f.p > 0 && forall t: nat :: |digest(t)| == 32
  {
    (t: nat) => Candidate(c, sqrt, digest(t))
  }

  /** `p` is what the first successful try yields. */
  ghost predicate First<P(!new)>(tries: nat -> Option<P>, p: P) {
    exists t: nat :: tries(t) == Some(p) && forall u: nat :: u < t ==> tries(u).None?
  }

  /** The search, if it ends: `last` is some try that succeeds. */
  method Search<P(!new)>(tries: nat -> Option<P>, ghost last: nat) returns (p: P)
    requires tries(last).Some?
    ensures First(tries, p)
  {
    var t := 0;
    while tries(t).None?
      invariant 0 <= t <= last
      invariant forall u: nat :: u < t ==> tries(u).None?
      decreases last - t
    {
      t := t + 1;
    }
    p := tries(t).value;
  }

  /** What a search finds lies in the subgroup. */
  lemma FirstInSubgroup(c: Curve, sqrt: int -> Option<int>, digest: nat -> seq<byte>, p: Point)
    requires Setting(c, sqrt) && (forall t: nat :: |digest(t)| == 32) && First(Candidates(c, sqrt, digest), p)
    ensures InSubgroupOf(c, p)
  {
    var t: nat :| Candidates(c, sqrt, digest)(t) == Some(p);
    CandidateInSubgroup(c, sqrt, digest(t));
  }

  /** The generators are what the search finds, for every index. */
  ghost predicate Searched(c: Curve, sqrt: int -> Option<int>, digest: nat -> nat -> seq<byte>, generator: nat -> Point)
    requires c.f.p > 0
  {
    && (forall i: nat, t: nat :: |digest(i)(t)| == 32)
    && forall i: nat :: First(Candidates(c, sqrt, digest(i)), generator(i))
  }

  /** Generators found by the search lie in the subgroup. */
  lemma SearchedInSubgroup(c: Curve, sqrt: int -> Option<int>, digest: nat -> nat -> seq<byte>, generator: nat -> Point)
    requires Setting(c, sqrt) && Searched(c, sqrt, digest, generator)
    ensures Sound(c, generator) && forall i: nat :: InSubgroupOf(c, generator(i))
  {
    forall i: nat
      ensures InSubgroupOf(c, generator(i))
    {
      FirstInSubgroup(c, sqrt, digest(i), generator(i));
    }
  }

  // ---------- why the sign fix-up is right ----------

  /** Two multiples that complete an order that takes `g` to the identity are inverse to each other. */
  lemma Complementary(c: Curve, g: Point, m: nat, n: nat, order: nat)
    requires c.f.p > 0 && m + n == order
    ensures Group(c) && Killed(c, g, order) ==> Inverse(c, TimesPoint(c, m, g), TimesPoint(c, n, g))
  {
    if Group(c) && Killed(c, g, order) {
      CurveMonoid(c);
      TimesComplete(SumOn(c), IDENTITY, MemberOf(c), m, n, g);
    }
  }

  ghost predicate Inverse(c: Curve, p: Point, q: Point)
    requires c.f.p > 0
  {
    SumOn(c)(p, q) == IDENTITY
  }

  /**
   Adding the order of the subgroup to a negative scalar takes a point of the subgroup to the inverse
   of its magnitude: `FixUp` is `FixUpBy` that order.
   */
  lemma FixUpNegates(c: Curve, g: Point, escalar: int, order: nat)
    requires c.f.p > 0 && 0 < -escalar < order
    ensures FixUpBy(order, escalar) >= 0
    ensures Group(c) && Killed(c, g, order) ==>
        Inverse(c, TimesPoint(c, FixUpBy(order, escalar), g), TimesPoint(c, -escalar, g))
  {
    Complementary(c, g, FixUpBy(order, escalar), -escalar, order);
  }
}
