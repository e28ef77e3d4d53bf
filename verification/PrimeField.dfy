/** Arithmetic modulo a prime, on canonical representatives. */
module PrimeField {
  import opened Arithmetic

  /** The representative of `x` in `0..p`, by repeated subtraction: it is `x % p`, see `ReduceIsMod`. */
  function Reduce(p: nat, x: int): (r: int)
    requires p > 0
    ensures 0 <= r < p
    decreases if x < 0 then -x + p else x
  {
    if x < 0 then Reduce(p, x + p) else if x >= p then Reduce(p, x - p) else x
  }

  lemma {:induction false} ReduceShift(p: nat, x: int, k: int)
    requires p > 0
    ensures Reduce(p, x + k * p) == Reduce(p, x)
    decreases if k < 0 then -k else k
  {
    if k > 0 {
      ReduceShift(p, x, k - 1);
      ReduceStep(p, x + (k - 1) * p);
      MulDistribute(k, 1, p);
    } else if k < 0 {
      ReduceShift(p, x, k + 1);
      ReduceStep(p, x + k * p);
      MulDistribute(k, 1, p);
    }
  }

  lemma {:induction false} ReduceStep(p: nat, x: int)
    requires p > 0
    ensures Reduce(p, x + p) == Reduce(p, x)
  {
  }

  lemma ReduceIsMod(p: nat, x: int)
    requires p > 0
    ensures Reduce(p, x) == x % p
  {
    var k := x / p;
    assert x == x % p + k * p;
    ReduceShift(p, x % p, k);
  }

  /** A number is its representative plus a multiple of the modulus. */
  lemma {:induction false} Multiple(p: nat, x: int) returns (k: int)
    requires p > 0
    ensures x == Reduce(p, x) + k * p
    decreases if x < 0 then -x + p else x
  {
    if x < 0 {
      k := Multiple(p, x + p);
      MulDistribute(k, 1, p);
      k := k - 1;
    } else if x >= p {
      k := Multiple(p, x - p);
      MulDistribute(k, 1, p);
      k := k + 1;
    } else {
      k := 0;
    }
  }

  /** A field of `p` elements; `inverse` is only relied on away from zero. */
  datatype Field = Field(p: nat, inverse: int -> int) {
    ghost predicate Valid() {
      && p > 2
      && (forall x {:trigger inverse(x)} :: !Eq(x, 0) ==> Eq(x * inverse(x), 1))
    }

    /** Congruence modulo `p`. */
    predicate Eq(x: int, y: int) requires p > 0 { Reduce(p, x) == Reduce(p, y) }

    predicate Element(x: int) { 0 <= x < p }

    function Add(x: int, y: int): int requires p > 0 { Reduce(p, x + y) }

    function Sub(x: int, y: int): int requires p > 0 { Reduce(p, x - y) }

    function Mul(x: int, y: int): int requires p > 0 { Reduce(p, x * y) }

    function Inv(x: int): int requires p > 0 { Reduce(p, inverse(x)) }

    lemma Canonical(x: int)
      requires p > 0
      ensures Eq(Reduce(p, x), x)
    {
    }

    lemma Difference(x: int, y: int) returns (k: int)
      requires p > 0 && Eq(x, y)
      ensures x == y + k * p
    {
      var a := Multiple(p, x);
      var b := Multiple(p, y);
      k := a - b;
      MulDistribute(a, b, p);
    }

    lemma EqAdd(x: int, x': int, y: int, y': int)
      requires p > 0 && Eq(x, x') && Eq(y, y')
      ensures Eq(x + y, x' + y')
      ensures Eq(Add(x, y), x' + y')
    {
      var k := Difference(x, x');
      var l := Difference(y, y');
      MulDistribute(k, l, p);
      ReduceShift(p, x' + y', k + l);
    }

    lemma EqSub(x: int, x': int, y: int, y': int)
      requires p > 0 && Eq(x, x') && Eq(y, y')
      ensures Eq(x - y, x' - y')
      ensures Eq(Sub(x, y), x' - y')
    {
      var k := Difference(x, x');
      var l := Difference(y, y');
      MulDistribute(k, l, p);
      ReduceShift(p, x' - y', k - l);
    }

    lemma EqMul(x: int, x': int, y: int, y': int)
      requires p > 0 && Eq(x, x') && Eq(y, y')
      ensures Eq(x * y, x' * y')
      ensures Eq(Mul(x, y), x' * y')
    {
      var k := Difference(x, x');
      var l := Difference(y, y');
      Product(x, x', y, y', k, l);
      ReduceShift(p, x' * y', k * y + x' * l);
    }

    lemma Product(x: int, x': int, y: int, y': int, k: int, l: int)
      requires x == x' + k * p && y == y' + l * p
      ensures x * y == x' * y' + (k * y + x' * l) * p
    {
      assert x * y == x' * y + (k * p) * y;
      assert x' * y == x' * y' + x' * (l * p);
    }

    /** Cancelling a factor that is not zero. */
    lemma Cancel(x: int, y: int, z: int)
      requires Valid() && !Eq(z, 0) && Eq(x * z, y * z)
      ensures Eq(x, y)
    {
      var w := inverse(z);
      EqMul(x * z, y * z, w, w);
      UndoFactor(x, z);
      UndoFactor(y, z);
      MulAssociate(x, z, w);
      MulAssociate(y, z, w);
    }

    lemma UndoFactor(x: int, z: int)
      requires Valid() && !Eq(z, 0)
      ensures Eq(x * (z * inverse(z)), x)
    {
      EqMul(x, x, z * inverse(z), 1);
    }

    lemma NoZeroDivisors(x: int, y: int)
      requires Valid() && Eq(x * y, 0)
      ensures Eq(x, 0) || Eq(y, 0)
    {
      if !Eq(y, 0) {
        Cancel(x, 0, y);
      }
    }

    /** The modulus is odd: it is greater than 2 and has no divisors of zero. */
    lemma IsOdd()
      requires Valid()
      ensures p % 2 == 1
    {
      if p % 2 == 0 {
        var half := p / 2;
        assert Reduce(p, half) == half && !Eq(half, 0);
        assert p == 2 * half && Eq(2 * half, 0);
        TwoIsNotZero();
        NoZeroDivisors(2, half);
      }
    }

    lemma TwoIsNotZero()
      requires Valid()
      ensures !Eq(2, 0) && !Eq(1, 0)
    {
    }
  }
}
