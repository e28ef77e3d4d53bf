/** Powers and rounding division on natural numbers. */
module Arithmetic {

  function Pow(b: nat, e: nat): nat {
    if e == 0 then 1 else b * Pow(b, e - 1)
  }

  /** Rust's `n.div_ceil(d)`. */
  function CeilDiv(n: nat, d: nat): nat
    requires d > 0
  {
    (n + d - 1) / d
  }

  /** Rust's `n / d` on unsigned integers, named so that its type says it is not negative. */
  function Quotient(n: nat, d: nat): nat
    requires d > 0
  {
    n / d
  }

  function Max(a: nat, b: nat): nat { if a < b then b else a }

  function Min(a: nat, b: nat): nat { if a < b then a else b }

  lemma PowPositive(b: nat, e: nat)
    requires b > 0
    ensures Pow(b, e) > 0
  {
  }

  lemma MulAssociate(a: int, b: int, c: int)
    ensures (a * b) * c == a * (b * c)
  {
  }

  lemma MulDistribute(a: int, b: int, c: int)
    ensures (a + b) * c == a * c + b * c && (a - b) * c == a * c - b * c
    ensures c * (a + b) == c * a + c * b
  {
  }

  lemma {:induction false} PowAdd(b: nat, e: nat, f: nat)
    ensures Pow(b, e + f) == Pow(b, e) * Pow(b, f)
  {
    if e > 0 {
      PowAdd(b, e - 1, f);
      MulAssociate(b, Pow(b, e - 1), Pow(b, f));
    }
  }

  lemma MulMonotone(a: nat, b: nat, c: nat)
    requires a <= b
    ensures a * c <= b * c
  {
  }

  lemma MulStrictlyMonotone(a: nat, b: nat, c: nat)
    requires a < b
    ensures a * c + c <= b * c
  {
    MulMonotone(a + 1, b, c);
  }

  /** `i` is below the rounded-up quotient exactly when `i * d` is below `n`. */
  lemma BelowCeilDiv(i: nat, n: nat, d: nat)
    requires d > 0
    ensures i < CeilDiv(n, d) <==> i * d < n
  {
    var q := CeilDiv(n, d);
    var r := (n + d - 1) % d;
    assert q * d + r == n + d - 1;
    if i < q {
      MulStrictlyMonotone(i, q, d);
    } else {
      MulMonotone(q, i, d);
    }
  }

  /** `i` is below the rounded-down quotient exactly when a whole group after `i * d` fits in `n`. */
  lemma BelowFloorDiv(i: nat, n: nat, d: nat)
    requires d > 0
    ensures i < n / d <==> i * d + d <= n
  {
    var q := n / d;
    assert q * d + n % d == n;
    if i < q {
      MulStrictlyMonotone(i, q, d);
    } else {
      MulMonotone(q, i, d);
    }
  }

  /** Rounding up twice is rounding up once by the product. */
  lemma CeilDivNested(n: nat, a: nat, b: nat)
    requires a > 0 && b > 0
    ensures a * b > 0 && CeilDiv(CeilDiv(n, a), b) == CeilDiv(n, b * a)
  {
    assert a * b > 0 by { MulMonotone(1, a, b); }
    var x, y := CeilDiv(CeilDiv(n, a), b), CeilDiv(n, b * a);
    BelowNested(x, n, a, b);
    BelowNested(y, n, a, b);
  }

  lemma BelowNested(i: nat, n: nat, a: nat, b: nat)
    requires a > 0 && b > 0 && a * b > 0
    ensures i < CeilDiv(CeilDiv(n, a), b) <==> i < CeilDiv(n, b * a)
  {
    BelowCeilDiv(i, CeilDiv(n, a), b);
    BelowCeilDiv(i * b, n, a);
    BelowCeilDiv(i, n, b * a);
    assert i * b * a == i * (b * a);
  }

  /** Rounding down twice is rounding down once by the product. */
  lemma FloorDivNested(n: nat, a: nat, b: nat)
    requires a > 0 && b > 0
    ensures b * a > 0 && Quotient(Quotient(n, a), b) == Quotient(n, b * a)
  {
    var m := Quotient(n, a);
    Recombine(n, a);
    Recombine(m, b);
    Compose(n, a, b, m, n % a, Quotient(m, b), m % b);
  }

  lemma Compose(n: nat, a: nat, b: nat, m: nat, r: nat, q: nat, s: nat)
    requires n == m * a + r && r < a
    requires m == q * b + s && s < b
    ensures b * a > 0 && q == Quotient(n, b * a)
  {
    MulStrictlyMonotone(s, b, a);
    assert (q * b + s) * a == q * (b * a) + s * a;
    DivModUnique(q, s * a + r, b * a);
  }

  lemma CeilDivMonotone(m: nat, n: nat, d: nat)
    requires d > 0 && m <= n
    ensures CeilDiv(m, d) <= CeilDiv(n, d)
  {
    var i := CeilDiv(n, d);
    BelowCeilDiv(i, m, d);
    BelowCeilDiv(i, n, d);
  }

  lemma FloorBelowCeil(m: nat, n: nat, d: nat)
    requires d > 0
    ensures m < n ==> m / d < CeilDiv(n, d)
    ensures m <= n ==> m / d <= CeilDiv(n, d)
  {
    BelowFloorDiv(CeilDiv(n, d), m, d);
    BelowFloorDiv(m / d, m, d);
    BelowCeilDiv(m / d, n, d);
    BelowCeilDiv(CeilDiv(n, d), n, d);
  }

  lemma Recombine(n: nat, d: nat)
    requires d > 0
    ensures Quotient(n, d) * d + n % d == n
  {
  }

  lemma FloorTimes(n: nat, d: nat)
    requires d > 0
    ensures n / d * d <= n
  {
  }

  /** Quotient and remainder are unique. */
  lemma DivModUnique(q: nat, r: nat, d: nat)
    requires r < d
    ensures (q * d + r) / d == q && (q * d + r) % d == r
  {
    var x := q * d + r;
    var q', r' := x / d, x % d;
    assert q' * d + r' == x;
    if q' < q {
      MulStrictlyMonotone(q', q, d);
    } else if q < q' {
      MulStrictlyMonotone(q, q', d);
    }
  }
}
