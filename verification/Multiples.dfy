/**
 Multiples in a monoid, and double-and-add over values that only represent its members. The monoid
 and the representation are parameters.
 */
module Multiples {
  import opened Arithmetic

  /** `n` additions of `p`. */
  function Times<P>(sum: (P, P) -> P, zero: P, n: nat, p: P): P {
    if n == 0 then zero else sum(p, Times(sum, zero, n - 1, p))
  }

  ghost predicate Monoid<P(!new)>(sum: (P, P) -> P, zero: P, member: P -> bool) {
    && member(zero)
    && (forall p, q {:trigger sum(p, q)} :: member(p) && member(q) ==> member(sum(p, q)))
    && (forall p {:trigger sum(zero, p)} :: member(p) ==> sum(zero, p) == p)
    && (forall p {:trigger sum(p, zero)} :: member(p) ==> sum(p, zero) == p)
    && (forall p, q, r {:trigger sum(sum(p, q), r)} :: member(p) && member(q) && member(r) ==>
          sum(sum(p, q), r) == sum(p, sum(q, r)))
  }

  lemma {:induction false} TimesMember<P(!new)>(sum: (P, P) -> P, zero: P, member: P -> bool, n: nat, p: P)
    requires Monoid(sum, zero, member) && member(p)
    ensures member(Times(sum, zero, n, p))
  {
    if n > 0 {
      TimesMember(sum, zero, member, n - 1, p);
    }
  }

  /** `m + n` additions are `m` additions and then `n`. */
  lemma {:induction false} TimesAdd<P(!new)>(sum: (P, P) -> P, zero: P, member: P -> bool, m: nat, n: nat, p: P)
    requires Monoid(sum, zero, member) && member(p)
    ensures Times(sum, zero, m + n, p) == sum(Times(sum, zero, m, p), Times(sum, zero, n, p))
  {
    TimesMember(sum, zero, member, n, p);
    if m > 0 {
      TimesAdd(sum, zero, member, m - 1, n, p);
      TimesMember(sum, zero, member, m - 1, p);
      assert sum(sum(p, Times(sum, zero, m - 1, p)), Times(sum, zero, n, p))
          == sum(p, sum(Times(sum, zero, m - 1, p), Times(sum, zero, n, p)));
    }
  }

  /** `m` times `n` additions are `m * n` additions. */
  lemma {:induction false} TimesTimes<P(!new)>(sum: (P, P) -> P, zero: P, member: P -> bool, m: nat, n: nat, k: nat,
          p: P)
    requires Monoid(sum, zero, member) && member(p) && k == m * n
    ensures Times(sum, zero, m, Times(sum, zero, n, p)) == Times(sum, zero, k, p)
  {
    if m > 0 {
      TakeOne(m, n, k);
      TimesTimes(sum, zero, member, m - 1, n, k - n, p);
      TimesAdd(sum, zero, member, n, k - n, p);
    }
  }

  lemma TakeOne(m: nat, n: nat, k: nat)
    requires m > 0 && k == m * n
    ensures n <= k && k - n == (m - 1) * n
  {
    MulDistribute(m - 1, 1, n);
  }

  /** Two multiples that complete an order that takes `p` to zero are inverse to each other. */
  lemma TimesComplete<P(!new)>(sum: (P, P) -> P, zero: P, member: P -> bool, m: nat, n: nat, p: P)
    requires Monoid(sum, zero, member) && member(p) && Times(sum, zero, m + n, p) == zero
    ensures sum(Times(sum, zero, m, p), Times(sum, zero, n, p)) == zero
  {
    TimesAdd(sum, zero, member, m, n, p);
  }

  // ---------- bits ----------

  /** The bits of `m`, lowest first, without leading zeros. */
  function Bits(m: nat): seq<bool> {
    if m == 0 then [] else [m % 2 == 1] + Bits(m / 2)
  }

  /** The number that the lowest `i` bits spell. */
  function Below(bits: seq<bool>, i: nat): nat
    requires i <= |bits|
  {
    if i == 0 then 0 else Below(bits, i - 1) + if bits[i - 1] then Pow(2, i - 1) else 0
  }

  lemma {:induction false} BelowShift(bits: seq<bool>, low: bool, i: nat)
    requires i <= |bits|
    ensures Below([low] + bits, i + 1) == 2 * Below(bits, i) + if low then 1 else 0
  {
    if i == 0 {
      assert Below([low] + bits, 1) == Below([low] + bits, 0) + if low then Pow(2, 0) else 0;
    } else {
      BelowShift(bits, low, i - 1);
    }
  }

  lemma {:induction false} BitsSpell(m: nat)
    ensures Below(Bits(m), |Bits(m)|) == m
  {
    if m > 0 {
      BitsSpell(m / 2);
      BelowShift(Bits(m / 2), m % 2 == 1, |Bits(m / 2)|);
    }
  }

  // ---------- double-and-add ----------

  /** `add` on representations is `sum` on what they represent. */
  ghost predicate Homomorphic<P(!new), R(!new)>(sum: (P, P) -> P, add: (R, R) -> R, member: P -> bool,
          rep: (R, P) -> bool)
  {
    forall r, q, a, b {:trigger rep(r, a), rep(q, b)} ::
      rep(r, a) && rep(q, b) && member(a) && member(b) ==> rep(add(r, q), sum(a, b))
  }

  /** What the loop keeps: `r` stands for the bits read so far times `p`, `exp` for the next power of two. */
  ghost predicate Doubling<P(!new), R(!new)>(sum: (P, P) -> P, zero: P, rep: (R, P) -> bool,
                                             p: P, bits: seq<bool>, i: nat, r: R, exp: R)
    requires i <= |bits|
  {
    rep(r, Times(sum, zero, Below(bits, i), p)) && rep(exp, Times(sum, zero, Pow(2, i), p))
  }

  lemma DoublingStarts<P(!new), R(!new)>(sum: (P, P) -> P, zero: P, member: P -> bool, rep: (R, P) -> bool,
                                         p: P, bits: seq<bool>, r: R, exp: R)
    requires Monoid(sum, zero, member) && member(p) && rep(r, zero) && rep(exp, p)
    ensures Doubling(sum, zero, rep, p, bits, 0, r, exp)
  {
    assert Times(sum, zero, 1, p) == sum(p, Times(sum, zero, 0, p));
  }

  lemma DoublingStep<P(!new), R(!new)>(sum: (P, P) -> P, zero: P, add: (R, R) -> R, member: P -> bool,
          rep: (R, P) -> bool,
                                       p: P, bits: seq<bool>, i: nat, r: R, exp: R)
    requires Monoid(sum, zero, member) && Homomorphic(sum, add, member, rep) && member(p)
    requires i < |bits| && Doubling(sum, zero, rep, p, bits, i, r, exp)
    ensures Doubling(sum, zero, rep, p, bits, i + 1, if bits[i] then add(r, exp) else r, add(exp, exp))
  {
    RepTimes(sum, zero, add, member, rep, p, Below(bits, i), Pow(2, i), r, exp);
    RepTimes(sum, zero, add, member, rep, p, Pow(2, i), Pow(2, i), exp, exp);
    assert Pow(2, i + 1) == Pow(2, i) + Pow(2, i);
  }

  lemma RepTimes<P(!new), R(!new)>(sum: (P, P) -> P, zero: P, add: (R, R) -> R, member: P -> bool, rep: (R, P) -> bool,
                                   p: P, m: nat, n: nat, r: R, q: R)
    requires Monoid(sum, zero, member) && Homomorphic(sum, add, member, rep) && member(p)
    requires rep(r, Times(sum, zero, m, p)) && rep(q, Times(sum, zero, n, p))
    ensures rep(add(r, q), Times(sum, zero, m + n, p))
  {
    TimesMember(sum, zero, member, m, p);
    TimesMember(sum, zero, member, n, p);
    TimesAdd(sum, zero, member, m, n, p);
  }
}
