/**
 A scan over the naturals that gives up after a gap: what each number yields is a parameter, and a
 number that yields something is a hit.
 */
module GapScans {
  import opened Arithmetic

  function Hits(hit: nat -> bool, n: nat): nat {
    if n == 0 then 0 else Hits(hit, n - 1) + if hit(n - 1) then 1 else 0
  }

  /** How many numbers in a row just before `n` are no hits. */
  function Misses(hit: nat -> bool, n: nat): (misses: nat)
    ensures misses <= n
  {
    if n == 0 || hit(n - 1) then 0 else Misses(hit, n - 1) + 1
  }

  /** All that the numbers below `n` yield, in order. */
  function Yields<T>(at: nat -> seq<T>, n: nat): seq<T> {
    if n == 0 then [] else Yields(at, n - 1) + at(n - 1)
  }

  lemma {:induction false} MissesExact(hit: nat -> bool, gap: nat, n: nat)
    ensures Misses(hit, n) >= gap <==> gap <= n && forall k :: n - gap <= k < n ==> !hit(k)
  {
    if n > 0 && gap > 0 && !hit(n - 1) {
      MissesExact(hit, gap - 1, n - 1);
    }
  }

  // ---------- where a scan stops ----------

  /** The first point with `gap` numbers in a row before it that are no hits. */
  ghost predicate StopsAt(hit: nat -> bool, gap: nat, n: nat) {
    Misses(hit, n) >= gap && forall m: nat :: m < n ==> Misses(hit, m) < gap
  }

  lemma OneMoreHit(hits: nat, gap: nat, misses: nat)
    requires misses <= gap
    ensures hits * gap + misses <= (hits + 1) * gap
  {
    MulDistribute(hits, 1, gap);
  }

  /** The numbers tried so far are paid for by the hits among them and the current run of misses. */
  lemma {:induction false} ScanLength(hit: nat -> bool, gap: nat, n: nat)
    requires forall m: nat :: m < n ==> Misses(hit, m) < gap
    ensures n <= Hits(hit, n) * gap + Misses(hit, n)
  {
    if n > 0 {
      ScanLength(hit, gap, n - 1);
      OneMoreHit(Hits(hit, n - 1), gap, Misses(hit, n - 1) + 1);
    }
  }

  /** The stopping point is at most one gap past what the hits allow. */
  lemma StopBound(hit: nat -> bool, gap: nat, stop: nat)
    requires StopsAt(hit, gap, stop)
    ensures stop <= (Hits(hit, stop) + 1) * gap
  {
    ScanLength(hit, gap, stop);
    if stop > 0 {
      assert Misses(hit, stop - 1) < gap;
    }
    OneMoreHit(Hits(hit, stop), gap, Misses(hit, stop));
  }

  /** The first stopping point up to one that has enough misses before it. */
  lemma {:induction false} FirstStop(hit: nat -> bool, gap: nat, n: nat) returns (stop: nat)
    requires exists m: nat :: m <= n && Misses(hit, m) >= gap
    ensures stop <= n && StopsAt(hit, gap, stop)
  {
    if m: nat :| m < n && Misses(hit, m) >= gap {
      stop := FirstStop(hit, gap, n - 1);
    } else {
      stop := n;
    }
  }

  /** If there are never more than `bound` hits, a scan stops by one gap past what those allow. */
  lemma StopExists(hit: nat -> bool, gap: nat, bound: nat) returns (stop: nat)
    requires forall n: nat :: Hits(hit, n) <= bound
    ensures StopsAt(hit, gap, stop) && stop <= (bound + 1) * gap
  {
    var n := (bound + 1) * gap;
    if forall m: nat :: m <= n ==> Misses(hit, m) < gap {
      ScanLength(hit, gap, n);
      MulMonotone(Hits(hit, n), bound, gap);
      MulDistribute(bound, 1, gap);
      assert false;
    }
    stop := FirstStop(hit, gap, n);
  }

  /** A scan that tries only numbers that are `ok` gets past those below `n`. */
  ghost predicate Passed(hit: nat -> bool, ok: nat -> bool, gap: nat, n: nat) {
    n == 0 || (Passed(hit, ok, gap, n - 1) && Misses(hit, n - 1) < gap && ok(n - 1))
  }

  lemma {:induction false} PassedAll(hit: nat -> bool, ok: nat -> bool, gap: nat, n: nat)
    requires Passed(hit, ok, gap, n)
    ensures forall m: nat :: m < n ==> Misses(hit, m) < gap
    ensures forall m: nat :: m < n ==> ok(m)
  {
    if n > 0 {
      PassedAll(hit, ok, gap, n - 1);
    }
  }

  // ---------- which hits are found ----------

  /** Every hit is within one gap of the hit before it, or of the start. */
  ghost predicate Chained(hit: nat -> bool, gap: nat) {
    forall n: nat :: hit(n) ==> n < gap || exists m: nat :: m < n <= m + gap && hit(m)
  }

  lemma {:induction false} ChainedBelowStop(hit: nat -> bool, gap: nat, stop: nat, n: nat)
    requires StopsAt(hit, gap, stop) && Chained(hit, gap) && hit(n)
    ensures n < stop
  {
    MissesExact(hit, gap, stop);
    if n >= gap {
      var m: nat :| m < n <= m + gap && hit(m);
      ChainedBelowStop(hit, gap, stop, m);
    }
  }

  /** The scan passes every hit exactly when no two hits in a row are more than a gap apart. */
  lemma AllFoundIffChained(hit: nat -> bool, gap: nat, stop: nat)
    requires StopsAt(hit, gap, stop)
    ensures (forall n: nat :: hit(n) ==> n < stop) <==> Chained(hit, gap)
  {
    if Chained(hit, gap) {
      forall n: nat | hit(n) ensures n < stop {
        ChainedBelowStop(hit, gap, stop, n);
      }
    }
    if forall n: nat :: hit(n) ==> n < stop {
      forall n: nat | hit(n)
        ensures n < gap || exists m: nat :: m < n <= m + gap && hit(m)
      {
        assert Misses(hit, n) < gap;
        MissesExact(hit, gap, n);
      }
    }
  }

  // ---------- what a scan returns ----------

  /** The last result tells which number yielded it. */
  ghost predicate Numbered<T(!new)>(at: nat -> seq<T>, number: T -> nat) {
    forall n: nat, x {:trigger x in at(n)} :: x in at(n) ==> number(x) == n
  }

  lemma {:induction false} InYields<T(!new)>(at: nat -> seq<T>, number: T -> nat, n: nat, x: T)
    requires Numbered(at, number)
    ensures x in Yields(at, n) <==> number(x) < n && x in at(number(x))
  {
    if n > 0 {
      InYields(at, number, n - 1, x);
    }
  }

  /** One past the number of the last result, or 0 without one. */
  function Next<T>(number: T -> nat, results: seq<T>): nat {
    if results == [] then 0 else number(results[|results| - 1]) + 1
  }

  /** `next` is one past the last hit below `stop`, or 0 without one. */
  ghost predicate PastLast(hit: nat -> bool, stop: nat, next: nat) {
    && next <= stop
    && (forall n: nat :: next <= n < stop ==> !hit(n))
    && (next > 0 ==> hit(next - 1))
  }

  lemma {:induction false} NextIsPastLast<T(!new)>(at: nat -> seq<T>, hit: nat -> bool, number: T -> nat, stop: nat)
    requires Numbered(at, number) && forall n: nat :: hit(n) <==> at(n) != []
    ensures PastLast(hit, stop, Next(number, Yields(at, stop)))
  {
    if stop > 0 {
      NextIsPastLast(at, hit, number, stop - 1);
      var before, last := Yields(at, stop - 1), at(stop - 1);
      if last == [] {
        assert before + last == before;
      } else {
        assert last[|last| - 1] in last && (before + last)[|before + last| - 1] == last[|last| - 1];
      }
    }
  }

  /** `next` is past every hit exactly when no two hits in a row are more than a gap apart. */
  lemma FreshIffChained(hit: nat -> bool, gap: nat, stop: nat, next: nat)
    requires StopsAt(hit, gap, stop) && PastLast(hit, stop, next)
    ensures (forall n: nat :: hit(n) ==> n < next) <==> Chained(hit, gap)
  {
    AllFoundIffChained(hit, gap, stop);
    forall n: nat | hit(n)
      ensures n < next <==> n < stop
    {
    }
  }

  /** With hits 0 and `gap + 1` alone the scan stops at `gap + 1`. */
  lemma StopsAfterFirst(hit: nat -> bool, gap: nat)
    requires gap >= 1 && forall n: nat :: hit(n) <==> n == 0 || n == gap + 1
    ensures StopsAt(hit, gap, gap + 1)
  {
    MissesExact(hit, gap, gap + 1);
    forall m: nat | m < gap + 1
      ensures Misses(hit, m) < gap
    {
      MissesExact(hit, gap, m);
      assert hit(0);
    }
  }

  lemma NextAfterFirst(hit: nat -> bool, gap: nat, next: nat)
    requires (forall n: nat :: hit(n) <==> n == 0 || n == gap + 1) && PastLast(hit, gap + 1, next)
    ensures next == 1
  {
    assert hit(0);
  }
}
