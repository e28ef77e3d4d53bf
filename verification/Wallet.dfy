/** A wallet that makes every deposit at the next nonce: its nonces and what it can recover. */
module Wallet {
  import opened Events
  import opened GapScans
  import opened PoolIndexes
  import opened Recovery

  /** The wallet's own deposits so far, `(nonce, pool)` in the order they were made. */
  type History<P> = seq<(nat, P)>

  /**
   Batches that show exactly the wallet's deposits: there is a batch of every pool it deposited in,
   and the events of a pool have the commitment derived for a nonce just when it deposited that there.
   */
  ghost predicate Shows<P(!new)>(derive: Derive<P>, batches: seq<Snapshot<P>>, history: History<P>) {
    && (forall k :: 0 <= k < |history| ==> exists j :: 0 <= j < |batches| && batches[j].pool == history[k].1)
    && (forall j, n: nat :: 0 <= j < |batches| ==>
          (Used(derive, batches, batches[j].pool, n) <==> (n, batches[j].pool) in history))
  }

  /** What such batches show, entry by entry of their index. */
  lemma ShownEntries<P(!new)>(derive: Derive<P>, batches: seq<Snapshot<P>>, history: History<P>)
    requires Shows(derive, batches, history)
    ensures forall k :: 0 <= k < |history| ==> history[k].1 in Pools(batches)
    ensures forall i, n: nat :: 0 <= i < |IndexOf(batches)| ==>
      (Matches(derive, IndexOf(batches)[i], n) <==> (n, IndexOf(batches)[i].pool) in history)
  {
    PoolsDistinct(batches);
    forall i, n: nat | 0 <= i < |IndexOf(batches)|
      ensures Matches(derive, IndexOf(batches)[i], n) <==> (n, IndexOf(batches)[i].pool) in history
    {
      var j := FirstBatch(batches, Pools(batches)[i]);
      MatchIffUsed(derive, batches, batches[j].pool, n);
    }
  }

  /** The deposits used the nonces 0, 1, 2, ... */
  predicate Sequential<P>(history: History<P>) {
    forall k :: 0 <= k < |history| ==> history[k].0 == k
  }

  /** The wallet's hits are exactly the nonces it has used. */
  lemma HitsAreUsed<P(!new)>(derive: Derive<P>, batches: seq<Snapshot<P>>, history: History<P>)
    requires Shows(derive, batches, history) && Sequential(history)
    ensures UpTo(HitOf(derive, IndexOf(batches)), |history|)
  {
    forall n: nat
      ensures HitOf(derive, IndexOf(batches))(n) <==> n < |history|
    {
      HitIsUsed(derive, batches, history, n);
    }
  }

  lemma HitIsUsed<P(!new)>(derive: Derive<P>, batches: seq<Snapshot<P>>, history: History<P>, n: nat)
    requires Shows(derive, batches, history) && Sequential(history)
    ensures Hit(derive, IndexOf(batches), n) <==> n < |history|
  {
    var indexes := IndexOf(batches);
    ShownEntries(derive, batches, history);
    if n < |history| {
      var i :| 0 <= i < |Pools(batches)| && Pools(batches)[i] == history[n].1;
      assert indexes[i].pool == history[n].1 && history[n] == (n, indexes[i].pool);
      assert Matches(derive, indexes[i], n);
    }
  }

  /** The hits are the numbers below `n`. */
  ghost predicate UpTo(hit: nat -> bool, n: nat) {
    forall k: nat :: hit(k) <==> k < n
  }

  /** Scanning hits `0..n` stops one gap after them. */
  lemma ScanUpTo(hit: nat -> bool, n: nat, gap: nat)
    requires UpTo(hit, n) && gap >= 1
    ensures StopsAt(hit, gap, n + gap)
  {
    MissesExact(hit, gap, n + gap);
    forall m: nat | m < n + gap
      ensures Misses(hit, m) < gap
    {
      MissesExact(hit, gap, m);
      if gap <= m {
        assert hit(m - gap);
      }
    }
  }

  lemma StopIsUnique(hit: nat -> bool, gap: nat, a: nat, b: nat)
    requires StopsAt(hit, gap, a) && StopsAt(hit, gap, b)
    ensures a == b
  {
  }

  /** A sequential wallet's scan stops one gap after its last deposit, and its next nonce is unused. */
  lemma ScanOfWallet<P(!new)>(derive: Derive<P>, batches: seq<Snapshot<P>>, history: History<P>, gap: nat, stop: nat)
    requires Shows(derive, batches, history) && Sequential(history) && gap >= 1
    requires StopsAt(HitOf(derive, IndexOf(batches)), gap, stop)
    ensures stop == |history| + gap
    ensures NextOf(NotesBelow(derive, IndexOf(batches), stop)) == |history|
  {
    var hit := HitOf(derive, IndexOf(batches));
    HitsAreUsed(derive, batches, history);
    ScanUpTo(hit, |history|, gap);
    StopIsUnique(hit, gap, stop, |history| + gap);
    NextNonceIsPastLast(derive, IndexOf(batches), stop);
    NextUpTo(hit, |history|, stop, NextOf(NotesBelow(derive, IndexOf(batches), stop)));
  }

  lemma NextUpTo(hit: nat -> bool, n: nat, stop: nat, next: nat)
    requires UpTo(hit, n) && n <= stop && PastLast(hit, stop, next)
    ensures next == n
  {
    assert next < n ==> hit(next);
  }

  /** Such a scan does stop. */
  lemma ScanOfWalletStops<P(!new)>(derive: Derive<P>, batches: seq<Snapshot<P>>, history: History<P>, gap: nat)
    requires Shows(derive, batches, history) && Sequential(history) && gap >= 1
    ensures StopsAt(HitOf(derive, IndexOf(batches)), gap, |history| + gap)
  {
    HitsAreUsed(derive, batches, history);
    ScanUpTo(HitOf(derive, IndexOf(batches)), |history|, gap);
  }

  /** Every deposit made so far is recovered, in the pool it was made in. */
  lemma DepositsAreRecovered<P(!new)>(derive: Derive<P>, batches: seq<Snapshot<P>>, history: History<P>, gap: nat,
          stop: nat, k: nat)
    requires Shows(derive, batches, history) && Sequential(history) && gap >= 1
    requires StopsAt(HitOf(derive, IndexOf(batches)), gap, stop) && k < |history|
    ensures exists note ::
        note in NotesBelow(derive, IndexOf(batches), stop) && note.nonce == k && note.pool == history[k].1
  {
    var indexes := IndexOf(batches);
    ScanOfWallet(derive, batches, history, gap, stop);
    ShownEntries(derive, batches, history);
    var i :| 0 <= i < |Pools(batches)| && Pools(batches)[i] == history[k].1;
    assert indexes[i].pool == history[k].1 && history[k] == (k, indexes[i].pool);
    assert Matches(derive, indexes[i], k);
    var note := NoteIn(derive, indexes[i], k);
    NotesAreMatches(derive, indexes, stop, note);
  }

  // ---------- whole runs ----------

  /** One deposit: the batches the wallet saw, where its scan stopped, and the pool it chose. */
  datatype Step<P> = Step(batches: seq<Snapshot<P>>, stop: nat, pool: P)

  /** The deposits of a run: each at the next nonce of the batches seen before it. */
  function Deposits<P(==)>(derive: Derive<P>, run: seq<Step<P>>): History<P> {
    if run == [] then []
    else
      var last := run[|run| - 1];
      Deposits(derive, run[..|run| - 1]) + [(NextOf(NotesBelow(derive, IndexOf(last.batches), last.stop)), last.pool)]
  }

  /** Each step saw batches showing all earlier deposits, and scanned them with the gap. */
  ghost predicate Run<P(!new)>(derive: Derive<P>, run: seq<Step<P>>, gap: nat) {
    run == [] ||
    var before, last := run[..|run| - 1], run[|run| - 1];
    && Run(derive, before, gap)
    && Shows(derive, last.batches, Deposits(derive, before))
    && StopsAt(HitOf(derive, IndexOf(last.batches)), gap, last.stop)
  }

  /** Whatever pools it chooses and whatever batches it is shown, a wallet never reuses or skips a nonce. */
  lemma {:induction false} NoncesCountUp<P(!new)>(derive: Derive<P>, run: seq<Step<P>>, gap: nat)
    requires Run(derive, run, gap) && gap >= 1
    ensures |Deposits(derive, run)| == |run| && Sequential(Deposits(derive, run))
  {
    if run != [] {
      var before, last := run[..|run| - 1], run[|run| - 1];
      NoncesCountUp(derive, before, gap);
      ScanOfWallet(derive, last.batches, Deposits(derive, before), gap, last.stop);
    }
  }

  /** After any run, whoever is shown all its deposits recovers every one of them. */
  lemma RunIsRecoverable<P(!new)>(derive: Derive<P>, run: seq<Step<P>>, gap: nat, batches: seq<Snapshot<P>>,
          stop: nat, k: nat)
    requires Run(derive, run, gap) && gap >= 1 && k < |run|
    requires Shows(derive, batches, Deposits(derive, run)) && StopsAt(HitOf(derive, IndexOf(batches)), gap, stop)
    ensures |Deposits(derive, run)| == |run|
    ensures exists note :: note in NotesBelow(derive, IndexOf(batches), stop)
                           && note.nonce == k && note.pool == Deposits(derive, run)[k].1
  {
    NoncesCountUp(derive, run, gap);
    DepositsAreRecovered(derive, batches, Deposits(derive, run), gap, stop, k);
  }
}
