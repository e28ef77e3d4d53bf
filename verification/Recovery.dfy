/** Recovering a keychain's notes from pool events, and choosing the next nonce to use. */
module Recovery {
  import opened Wrappers
  import opened Events
  import opened GapScans
  import opened PoolIndexes

  const DEFAULT_GAP_LIMIT: nat := 20

  datatype NoteHashes = NoteHashes(commitment: Hash, nullifierHash: Hash)

  /** What the keychain derives for a nonce and a pool; none when its signer fails. */
  type Derive<!P> = (nat, P) -> Option<NoteHashes>

  datatype RecoveredNote<P> = RecoveredNote(pool: P, nonce: nat, deposit: SyncEvent, withdrawal: Option<SyncEvent>)

  /** A signing error. */
  datatype KeychainError = SignerError

  // ---------- what a nonce yields ----------

  ghost predicate Derivable<P(!new)>(derive: Derive<P>, indexes: seq<PoolIndex<P>>, nonce: nat) {
    forall i :: 0 <= i < |indexes| ==> derive(nonce, indexes[i].pool).Some?
  }

  predicate Matches<P>(derive: Derive<P>, index: PoolIndex<P>, nonce: nat) {
    var hashes := derive(nonce, index.pool);
    hashes.Some? && hashes.value.commitment in index.deposits
  }

  /** The note recovered from a match. */
  function NoteIn<P>(derive: Derive<P>, index: PoolIndex<P>, nonce: nat): RecoveredNote<P>
    requires Matches(derive, index, nonce)
  {
    var hashes := derive(nonce, index.pool).value;
    var withdrawal :=
      if hashes.nullifierHash in index.withdrawals then Some(index.withdrawals[hashes.nullifierHash]) else None;
    RecoveredNote(index.pool, nonce, index.deposits[hashes.commitment], withdrawal)
  }

  /** The notes of one nonce in the first `n` pools, in the pools' order. */
  function NotesAt<P>(derive: Derive<P>, indexes: seq<PoolIndex<P>>, nonce: nat, n: nat): seq<RecoveredNote<P>>
    requires n <= |indexes|
  {
    if n == 0 then []
    else
      var index := indexes[n - 1];
      var found := if Matches(derive, index, nonce) then [NoteIn(derive, index, nonce)] else [];
      NotesAt(derive, indexes, nonce, n - 1) + found
  }

  /** Some pool has a deposit for the nonce. */
  predicate Hit<P>(derive: Derive<P>, indexes: seq<PoolIndex<P>>, nonce: nat) {
    exists i :: 0 <= i < |indexes| && Matches(derive, indexes[i], nonce)
  }

  function NotesOf<P>(derive: Derive<P>, indexes: seq<PoolIndex<P>>): nat -> seq<RecoveredNote<P>> {
    (nonce: nat) => NotesAt(derive, indexes, nonce, |indexes|)
  }

  function HitOf<P>(derive: Derive<P>, indexes: seq<PoolIndex<P>>): nat -> bool {
    (nonce: nat) => Hit(derive, indexes, nonce)
  }

  /** The notes of all nonces below `n`, nonce after nonce. */
  function NotesBelow<P>(derive: Derive<P>, indexes: seq<PoolIndex<P>>, n: nat): seq<RecoveredNote<P>> {
    Yields(NotesOf(derive, indexes), n)
  }

  lemma {:induction false} NotesAtEmpty<P>(derive: Derive<P>, indexes: seq<PoolIndex<P>>, nonce: nat, n: nat)
    requires n <= |indexes|
    ensures NotesAt(derive, indexes, nonce, n) == [] <==> forall i :: 0 <= i < n ==> !Matches(derive, indexes[i], nonce)
  {
    if n > 0 {
      NotesAtEmpty(derive, indexes, nonce, n - 1);
    }
  }

  /** The hits are the nonces that yield a note. */
  lemma HitsYield<P>(derive: Derive<P>, indexes: seq<PoolIndex<P>>, nonce: nat)
    ensures HitOf(derive, indexes)(nonce) <==> NotesOf(derive, indexes)(nonce) != []
  {
    NotesAtEmpty(derive, indexes, nonce, |indexes|);
  }

  /** The note is that of its nonce in one of the first `n` pools. */
  predicate IsMatch<P(==)>(derive: Derive<P>, indexes: seq<PoolIndex<P>>, n: nat, note: RecoveredNote<P>)
    requires n <= |indexes|
  {
    exists i :: 0 <= i < n && Matches(derive, indexes[i], note.nonce) && note == NoteIn(derive, indexes[i], note.nonce)
  }

  lemma {:induction false} NotesAtAreMatches<P>(derive: Derive<P>, indexes: seq<PoolIndex<P>>, nonce: nat, n: nat,
          note: RecoveredNote<P>)
    requires n <= |indexes|
    ensures note in NotesAt(derive, indexes, nonce, n) <==> note.nonce == nonce && IsMatch(derive, indexes, n, note)
  {
    if n > 0 {
      NotesAtAreMatches(derive, indexes, nonce, n - 1, note);
      OneMorePool(derive, indexes, nonce, n, note);
    }
  }

  lemma OneMorePool<P>(derive: Derive<P>, indexes: seq<PoolIndex<P>>, nonce: nat, n: nat, note: RecoveredNote<P>)
    requires 0 < n <= |indexes|
    ensures note in NotesAt(derive, indexes, nonce, n) <==>
      || note in NotesAt(derive, indexes, nonce, n - 1)
      || (Matches(derive, indexes[n - 1], nonce) && note == NoteIn(derive, indexes[n - 1], nonce))
  {
  }

  function NonceOf<P>(): RecoveredNote<P> -> nat { (note: RecoveredNote<P>) => note.nonce }

  lemma NotesAreNumbered<P(!new)>(derive: Derive<P>, indexes: seq<PoolIndex<P>>)
    ensures Numbered(NotesOf(derive, indexes), NonceOf<P>())
  {
    var at, number := NotesOf(derive, indexes), NonceOf<P>();
    forall n: nat, note {:trigger note in at(n)} | note in at(n)
      ensures number(note) == n
    {
      NotesAtAreMatches(derive, indexes, n, |indexes|, note);
    }
  }

  /** A note is returned exactly for the matching pools and nonces below the stopping point. */
  lemma NotesAreMatches<P(!new)>(derive: Derive<P>, indexes: seq<PoolIndex<P>>, n: nat, note: RecoveredNote<P>)
    ensures note in NotesBelow(derive, indexes, n) <==> note.nonce < n && IsMatch(derive, indexes, |indexes|, note)
  {
    NotesAreNumbered(derive, indexes);
    InYields(NotesOf(derive, indexes), NonceOf<P>(), n, note);
    NotesAtAreMatches(derive, indexes, note.nonce, |indexes|, note);
  }

  // ---------- the notes, from the events of the batches ----------

  /** The event is the last one of the pool, over all batches, that carries `h`. */
  ghost predicate IsLastOf<P>(batches: seq<Snapshot<P>>, pool: P, kind: Kind, h: Hash, event: SyncEvent) {
    exists j: nat, k: nat :: LastOf(batches, pool, kind, h, j, k) && batches[j].events[k] == event
  }

  /**
   The note is that of its nonce and pool: its deposit is the pool's last one of the derived
   commitment, its withdrawal the pool's last one of the derived nullifier hash, if it has one.
   */
  ghost predicate FromEvents<P>(derive: Derive<P>, batches: seq<Snapshot<P>>, note: RecoveredNote<P>) {
    var hashes := derive(note.nonce, note.pool);
    && hashes.Some?
    && IsLastOf(batches, note.pool, Deposits, hashes.value.commitment, note.deposit)
    && match note.withdrawal
       case Some(event) => IsLastOf(batches, note.pool, Withdrawals, hashes.value.nullifierHash, event)
       case None => NoneOf(batches, note.pool, Withdrawals, hashes.value.nullifierHash)
  }

  lemma LastIsUnique<P>(batches: seq<Snapshot<P>>, pool: P, kind: Kind, h: Hash, event: SyncEvent)
    requires IsLastOf(batches, pool, kind, h, event)
    ensures h in Entries(IndexFor(batches, pool), kind) && Entries(IndexFor(batches, pool), kind)[h] == event
  {
    var j: nat, k: nat :| LastOf(batches, pool, kind, h, j, k) && batches[j].events[k] == event;
    var j', k' := EntryExact(batches, pool, kind, h);
    assert !NoneIn(batches[j].events, kind, h);
  }

  lemma EntryIsLast<P>(batches: seq<Snapshot<P>>, pool: P, kind: Kind, h: Hash)
    ensures h !in Entries(IndexFor(batches, pool), kind) ==> NoneOf(batches, pool, kind, h)
    ensures h in Entries(IndexFor(batches, pool), kind) ==>
      IsLastOf(batches, pool, kind, h, Entries(IndexFor(batches, pool), kind)[h])
  {
    var j, k := EntryExact(batches, pool, kind, h);
  }

  lemma NoteInIsFromEvents<P>(derive: Derive<P>, batches: seq<Snapshot<P>>, pool: P, note: RecoveredNote<P>)
    requires note.pool == pool
    ensures FromEvents(derive, batches, note) <==>
      var index := IndexFor(batches, pool);
      Matches(derive, index, note.nonce) && note == NoteIn(derive, index, note.nonce)
  {
    var index, hashes := IndexFor(batches, pool), derive(note.nonce, pool);
    if hashes.Some? {
      var c, n := hashes.value.commitment, hashes.value.nullifierHash;
      assert Entries(index, Deposits) == index.deposits && Entries(index, Withdrawals) == index.withdrawals;
      EntryIsLast(batches, pool, Deposits, c);
      EntryIsLast(batches, pool, Withdrawals, n);
      EntryIffCarried(batches, pool, Withdrawals, n);
      if FromEvents(derive, batches, note) {
        LastIsUnique(batches, pool, Deposits, c, note.deposit);
        if note.withdrawal.Some? {
          LastIsUnique(batches, pool, Withdrawals, n, note.withdrawal.value);
        }
      }
    }
  }

  /** The notes returned are exactly those that the events of the batches show, of the nonces below `stop`. */
  lemma NotesFromEvents<P(!new)>(derive: Derive<P>, batches: seq<Snapshot<P>>, stop: nat, note: RecoveredNote<P>)
    ensures note in NotesBelow(derive, IndexOf(batches), stop) <==>
      note.nonce < stop && FromEvents(derive, batches, note)
  {
    var indexes := IndexOf(batches);
    NotesAreMatches(derive, indexes, stop, note);
    NoteInIsFromEvents(derive, batches, note.pool, note);
    if FromEvents(derive, batches, note) {
      PoolOfEvents(derive, batches, note);
      var i :| 0 <= i < |Pools(batches)| && Pools(batches)[i] == note.pool;
      assert indexes[i] == IndexFor(batches, note.pool);
    }
  }

  lemma PoolOfEvents<P>(derive: Derive<P>, batches: seq<Snapshot<P>>, note: RecoveredNote<P>)
    requires FromEvents(derive, batches, note)
    ensures note.pool in Pools(batches)
  {
    var h := derive(note.nonce, note.pool).value.commitment;
    var j: nat, k: nat :| LastOf(batches, note.pool, Deposits, h, j, k) && batches[j].events[k] == note.deposit;
    PoolsDistinct(batches);
  }

  /** Some batch of the pool has a deposit of the commitment derived for the nonce. */
  ghost predicate Used<P>(derive: Derive<P>, batches: seq<Snapshot<P>>, pool: P, nonce: nat) {
    var hashes := derive(nonce, pool);
    hashes.Some? && !NoneOf(batches, pool, Deposits, hashes.value.commitment)
  }

  /** A pool's entry matches a nonce exactly when its events use it. */
  lemma MatchIffUsed<P>(derive: Derive<P>, batches: seq<Snapshot<P>>, pool: P, nonce: nat)
    ensures Matches(derive, IndexFor(batches, pool), nonce) <==> Used(derive, batches, pool, nonce)
  {
    var hashes := derive(nonce, pool);
    if hashes.Some? {
      EntryIffCarried(batches, pool, Deposits, hashes.value.commitment);
    }
  }

  /** A nonce is a hit exactly when some batch's pool uses it. */
  lemma HitIffUsed<P(!new)>(derive: Derive<P>, batches: seq<Snapshot<P>>, nonce: nat)
    ensures HitOf(derive, IndexOf(batches))(nonce) <==>
      exists j :: 0 <= j < |batches| && Used(derive, batches, batches[j].pool, nonce)
  {
    var indexes := IndexOf(batches);
    if Hit(derive, indexes, nonce) {
      var i :| 0 <= i < |indexes| && Matches(derive, indexes[i], nonce);
      var j := FirstBatch(batches, Pools(batches)[i]);
      MatchIffUsed(derive, batches, batches[j].pool, nonce);
    }
    if j :| 0 <= j < |batches| && Used(derive, batches, batches[j].pool, nonce) {
      PoolsDistinct(batches);
      MatchIffUsed(derive, batches, batches[j].pool, nonce);
      var i :| 0 <= i < |Pools(batches)| && Pools(batches)[i] == batches[j].pool;
      assert Matches(derive, indexes[i], nonce);
    }
  }

  /** A smaller nonce, or the same one in a pool that comes earlier. */
  ghost predicate Earlier<P>(pools: seq<P>, a: RecoveredNote<P>, b: RecoveredNote<P>) {
    || a.nonce < b.nonce
    || (a.nonce == b.nonce && exists i, j :: 0 <= i < j < |pools| && pools[i] == a.pool && pools[j] == b.pool)
  }

  ghost predicate InOrder<P>(pools: seq<P>, notes: seq<RecoveredNote<P>>) {
    forall a, b :: 0 <= a < b < |notes| ==> Earlier(pools, notes[a], notes[b])
  }

  lemma {:induction false} NotesAtInOrder<P>(derive: Derive<P>, indexes: seq<PoolIndex<P>>, pools: seq<P>, nonce: nat,
          n: nat)
    requires n <= |indexes| == |pools| && forall i :: 0 <= i < |pools| ==> indexes[i].pool == pools[i]
    ensures InOrder(pools, NotesAt(derive, indexes, nonce, n))
    ensures AllFrom(pools, nonce, n, NotesAt(derive, indexes, nonce, n))
  {
    if n > 0 {
      NotesAtInOrder(derive, indexes, pools, nonce, n - 1);
      var before, index := NotesAt(derive, indexes, nonce, n - 1), indexes[n - 1];
      var last := if Matches(derive, index, nonce) then [NoteIn(derive, index, nonce)] else [];
      FromNextPool(pools, nonce, n, before, last);
      JoinInOrder(pools, before, last);
    }
  }

  /** The notes are of that nonce, in pools among the first `n`. */
  ghost predicate AllFrom<P>(pools: seq<P>, nonce: nat, n: nat, notes: seq<RecoveredNote<P>>) {
    forall note :: note in notes ==> note.nonce == nonce && exists i :: 0 <= i < n <= |pools| && pools[i] == note.pool
  }

  lemma FromNextPool<P>(pools: seq<P>, nonce: nat, n: nat, before: seq<RecoveredNote<P>>, last: seq<RecoveredNote<P>>)
    requires 0 < n <= |pools| && AllFrom(pools, nonce, n - 1, before)
    requires forall note :: note in last ==> note.nonce == nonce && note.pool == pools[n - 1]
    ensures AllFrom(pools, nonce, n, before + last)
    ensures forall a, b :: a in before && b in last ==> Earlier(pools, a, b)
  {
  }

  lemma LaterNonce<P(!new)>(derive: Derive<P>, indexes: seq<PoolIndex<P>>, pools: seq<P>, nonce: nat,
          a: RecoveredNote<P>, b: RecoveredNote<P>)
    requires a in NotesBelow(derive, indexes, nonce) && b.nonce == nonce
    ensures Earlier(pools, a, b)
  {
    NotesAreMatches(derive, indexes, nonce, a);
  }

  lemma {:induction false} NotesBelowInOrder<P(!new)>(derive: Derive<P>, indexes: seq<PoolIndex<P>>, pools: seq<P>,
          stop: nat)
    requires |indexes| == |pools| && forall i :: 0 <= i < |pools| ==> indexes[i].pool == pools[i]
    ensures InOrder(pools, NotesBelow(derive, indexes, stop))
  {
    if stop > 0 {
      var before, last := NotesBelow(derive, indexes, stop - 1), NotesAt(derive, indexes, stop - 1, |indexes|);
      NotesBelowInOrder(derive, indexes, pools, stop - 1);
      NotesAtInOrder(derive, indexes, pools, stop - 1, |indexes|);
      forall a, b | a in before && b in last
        ensures Earlier(pools, a, b)
      {
        LaterNonce(derive, indexes, pools, stop - 1, a, b);
      }
      JoinInOrder(pools, before, last);
      assert NotesOf(derive, indexes)(stop - 1) == last;
    }
  }

  /** Notes come in order of nonce and then of the first appearance of their pools, none of them twice. */
  lemma NotesInOrder<P(!new)>(derive: Derive<P>, batches: seq<Snapshot<P>>, stop: nat)
    ensures Distinct(Pools(batches)) && InOrder(Pools(batches), NotesBelow(derive, IndexOf(batches), stop))
  {
    PoolsDistinct(batches);
    NotesBelowInOrder(derive, IndexOf(batches), Pools(batches), stop);
  }

  lemma JoinInOrder<P>(pools: seq<P>, before: seq<RecoveredNote<P>>, last: seq<RecoveredNote<P>>)
    requires InOrder(pools, before) && InOrder(pools, last)
    requires forall a, b :: a in before && b in last ==> Earlier(pools, a, b)
    ensures InOrder(pools, before + last)
  {
  }

  // ---------- why a scan ends ----------

  /** No commitment deposited in a pool belongs to two nonces. */
  ghost predicate DistinctCommitments<P(!new)>(derive: Derive<P>, indexes: seq<PoolIndex<P>>) {
    forall i, m: nat, n: nat :: 0 <= i < |indexes| && m < n ==>
      var a, b := derive(m, indexes[i].pool), derive(n, indexes[i].pool);
      a.Some? && b.Some? && a.value.commitment in indexes[i].deposits ==> a.value.commitment != b.value.commitment
  }

  /** The deposits not yet matched by a nonce below `n`. */
  ghost function Unmatched<P(!new)>(derive: Derive<P>, indexes: seq<PoolIndex<P>>, n: nat): set<(int, Hash)> {
    set i, c | 0 <= i < |indexes| && c in indexes[i].deposits
               && !(exists m: nat ::
                 m < n && derive(m, indexes[i].pool).Some? && derive(m, indexes[i].pool).value.commitment == c)
      :: (i, c)
  }

  lemma UnmatchedShrinks<P(!new)>(derive: Derive<P>, indexes: seq<PoolIndex<P>>, n: nat)
    requires DistinctCommitments(derive, indexes)
    ensures Unmatched(derive, indexes, n + 1) <= Unmatched(derive, indexes, n)
    ensures HitOf(derive, indexes)(n) ==> Unmatched(derive, indexes, n + 1) < Unmatched(derive, indexes, n)
  {
    if Hit(derive, indexes, n) {
      var i :| 0 <= i < |indexes| && Matches(derive, indexes[i], n);
      var c := derive(n, indexes[i].pool).value.commitment;
      assert (i, c) in Unmatched(derive, indexes, n);
      assert (i, c) !in Unmatched(derive, indexes, n + 1);
    }
  }

  /** There are never more hits than deposits. */
  lemma {:induction false} HitsBounded<P(!new)>(derive: Derive<P>, indexes: seq<PoolIndex<P>>, n: nat)
    requires DistinctCommitments(derive, indexes)
    ensures Hits(HitOf(derive, indexes), n) + |Unmatched(derive, indexes, n)| <= |Unmatched(derive, indexes, 0)|
  {
    if n > 0 {
      HitsBounded(derive, indexes, n - 1);
      UnmatchedShrinks(derive, indexes, n - 1);
      SmallerSet(Unmatched(derive, indexes, n), Unmatched(derive, indexes, n - 1));
    }
  }

  lemma SmallerSet<T>(a: set<T>, b: set<T>)
    requires a <= b
    ensures |a| <= |b| && (a < b ==> |a| < |b|)
  {
    var rest := b - a;
    assert b == a + rest;
    assert a < b ==> rest != {};
  }

  lemma HitsAtMost<P(!new)>(derive: Derive<P>, indexes: seq<PoolIndex<P>>) returns (bound: nat)
    requires DistinctCommitments(derive, indexes)
    ensures bound == |Unmatched(derive, indexes, 0)| && forall n: nat :: Hits(HitOf(derive, indexes), n) <= bound
  {
    bound := |Unmatched(derive, indexes, 0)|;
    forall n: nat
      ensures Hits(HitOf(derive, indexes), n) <= bound
    {
      HitsBounded(derive, indexes, n);
    }
  }

  /**
   When no deposited commitment belongs to two nonces, every scan has a stopping point, and it is at most
   `(deposits + 1) * gap`.
   */
  lemma ScanStops<P(!new)>(derive: Derive<P>, indexes: seq<PoolIndex<P>>, gap: nat) returns (stop: nat)
    requires DistinctCommitments(derive, indexes)
    ensures StopsAt(HitOf(derive, indexes), gap, stop)
    ensures stop <= (|Unmatched(derive, indexes, 0)| + 1) * gap
  {
    var bound := HitsAtMost(derive, indexes);
    stop := StopExists(HitOf(derive, indexes), gap, bound);
  }

  // ---------- the scan ----------

  /** The hashes of a nonce in every pool, or none if the keychain cannot derive one of them. */
  function AllHashes<P>(derive: Derive<P>, nonce: nat, indexes: seq<PoolIndex<P>>): (r: Option<seq<NoteHashes>>)
    ensures r.Some? ==> |r.value| == |indexes|
    ensures r.Some? ==> forall i :: 0 <= i < |indexes| ==> derive(nonce, indexes[i].pool) == Some(r.value[i])
    ensures r.None? ==> exists i :: 0 <= i < |indexes| && derive(nonce, indexes[i].pool).None?
  {
    if indexes == [] then Some([])
    else
      var first := derive(nonce, indexes[0].pool);
      match AllHashes(derive, nonce, indexes[1..])
      case None => assert forall i :: 0 <= i < |indexes| - 1 ==> indexes[1..][i] == indexes[i + 1]; None
      case Some(rest) => if first.Some? then Some([first.value] + rest) else
        assert derive(nonce, indexes[0].pool).None?; None
  }

  ghost function DerivableOf<P(!new)>(derive: Derive<P>, indexes: seq<PoolIndex<P>>): nat -> bool {
    (nonce: nat) => Derivable(derive, indexes, nonce)
  }

  lemma AllDerivable<P(!new)>(derive: Derive<P>, indexes: seq<PoolIndex<P>>, nonce: nat)
    ensures AllHashes(derive, nonce, indexes).Some? <==> DerivableOf(derive, indexes)(nonce)
  {
  }

  /** The inner loop of the scan: one nonce against every pool. */
  method MatchNonce<P>(derive: Derive<P>, indexes: seq<PoolIndex<P>>, hashes: seq<NoteHashes>, nonce: nat)
    returns (found: seq<RecoveredNote<P>>)
    requires |hashes| == |indexes|
    requires forall i :: 0 <= i < |indexes| ==> derive(nonce, indexes[i].pool) == Some(hashes[i])
    ensures found == NotesOf(derive, indexes)(nonce)
    ensures HitOf(derive, indexes)(nonce) <==> found != []
  {
    found := [];
    for i := 0 to |indexes|
      invariant found == NotesAt(derive, indexes, nonce, i)
    {
      var index, h := indexes[i], hashes[i];
      assert derive(nonce, index.pool) == Some(h);
      if h.commitment in index.deposits {
        var withdrawal :=
          if h.nullifierHash in index.withdrawals then Some(index.withdrawals[h.nullifierHash]) else None;
        found := found + [RecoveredNote(index.pool, nonce, index.deposits[h.commitment], withdrawal)];
      }
    }
    HitsYield(derive, indexes, nonce);
  }

  /**
   Every note there is to recover lies below the stopping point exactly when the used nonces are never
   more than a gap apart.
   */
  lemma AllNotesIffChained<P(!new)>(derive: Derive<P>, indexes: seq<PoolIndex<P>>, gap: nat, stop: nat)
    requires StopsAt(HitOf(derive, indexes), gap, stop)
    ensures (forall note :: IsMatch(derive, indexes, |indexes|, note) ==> note in NotesBelow(derive, indexes, stop))
       <==> Chained(HitOf(derive, indexes), gap)
  {
    var hit := HitOf(derive, indexes);
    AllFoundIffChained(hit, gap, stop);
    forall note
      ensures note in NotesBelow(derive, indexes, stop) <==>
          note.nonce < stop && IsMatch(derive, indexes, |indexes|, note)
    {
      NotesAreMatches(derive, indexes, stop, note);
    }
    forall note | IsMatch(derive, indexes, |indexes|, note)
      ensures hit(note.nonce)
    {
    }
    forall n: nat | hit(n)
      ensures exists note :: IsMatch(derive, indexes, |indexes|, note) && note.nonce == n
    {
      var i :| 0 <= i < |indexes| && Matches(derive, indexes[i], n);
      assert IsMatch(derive, indexes, |indexes|, NoteIn(derive, indexes[i], n));
    }
  }

  /** One round of the scan: derives the hashes of a nonce, and matches them. */
  method TryNonce<P(!new)>(derive: Derive<P>, indexes: seq<PoolIndex<P>>, nonce: nat)
    returns (found: Option<seq<RecoveredNote<P>>>)
    ensures found.Some? <==> DerivableOf(derive, indexes)(nonce)
    ensures found.Some? ==> found.value == NotesOf(derive, indexes)(nonce)
    ensures found.Some? ==> (HitOf(derive, indexes)(nonce) <==> found.value != [])
  {
    var hashes := AllHashes(derive, nonce, indexes);
    AllDerivable(derive, indexes, nonce);
    if hashes.None? {
      return None;
    }
    var notes := MatchNonce(derive, indexes, hashes.value, nonce);
    found := Some(notes);
  }

  /** The notes below the stopping point, every nonce before it being derivable. */
  ghost predicate Found<P(!new)>(derive: Derive<P>, indexes: seq<PoolIndex<P>>, gap: nat, stop: nat,
          notes: seq<RecoveredNote<P>>)
  {
    && StopsAt(HitOf(derive, indexes), gap, stop)
    && (forall n: nat :: n < stop ==> Derivable(derive, indexes, n))
    && notes == NotesBelow(derive, indexes, stop)
  }

  /** A nonce before the stopping point, if there is one at all, cannot be derived. */
  ghost predicate Blocked<P(!new)>(derive: Derive<P>, indexes: seq<PoolIndex<P>>, gap: nat, nonce: nat) {
    !Derivable(derive, indexes, nonce) && forall m: nat :: m <= nonce ==> Misses(HitOf(derive, indexes), m) < gap
  }

  /** A scan cannot both succeed and fail. */
  lemma FoundOrBlocked<P(!new)>(derive: Derive<P>, indexes: seq<PoolIndex<P>>, gap: nat, stop: nat,
          notes: seq<RecoveredNote<P>>, nonce: nat)
    requires Found(derive, indexes, gap, stop, notes)
    ensures !Blocked(derive, indexes, gap, nonce)
  {
    if nonce >= stop {
      assert Misses(HitOf(derive, indexes), stop) >= gap;
    }
  }

  lemma ScanSucceeds<P(!new)>(derive: Derive<P>, indexes: seq<PoolIndex<P>>, gap: nat, stop: nat)
    requires Passed(HitOf(derive, indexes), DerivableOf(derive, indexes), gap, stop)
    requires Misses(HitOf(derive, indexes), stop) >= gap
    ensures Found(derive, indexes, gap, stop, Yields(NotesOf(derive, indexes), stop))
  {
    PassedAll(HitOf(derive, indexes), DerivableOf(derive, indexes), gap, stop);
    forall n: nat | n < stop
      ensures Derivable(derive, indexes, n)
    {
      assert DerivableOf(derive, indexes)(n);
    }
  }

  lemma ScanFails<P(!new)>(derive: Derive<P>, indexes: seq<PoolIndex<P>>, gap: nat, nonce: nat)
    requires Passed(HitOf(derive, indexes), DerivableOf(derive, indexes), gap, nonce)
    requires Misses(HitOf(derive, indexes), nonce) < gap
    requires !DerivableOf(derive, indexes)(nonce)
    ensures Blocked(derive, indexes, gap, nonce)
  {
    PassedAll(HitOf(derive, indexes), DerivableOf(derive, indexes), gap, nonce);
  }

  /** The scan itself, for any bound on the number of hits. */
  method Scan<P(!new)>(derive: Derive<P>, indexes: seq<PoolIndex<P>>, gap: nat, ghost bound: nat)
    returns (r: Result<seq<RecoveredNote<P>>, KeychainError>)
    requires forall n: nat :: Hits(HitOf(derive, indexes), n) <= bound
    ensures match r
            case Ok(notes) => exists stop: nat :: Found(derive, indexes, gap, stop, notes)
            case Err(_) => exists nonce: nat :: Blocked(derive, indexes, gap, nonce)
  {
    var recovered: seq<RecoveredNote<P>> := [];
    var misses, nonce := 0, 0;
    while true
      invariant misses == Misses(HitOf(derive, indexes), nonce) <= gap
      invariant Passed(HitOf(derive, indexes), DerivableOf(derive, indexes), gap, nonce)
      invariant recovered == Yields(NotesOf(derive, indexes), nonce)
      decreases bound - Hits(HitOf(derive, indexes), nonce), gap - misses
    {
      if misses >= gap {
        ScanSucceeds(derive, indexes, gap, nonce);
        return Ok(recovered);
      }
      misses := misses + 1;
      var found := TryNonce(derive, indexes, nonce);
      if found.None? {
        ScanFails(derive, indexes, gap, nonce);
        return Err(SignerError);
      }
      if found.value != [] {
        misses := 0;
      }
      recovered := recovered + found.value;
      nonce := nonce + 1;
    }
  }

  /**
   Recovers the notes below the first run of `gap` nonces without a deposit, in order of nonce and
   then of pool, or fails at the first nonce before that point that cannot be derived.
   */
  method Recover<P(==, !new)>(derive: Derive<P>, batches: seq<Snapshot<P>>, gapLimit: Option<nat>)
    returns (r: Result<seq<RecoveredNote<P>>, KeychainError>)
    requires DistinctCommitments(derive, IndexOf(batches))
    ensures match r
            case Ok(notes) => exists stop: nat :: Found(derive, IndexOf(batches), GapOf(gapLimit), stop, notes)
            case Err(_) => exists nonce: nat :: Blocked(derive, IndexOf(batches), GapOf(gapLimit), nonce)
  {
    var gap := GapOf(gapLimit);
    if gap == 0 {
      assert Found(derive, IndexOf(batches), gap, 0, []);
      return Ok([]);
    }
    var indexes := IndexBatches(batches);
    ghost var bound := HitsAtMost(derive, indexes);
    r := Scan(derive, indexes, gap, bound);
  }

  function GapOf(gapLimit: Option<nat>): nat {
    if gapLimit.Some? then gapLimit.value else DEFAULT_GAP_LIMIT
  }

  // ---------- the next nonce ----------

  function NextOf<P>(notes: seq<RecoveredNote<P>>): nat { Next(NonceOf<P>(), notes) }

  method NextNonce<P(==, !new)>(derive: Derive<P>, batches: seq<Snapshot<P>>, gapLimit: Option<nat>)
    returns (r: Result<nat, KeychainError>)
    requires DistinctCommitments(derive, IndexOf(batches))
    ensures match r
            case Ok(next) => exists stop: nat, notes ::
              Found(derive, IndexOf(batches), GapOf(gapLimit), stop, notes) && next == NextOf(notes)
            case Err(_) => exists nonce: nat :: Blocked(derive, IndexOf(batches), GapOf(gapLimit), nonce)
  {
    var recovered := Recover(derive, batches, gapLimit);
    match recovered
    case Err(e) => r := Err(e);
    case Ok(notes) =>
      r := Ok(NextOf(notes));
  }

  /** The next nonce is one past the last hit below the stopping point, or 0 without one. */
  lemma NextNonceIsPastLast<P(!new)>(derive: Derive<P>, indexes: seq<PoolIndex<P>>, stop: nat)
    ensures PastLast(HitOf(derive, indexes), stop, NextOf(NotesBelow(derive, indexes, stop)))
  {
    var at, hit := NotesOf(derive, indexes), HitOf(derive, indexes);
    NotesAreNumbered(derive, indexes);
    forall n: nat
      ensures hit(n) <==> at(n) != []
    {
      HitsYield(derive, indexes, n);
    }
    NextIsPastLast(at, hit, NonceOf<P>(), stop);
  }

  /** The next nonce is past every used one exactly when the used nonces are never more than a gap apart. */
  lemma NextIsFreshIffChained<P(!new)>(derive: Derive<P>, indexes: seq<PoolIndex<P>>, gap: nat, stop: nat)
    requires StopsAt(HitOf(derive, indexes), gap, stop)
    ensures (forall n: nat :: HitOf(derive, indexes)(n) ==> n < NextOf(NotesBelow(derive, indexes, stop)))
       <==> Chained(HitOf(derive, indexes), gap)
  {
    NextNonceIsPastLast(derive, indexes, stop);
    FreshIffChained(HitOf(derive, indexes), gap, stop, NextOf(NotesBelow(derive, indexes, stop)));
  }

  // ---------- a used nonce that is offered again or passed over ----------

  /** A keychain whose commitments are its nonces. */
  function Counting<P>(): Derive<P> {
    (nonce: nat, pool: P) => Some(NoteHashes(nonce, nonce))
  }

  /** One pool with deposits of the nonces 0 and `gap + 1`. */
  function TwoDeposits<P>(pool: P, gap: nat): seq<PoolIndex<P>> {
    [PoolIndex(pool, map[0 := Deposit(0, 0, 0), gap + 1 := Deposit(gap + 1, 1, 0)], map[])]
  }

  lemma TwoHits<P(!new)>(pool: P, gap: nat, n: nat)
    ensures Hit(Counting<P>(), TwoDeposits(pool, gap), n) <==> n == 0 || n == gap + 1
  {
    assert Matches(Counting<P>(), TwoDeposits(pool, gap)[0], n) <==> n == 0 || n == gap + 1;
  }

  lemma CountingIsDistinct<P(!new)>(pool: P, gap: nat)
    ensures DistinctCommitments(Counting<P>(), TwoDeposits(pool, gap))
  {
  }

  /** The scan stops before nonce `gap + 1`, which has been used: the next nonce is 1, and not past it. */
  lemma UsedNoncePastGap<P(!new)>(pool: P, gap: nat)
    requires gap >= 1
    ensures var derive, indexes := Counting<P>(), TwoDeposits(pool, gap);
            && DistinctCommitments(derive, indexes)
            && StopsAt(HitOf(derive, indexes), gap, gap + 1)
            && NextOf(NotesBelow(derive, indexes, gap + 1)) == 1
            && HitOf(derive, indexes)(gap + 1)
  {
    var hit := HitOf(Counting<P>(), TwoDeposits(pool, gap));
    CountingIsDistinct(pool, gap);
    forall n: nat
      ensures hit(n) <==> n == 0 || n == gap + 1
    {
      TwoHits(pool, gap, n);
    }
    StopsAfterFirst(hit, gap);
    NextNonceIsPastLast(Counting<P>(), TwoDeposits(pool, gap), gap + 1);
    NextAfterFirst(hit, gap, NextOf(NotesBelow(Counting<P>(), TwoDeposits(pool, gap), gap + 1)));
  }
}
