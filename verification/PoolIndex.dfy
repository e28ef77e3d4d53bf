/** The events of all batches, indexed by pool. */
module PoolIndexes {
  import opened Events

  /** One pool's deposits by commitment and withdrawals by nullifier hash. */
  datatype PoolIndex<P> = PoolIndex(pool: P, deposits: map<Hash, SyncEvent>, withdrawals: map<Hash, SyncEvent>)

  /** The deposits by commitment; a repeated commitment keeps the last deposit. */
  function DepositMap(events: seq<SyncEvent>): map<Hash, SyncEvent> {
    if events == [] then map[]
    else
      var last := events[|events| - 1];
      var before := DepositMap(events[..|events| - 1]);
      if last.Deposit? then before[last.commitment := last] else before
  }

  function WithdrawalMap(events: seq<SyncEvent>): map<Hash, SyncEvent> {
    if events == [] then map[]
    else
      var last := events[|events| - 1];
      var before := WithdrawalMap(events[..|events| - 1]);
      if last.Withdrawal? then before[last.nullifierHash := last] else before
  }

  /** The pools of the batches, each once, in order of first appearance. */
  function Pools<P(==)>(batches: seq<Snapshot<P>>): seq<P> {
    if batches == [] then []
    else
      var before, pool := Pools(batches[..|batches| - 1]), batches[|batches| - 1].pool;
      if pool in before then before else before + [pool]
  }

  /** All events of one pool, batch after batch. */
  function EventsFor<P(==)>(batches: seq<Snapshot<P>>, pool: P): seq<SyncEvent> {
    if batches == [] then []
    else
      var last := batches[|batches| - 1];
      EventsFor(batches[..|batches| - 1], pool) + if last.pool == pool then last.events else []
  }

  function IndexFor<P(==)>(batches: seq<Snapshot<P>>, pool: P): PoolIndex<P> {
    PoolIndex(pool, DepositMap(EventsFor(batches, pool)), WithdrawalMap(EventsFor(batches, pool)))
  }

  /** The index of all batches: one entry a pool, over all of its events. */
  function IndexOf<P(==)>(batches: seq<Snapshot<P>>): (indexes: seq<PoolIndex<P>>)
    ensures |indexes| == |Pools(batches)|
  {
    seq(|Pools(batches)|, i requires 0 <= i < |Pools(batches)| => IndexFor(batches, Pools(batches)[i]))
  }

  predicate Distinct<P(==)>(s: seq<P>) {
    forall i, j :: 0 <= i < j < |s| ==> s[i] != s[j]
  }

  lemma {:induction false} PoolsDistinct<P>(batches: seq<Snapshot<P>>)
    ensures Distinct(Pools(batches))
    ensures forall i :: 0 <= i < |batches| ==> batches[i].pool in Pools(batches)
  {
    if batches != [] {
      PoolsDistinct(batches[..|batches| - 1]);
      assert forall i :: 0 <= i < |batches| - 1 ==> batches[..|batches| - 1][i] == batches[i];
    }
  }

  lemma {:induction false} EventsForAbsent<P>(batches: seq<Snapshot<P>>, pool: P)
    requires pool !in Pools(batches)
    ensures EventsFor(batches, pool) == []
  {
    if batches != [] {
      EventsForAbsent(batches[..|batches| - 1], pool);
    }
  }

  lemma {:induction false} MapsOfConcat(a: seq<SyncEvent>, b: seq<SyncEvent>)
    ensures DepositMap(a + b) == DepositMap(a) + DepositMap(b)
    ensures WithdrawalMap(a + b) == WithdrawalMap(a) + WithdrawalMap(b)
  {
    if b == [] {
      assert a + b == a;
    } else {
      assert (a + b)[..|a + b| - 1] == a + b[..|b| - 1];
      MapsOfConcat(a, b[..|b| - 1]);
    }
  }

  method IndexBatches<P(==)>(batches: seq<Snapshot<P>>) returns (indexes: seq<PoolIndex<P>>)
    ensures indexes == IndexOf(batches)
  {
    indexes := [];
    for n := 0 to |batches|
      invariant indexes == IndexOf(batches[..n])
    {
      var batch := batches[n];
      var deposits, withdrawals := DepositMap(batch.events), WithdrawalMap(batch.events);
      var i := 0;
      while i < |indexes| && indexes[i].pool != batch.pool
        invariant 0 <= i <= |indexes|
        invariant forall j :: 0 <= j < i ==> indexes[j].pool != batch.pool
      {
        i := i + 1;
      }
      assert forall j :: 0 <= j < |indexes| ==> indexes[j].pool == Pools(batches[..n])[j];
      assert batches[..n + 1] == batches[..n] + [batch];
      if i < |indexes| {
        KnownPool(batches[..n], batch, i);
        var index := indexes[i];
        indexes := indexes[i := PoolIndex(index.pool, index.deposits + deposits, index.withdrawals + withdrawals)];
      } else {
        NewPool(batches[..n], batch);
        indexes := indexes + [PoolIndex(batch.pool, deposits, withdrawals)];
      }
    }
    assert batches[..|batches|] == batches;
  }

  /** One more batch of a known pool extends its entry. */
  lemma KnownPool<P>(batches: seq<Snapshot<P>>, batch: Snapshot<P>, i: nat)
    requires i < |Pools(batches)| && Pools(batches)[i] == batch.pool
    ensures var was := IndexOf(batches);
            IndexOf(batches + [batch]) == was[i := PoolIndex(batch.pool, was[i].deposits + DepositMap(batch.events),
                                                             was[i].withdrawals + WithdrawalMap(batch.events))]
  {
    var all, pools := batches + [batch], Pools(batches);
    assert all[..|all| - 1] == batches;
    PoolsDistinct(batches);
    OwnEntry(batches, batch);
    assert Pools(all) == pools;
    forall j | 0 <= j < |pools| && j != i
      ensures IndexOf(all)[j] == IndexOf(batches)[j]
    {
      OtherEntry(batches, batch, pools[j]);
    }
  }

  /** One batch of a new pool adds an entry at the end. */
  lemma NewPool<P>(batches: seq<Snapshot<P>>, batch: Snapshot<P>)
    requires batch.pool !in Pools(batches)
    ensures IndexOf(batches + [batch]) ==
      IndexOf(batches) + [PoolIndex(batch.pool, DepositMap(batch.events), WithdrawalMap(batch.events))]
  {
    var all, pools := batches + [batch], Pools(batches);
    assert all[..|all| - 1] == batches;
    assert Pools(all) == pools + [batch.pool];
    OwnEntry(batches, batch);
    EventsForAbsent(batches, batch.pool);
    assert DepositMap([]) + DepositMap(batch.events) == DepositMap(batch.events);
    assert WithdrawalMap([]) + WithdrawalMap(batch.events) == WithdrawalMap(batch.events);
    forall j | 0 <= j < |pools|
      ensures IndexOf(all)[j] == IndexOf(batches)[j]
    {
      OtherEntry(batches, batch, pools[j]);
    }
  }

  lemma OwnEntry<P>(batches: seq<Snapshot<P>>, batch: Snapshot<P>)
    ensures IndexFor(batches + [batch], batch.pool) ==
      PoolIndex(batch.pool, IndexFor(batches, batch.pool).deposits + DepositMap(batch.events),
                IndexFor(batches, batch.pool).withdrawals + WithdrawalMap(batch.events))
  {
    var all := batches + [batch];
    assert all[..|all| - 1] == batches;
    MapsOfConcat(EventsFor(batches, batch.pool), batch.events);
  }

  lemma OtherEntry<P>(batches: seq<Snapshot<P>>, batch: Snapshot<P>, pool: P)
    requires pool != batch.pool
    ensures IndexFor(batches + [batch], pool) == IndexFor(batches, pool)
  {
    var all := batches + [batch];
    assert all[..|all| - 1] == batches;
    assert EventsFor(all, pool) == EventsFor(batches, pool) + [];
    assert EventsFor(batches, pool) + [] == EventsFor(batches, pool);
  }

  // ---------- the index, from the events of the batches ----------

  datatype Kind = Deposits | Withdrawals

  /** The event is a deposit of that commitment, or a withdrawal of that nullifier hash. */
  predicate Carries(event: SyncEvent, kind: Kind, h: Hash) {
    match kind
    case Deposits => event.Deposit? && event.commitment == h
    case Withdrawals => event.Withdrawal? && event.nullifierHash == h
  }

  function Entries<P>(index: PoolIndex<P>, kind: Kind): map<Hash, SyncEvent> {
    match kind case Deposits => index.deposits case Withdrawals => index.withdrawals
  }

  function MapOf(events: seq<SyncEvent>, kind: Kind): map<Hash, SyncEvent> {
    match kind case Deposits => DepositMap(events) case Withdrawals => WithdrawalMap(events)
  }

  predicate NoneIn(events: seq<SyncEvent>, kind: Kind, h: Hash) {
    forall k :: 0 <= k < |events| ==> !Carries(events[k], kind, h)
  }

  /** Event `k` is the last one that carries `h`. */
  predicate LastIn(events: seq<SyncEvent>, kind: Kind, h: Hash, k: nat) {
    k < |events| && Carries(events[k], kind, h) && forall m :: k < m < |events| ==> !Carries(events[m], kind, h)
  }

  lemma {:induction false} MapExact(events: seq<SyncEvent>, kind: Kind, h: Hash) returns (k: nat)
    ensures h !in MapOf(events, kind) ==> NoneIn(events, kind, h)
    ensures h in MapOf(events, kind) ==> LastIn(events, kind, h, k) && MapOf(events, kind)[h] == events[k]
  {
    k := 0;
    if events != [] {
      var before, last := events[..|events| - 1], events[|events| - 1];
      k := MapExact(before, kind, h);
      assert forall m :: 0 <= m < |before| ==> events[m] == before[m];
      if Carries(last, kind, h) {
        k := |before|;
      }
    }
  }

  /** Event `k` of batch `j` is the last one of the pool, over all batches, that carries `h`. */
  predicate LastOf<P(==)>(batches: seq<Snapshot<P>>, pool: P, kind: Kind, h: Hash, j: nat, k: nat) {
    && j < |batches| && batches[j].pool == pool && LastIn(batches[j].events, kind, h, k)
    && forall m :: j < m < |batches| && batches[m].pool == pool ==> NoneIn(batches[m].events, kind, h)
  }

  /** No event of the pool, in any batch, carries `h`. */
  predicate NoneOf<P(==)>(batches: seq<Snapshot<P>>, pool: P, kind: Kind, h: Hash) {
    forall j :: 0 <= j < |batches| && batches[j].pool == pool ==> NoneIn(batches[j].events, kind, h)
  }

  /**
   A pool's entry maps a hash to the last event that carries it among the pool's events in all
   batches, and does not map it when there is none.
   */
  lemma {:induction false} EntryExact<P>(batches: seq<Snapshot<P>>, pool: P, kind: Kind, h: Hash)
    returns (j: nat, k: nat)
    ensures h !in Entries(IndexFor(batches, pool), kind) ==> NoneOf(batches, pool, kind, h)
    ensures h in Entries(IndexFor(batches, pool), kind) ==>
      LastOf(batches, pool, kind, h, j, k) && Entries(IndexFor(batches, pool), kind)[h] == batches[j].events[k]
  {
    j, k := 0, 0;
    if batches != [] {
      var before, last := batches[..|batches| - 1], batches[|batches| - 1];
      assert batches == before + [last];
      j, k := EntryExact(before, pool, kind, h);
      assert forall m :: 0 <= m < |before| ==> batches[m] == before[m];
      if last.pool != pool {
        OtherEntry(before, last, pool);
      } else {
        OwnEntry(before, last);
        var own := MapExact(last.events, kind, h);
        if h in MapOf(last.events, kind) {
          j, k := |before|, own;
        }
      }
    }
  }

  /** A hash is an entry exactly when some event of the pool carries it. */
  lemma EntryIffCarried<P>(batches: seq<Snapshot<P>>, pool: P, kind: Kind, h: Hash)
    ensures h in Entries(IndexFor(batches, pool), kind) <==> !NoneOf(batches, pool, kind, h)
  {
    var _, _ := EntryExact(batches, pool, kind, h);
  }

  /** Batch `j` is the first one of its pool. */
  predicate FirstOf<P(==)>(batches: seq<Snapshot<P>>, pool: P, j: nat) {
    j < |batches| && batches[j].pool == pool && forall m :: 0 <= m < j ==> batches[m].pool != pool
  }

  /** Every pool with an entry has a first batch. */
  lemma {:induction false} FirstBatch<P>(batches: seq<Snapshot<P>>, pool: P) returns (j: nat)
    requires pool in Pools(batches)
    ensures FirstOf(batches, pool, j)
  {
    var before, last := batches[..|batches| - 1], batches[|batches| - 1];
    assert forall n :: 0 <= n < |before| ==> batches[n] == before[n];
    if pool in Pools(before) {
      j := FirstBatch(before, pool);
    } else {
      j := |before|;
      PoolsDistinct(before);
    }
  }

  /** The entries are in the order in which their pools first appear among the batches. */
  lemma {:induction false} PoolsInOrder<P>(batches: seq<Snapshot<P>>, m: nat, i: nat, a: nat, b: nat)
    requires m < i < |Pools(batches)|
    requires FirstOf(batches, Pools(batches)[m], a) && FirstOf(batches, Pools(batches)[i], b)
    ensures a < b
  {
    var before, last := batches[..|batches| - 1], batches[|batches| - 1];
    assert forall n :: 0 <= n < |before| ==> batches[n] == before[n];
    var first := FirstBatch(before, Pools(before)[m]);
    if i < |Pools(before)| {
      var second := FirstBatch(before, Pools(before)[i]);
      PoolsInOrder(before, m, i, first, second);
    } else {
      PoolsDistinct(before);
    }
  }

  // ---------- splitting a pool's events into several batches ----------

  lemma {:induction false} PoolsAfter<P>(a: seq<Snapshot<P>>, b: seq<Snapshot<P>>, c: seq<Snapshot<P>>, pool: P)
    requires Pools(a) == Pools(b) && EventsFor(a, pool) == EventsFor(b, pool)
    ensures Pools(a + c) == Pools(b + c) && EventsFor(a + c, pool) == EventsFor(b + c, pool)
  {
    if c == [] {
      assert a + c == a && b + c == b;
    } else {
      var c' := c[..|c| - 1];
      PoolsAfter(a, b, c', pool);
      assert (a + c)[..|a + c| - 1] == a + c' && (b + c)[..|b + c| - 1] == b + c';
    }
  }

  /** Splitting the events of one batch over two consecutive batches of its pool changes nothing. */
  lemma SplitBatch<P(!new)>(before: seq<Snapshot<P>>, whole: Snapshot<P>, first: Snapshot<P>, second: Snapshot<P>,
          after: seq<Snapshot<P>>)
    requires first.pool == second.pool == whole.pool && whole.events == first.events + second.events
    ensures IndexOf(before + [first, second] + after) == IndexOf(before + [whole] + after)
  {
    var a, b, one := before + [first, second], before + [whole], before + [first];
    assert a[..|a| - 1] == one && one[..|one| - 1] == before && b[..|b| - 1] == before;
    assert Pools(a) == Pools(b);
    forall pool: P
      ensures Pools(a + after) == Pools(b + after) && IndexFor(a + after, pool) == IndexFor(b + after, pool)
    {
      var events := EventsFor(before, pool);
      assert (events + first.events) + second.events == events + (first.events + second.events);
      assert (events + []) + [] == events + [];
      PoolsAfter(a, b, after, pool);
    }
    var x, y := a + after, b + after;
    assert IndexFor(x, whole.pool) == IndexFor(y, whole.pool);
    assert Pools(x) == Pools(y);
    assert forall i :: 0 <= i < |Pools(x)| ==> IndexOf(x)[i] == IndexOf(y)[i];
  }
}
