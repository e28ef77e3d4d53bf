/** Feeding validated event batches into the Merkle tree. */
module TreeSync {
  import opened MachineInts
  import opened Wrappers
  import opened Arithmetic
  import opened MerkleSpec
  import opened MerkleTrees
  import opened Events

  /** The leaves after the deposits of a batch are spliced in, or why they are refused. */
  function SplicedEvents(capacity: nat, leaves: seq<Hash>, events: seq<SyncEvent>): Result<seq<Hash>, MerkleTreeError> {
    SplicedAt(capacity, leaves, LeafIndices(events), Commitments(events))
  }

  function SplicedAt(capacity: nat, leaves: seq<Hash>, indices: seq<u32>, commitments: seq<Hash>)
    : Result<seq<Hash>, MerkleTreeError>
  {
    if indices == [] then Ok(leaves) else Spliced(capacity, leaves, indices[0], commitments)
  }

  /** Event `k` is a deposit at `leaf`. */
  predicate Puts(events: seq<SyncEvent>, k: nat, leaf: nat) {
    k < |events| && events[k].Deposit? && events[k].leafIndex == leaf
  }

  /** No deposit comes before event `k`, which is one. */
  predicate FirstDeposit(events: seq<SyncEvent>, k: nat) {
    k < |events| && events[k].Deposit? && forall m :: 0 <= m < k ==> !events[m].Deposit?
  }

  /**
   The leaves after an accepted batch, from its events: every deposit's commitment is at its leaf
   index, and every other leaf is as it was.
   */
  lemma SplicedEventsExact(capacity: nat, leaves: seq<Hash>, events: seq<SyncEvent>, after: seq<Hash>)
    requires CountUp(events) && SplicedEvents(capacity, leaves, events) == Ok(after)
    ensures forall k :: 0 <= k < |events| && events[k].Deposit? ==>
      events[k].leafIndex < |after| && after[events[k].leafIndex] == events[k].commitment
    ensures |leaves| <= |after|
    ensures forall leaf: nat :: leaf < |after| ==> PutOrKept(leaves, events, after, leaf)
  {
    ContiguousExact(events);
    var indices, commitments := LeafIndices(events), Commitments(events);
    forall k | 0 <= k < |events| && events[k].Deposit?
      ensures events[k].leafIndex < |after| && after[events[k].leafIndex] == events[k].commitment
    {
      DepositInOrder(events, k);
      SplicedExact(capacity, leaves, indices[0], commitments);
    }
    forall leaf: nat | leaf < |after|
      ensures PutOrKept(leaves, events, after, leaf)
    {
      if indices != [] {
        SplicedExact(capacity, leaves, indices[0], commitments);
        if indices[0] <= leaf < indices[0] as nat + |indices| {
          var k := DepositAt(events, leaf - indices[0]);
          assert Puts(events, k, leaf);
        }
      }
    }
  }

  /** A leaf afterwards is a deposit's, or the one that was there before. */
  ghost predicate PutOrKept(before: seq<Hash>, events: seq<SyncEvent>, after: seq<Hash>, leaf: nat) {
    || (exists k: nat :: Puts(events, k, leaf))
    || (leaf < |before| && leaf < |after| && after[leaf] == before[leaf])
  }

  /** A batch is refused exactly when its first deposit leaves a gap or its last one is past the capacity. */
  lemma SplicedEventsRefused(capacity: nat, leaves: seq<Hash>, events: seq<SyncEvent>)
    requires CountUp(events) && |leaves| <= capacity
    ensures match SplicedEvents(capacity, leaves, events)
      case Ok(_) => forall k :: 0 <= k < |events| && events[k].Deposit? ==> events[k].leafIndex < capacity
      case Err(IndexOutOfBounds(i)) =>
        i > |leaves| && exists k: nat :: FirstDeposit(events, k) && events[k].leafIndex == i
      case Err(e) => e == TreeFull && exists k: nat, leaf: nat :: Puts(events, k, leaf) && leaf >= capacity
  {
    ContiguousExact(events);
    var indices, commitments := LeafIndices(events), Commitments(events);
    if indices != [] {
      SplicedExact(capacity, leaves, indices[0], commitments);
      var first := FirstIsDeposit(events);
      var last := DepositAt(events, |indices| - 1);
      assert Puts(events, last, events[last].leafIndex);
      assert indices[|indices| - 1] as nat == indices[0] as nat + (|indices| - 1);
    }
    var outcome := SplicedEvents(capacity, leaves, events);
    if outcome.Ok? {
      SplicedEventsExact(capacity, leaves, events, outcome.value);
    }
  }

  lemma FirstIsDeposit(events: seq<SyncEvent>) returns (k: nat)
    requires LeafIndices(events) != []
    ensures FirstDeposit(events, k) && events[k].leafIndex == LeafIndices(events)[0]
  {
    k := DepositAt(events, 0);
    if m :| 0 <= m < k && events[m].Deposit? {
      DepositsUpTo(events, m, k);
    }
  }

  method SpliceEvents<P>(tree: MerkleTree<Hash>, s: Snapshot<P>) returns (r: Result<(), MerkleTreeError>)
    requires tree.Valid()
    modifies tree`nodes
    ensures tree.Valid()
    ensures match SplicedEvents(tree.Capacity(), old(tree.Leaves()), s.events)
      case Ok(leaves) => r == Ok(()) && tree.Leaves() == leaves
      case Err(e) => r == Err(e) && tree.nodes == old(tree.nodes)
    ensures CountUp(s.events) && r.Ok? ==> forall k :: 0 <= k < |s.events| && s.events[k].Deposit? ==>
      s.events[k].leafIndex < |tree.Leaves()| && tree.Leaves()[s.events[k].leafIndex] == s.events[k].commitment
    ensures CountUp(s.events) && r.Ok? ==> forall leaf: nat :: leaf < |tree.Leaves()| ==>
      PutOrKept(old(tree.Leaves()), s.events, tree.Leaves(), leaf)
    ensures r.Err? ==> tree.nodes == old(tree.nodes)
  {
    ghost var spliced := SplicedEvents(tree.Capacity(), tree.Leaves(), s.events);
    if CountUp(s.events) && spliced.Ok? {
      SplicedEventsExact(tree.Capacity(), tree.Leaves(), s.events, spliced.value);
    }
    var deposits := LeafIndices(s.events);
    if deposits == [] {
      return Ok(());
    }
    var outcome, _ := tree.Splice(deposits[0], Commitments(s.events));
    r := outcome;
  }

  /**
   Two consecutive parts of one valid batch may be spliced one after the other: that succeeds exactly
   when splicing the whole batch does, with the same leaves.
   */
  lemma SpliceEventsInTwo(capacity: nat, leaves: seq<Hash>, a: seq<SyncEvent>, b: seq<SyncEvent>)
    requires |leaves| <= capacity && Contiguous(LeafIndices(a + b))
    ensures
      var whole, first := SplicedEvents(capacity, leaves, a + b), SplicedEvents(capacity, leaves, a);
      && (whole.Ok? <==> first.Ok? && SplicedEvents(capacity, first.value, b).Ok?)
      && (whole.Ok? ==> SplicedEvents(capacity, first.value, b) == whole)
  {
    LeafIndicesConcat(a, b);
    SplicedAtInTwo(capacity, leaves, LeafIndices(a), Commitments(a), LeafIndices(b), Commitments(b));
  }

  lemma SplicedAtInTwo(capacity: nat, leaves: seq<Hash>, left: seq<u32>, a: seq<Hash>, right: seq<u32>, b: seq<Hash>)
    requires |leaves| <= capacity && |left| == |a| && |right| == |b| && Contiguous(left + right)
    ensures
      var whole, first := SplicedAt(capacity, leaves, left + right, a + b), SplicedAt(capacity, leaves, left, a);
      && (whole.Ok? <==> first.Ok? && SplicedAt(capacity, first.value, right, b).Ok?)
      && (whole.Ok? ==> SplicedAt(capacity, first.value, right, b) == whole)
  {
    if left == [] {
      assert left + right == right && a + b == b;
    } else if right == [] {
      assert left + right == left && a + b == a;
    } else {
      var all := left + right;
      assert all[|left|] as nat == all[0] as nat + |left| && all[0] == left[0] && all[|left|] == right[0];
      SpliceInTwo(capacity, leaves, left[0], a, b);
    }
  }

  // ---------- batches of one deposit history ----------

  /** A validated batch of the history: each deposit is the one made at its leaf index. */
  ghost predicate OfHistory<P>(history: seq<Hash>, s: Snapshot<P>) {
    && CountUp(s.events)
    && forall k :: 0 <= k < |s.events| && s.events[k].Deposit? ==>
         s.events[k].leafIndex < |history| && s.events[k].commitment == history[s.events[k].leafIndex]
  }

  /** The deposits of such a batch, in order. */
  lemma OfHistoryInOrder<P>(history: seq<Hash>, s: Snapshot<P>)
    requires OfHistory(history, s)
    ensures var indices, commitments := LeafIndices(s.events), Commitments(s.events);
            && Contiguous(indices)
            && forall i :: 0 <= i < |indices| ==> indices[i] < |history| && commitments[i] == history[indices[i]]
  {
    ContiguousExact(s.events);
    var indices, commitments := LeafIndices(s.events), Commitments(s.events);
    forall i | 0 <= i < |indices|
      ensures indices[i] < |history| && commitments[i] == history[indices[i]]
    {
      var k := DepositAt(s.events, i);
    }
  }

  /** How many leaves are known once a batch is offered to a tree that knows the first `k`. */
  function Known<P>(k: nat, s: Snapshot<P>): nat {
    var indices := LeafIndices(s.events);
    if indices == [] || indices[0] > k then k else Max(k, indices[0] as nat + |indices|)
  }

  /** One batch extends the known prefix of the history, or leaves a gap and changes nothing. */
  lemma SpliceOfHistory<P>(capacity: nat, history: seq<Hash>, k: nat, s: Snapshot<P>)
    requires |history| <= capacity && k <= |history| && OfHistory(history, s)
    ensures Known(k, s) <= |history|
    ensures var indices := LeafIndices(s.events);
            if indices != [] && indices[0] > k
            then SplicedEvents(capacity, history[..k], s.events) == Err(IndexOutOfBounds(indices[0]))
            else SplicedEvents(capacity, history[..k], s.events) == Ok(history[..Known(k, s)])
  {
    var indices, commitments := LeafIndices(s.events), Commitments(s.events);
    OfHistoryInOrder(history, s);
    if indices != [] && indices[0] <= k {
      var last := |indices| - 1;
      assert indices[last] < |history|;
      var after := Overwrite(history[..k], indices[0], commitments);
      assert |after| == Known(k, s) <= |history|;
      forall i | 0 <= i < |after|
        ensures after[i] == history[i]
      {
        if indices[0] <= i < indices[0] as nat + |indices| {
          var d := i - indices[0];
          assert indices[d] == i && commitments[d] == history[indices[d]];
        }
      }
      assert after == history[..Known(k, s)];
    }
  }

  /** The leaves after offering each batch in turn; a refused batch changes nothing. */
  function Folded<P>(capacity: nat, leaves: seq<Hash>, batches: seq<Snapshot<P>>): seq<Hash>
    decreases |batches|
  {
    if batches == [] then leaves
    else
      var outcome := SplicedEvents(capacity, leaves, batches[0].events);
      Folded(capacity, if outcome.Ok? then outcome.value else leaves, batches[1..])
  }

  function KnownAfter<P>(k: nat, batches: seq<Snapshot<P>>): nat
    decreases |batches|
  {
    if batches == [] then k else KnownAfter(Known(k, batches[0]), batches[1..])
  }

  /** Whatever batches of one history are offered, in whatever order, the leaves are a prefix of it. */
  lemma {:induction false} FoldedIsPrefix<P>(capacity: nat, history: seq<Hash>, k: nat, batches: seq<Snapshot<P>>)
    requires |history| <= capacity && k <= |history|
    requires forall i :: 0 <= i < |batches| ==> OfHistory(history, batches[i])
    ensures k <= KnownAfter(k, batches) <= |history|
    ensures Folded(capacity, history[..k], batches) == history[..KnownAfter(k, batches)]
    decreases |batches|
  {
    if batches != [] {
      SpliceOfHistory(capacity, history, k, batches[0]);
      FoldedIsPrefix(capacity, history, Known(k, batches[0]), batches[1..]);
    }
  }

  /** No batch starts past what the batches before it made known. */
  predicate Gapless<P>(k: nat, batches: seq<Snapshot<P>>)
    decreases |batches|
  {
    batches == [] ||
    ((LeafIndices(batches[0].events) == [] || LeafIndices(batches[0].events)[0] <= k)
     && Gapless(Known(k, batches[0]), batches[1..]))
  }

  /** Some batch has the deposit at leaf `i`. */
  ghost predicate Covered<P>(i: nat, batches: seq<Snapshot<P>>) {
    exists j, k: nat :: 0 <= j < |batches| && Puts(batches[j].events, k, i)
  }

  lemma {:induction false} GaplessKnowsCovered<P>(history: seq<Hash>, k: nat, batches: seq<Snapshot<P>>, i: nat)
    requires forall j :: 0 <= j < |batches| ==> OfHistory(history, batches[j])
    requires Gapless(k, batches) && Covered(i, batches)
    ensures i < KnownAfter(k, batches)
    decreases |batches|
  {
    var j, k' :| 0 <= j < |batches| && Puts(batches[j].events, k', i);
    KnownGrows(Known(k, batches[0]), batches[1..]);
    if j > 0 {
      assert batches[1..][j - 1] == batches[j] && Puts(batches[1..][j - 1].events, k', i);
      GaplessKnowsCovered(history, Known(k, batches[0]), batches[1..], i);
    } else {
      KnowsOwn(history, k, batches[0], k');
    }
  }

  /** A batch that leaves no gap makes its own leaves known. */
  lemma KnowsOwn<P>(history: seq<Hash>, k: nat, s: Snapshot<P>, own: nat)
    requires OfHistory(history, s) && own < |s.events| && s.events[own].Deposit?
    requires LeafIndices(s.events) == [] || LeafIndices(s.events)[0] <= k
    ensures s.events[own].leafIndex < Known(k, s)
  {
    DepositInOrder(s.events, own);
    OfHistoryInOrder(history, s);
  }

  lemma {:induction false} KnownGrows<P>(k: nat, batches: seq<Snapshot<P>>)
    ensures k <= KnownAfter(k, batches)
    decreases |batches|
  {
    if batches != [] {
      KnownGrows(Known(k, batches[0]), batches[1..]);
    }
  }

  /**
   Batches that never leave a gap and together cover the history rebuild it, overlaps and all: the
   tree ends as after one splice of the whole history, with every commitment at its own leaf index.
   */
  lemma BatchesRebuildHistory<P>(capacity: nat, history: seq<Hash>, batches: seq<Snapshot<P>>)
    requires |history| <= capacity
    requires forall j :: 0 <= j < |batches| ==> OfHistory(history, batches[j])
    requires Gapless(0, batches)
    requires forall i: nat :: i < |history| ==> Covered(i, batches)
    ensures Folded(capacity, [], batches) == history
    ensures Spliced(capacity, [], 0, history) == Ok(history)
  {
    FoldedIsPrefix(capacity, history, 0, batches);
    assert history[..0] == [];
    if history != [] {
      GaplessKnowsCovered(history, 0, batches, |history| - 1);
    }
    assert history[..|history|] == history;
    SpliceWhole(capacity, history);
  }

  lemma SpliceWhole(capacity: nat, history: seq<Hash>)
    requires |history| <= capacity
    ensures Spliced(capacity, [], 0, history) == Ok(history)
  {
    if history != [] {
      assert Overwrite([], 0, history) == history;
    }
  }
}
