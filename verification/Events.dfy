/** Pool events and the validated batches they travel in. */
module Events {
  import opened BlockRanges
  import opened MachineInts
  import opened Wrappers

  /** A canonical field element. */
  type Hash = nat

  datatype SyncEvent =
    | Deposit(commitment: Hash, leafIndex: u32, blockNumber: u64)
    | Withdrawal(nullifierHash: Hash, recipient: nat, relayer: nat, fee: nat, blockNumber: u64)

  datatype SnapshotError =
    | EventOutOfRange(block: u64, range: Range)
    | NonContiguousDeposits(previous: u32, actual: u32)

  datatype Snapshot<P> = Snapshot(pool: P, range: Range, events: seq<SyncEvent>)

  /** The leaf indices of the deposits, in order. */
  function LeafIndices(events: seq<SyncEvent>): seq<u32> {
    if events == [] then []
    else (if events[0].Deposit? then [events[0].leafIndex] else []) + LeafIndices(events[1..])
  }

  function Commitments(events: seq<SyncEvent>): (cs: seq<Hash>)
    ensures |cs| == |LeafIndices(events)|
  {
    if events == [] then []
    else (if events[0].Deposit? then [events[0].commitment] else []) + Commitments(events[1..])
  }

  function FirstOutside(range: Range, events: seq<SyncEvent>): Option<u64> {
    if events == [] then None
    else if range.Contains(events[0].blockNumber) then FirstOutside(range, events[1..])
    else Some(events[0].blockNumber)
  }

  /** The first adjacent pair that is not consecutive; the successor of the largest index is none. */
  function FirstBreak(leaves: seq<u32>): Option<(u32, u32)> {
    if |leaves| < 2 then None
    else if leaves[0] as nat + 1 == leaves[1] then FirstBreak(leaves[1..])
    else Some((leaves[0], leaves[1]))
  }

  /** `Snapshot::new`. */
  function NewSnapshot<P>(pool: P, range: Range, events: seq<SyncEvent>): Result<Snapshot<P>, SnapshotError> {
    match FirstOutside(range, events)
    case Some(block) => Err(EventOutOfRange(block, range))
    case None =>
      match FirstBreak(LeafIndices(events))
      case Some((previous, actual)) => Err(NonContiguousDeposits(previous, actual))
      case None => Ok(Snapshot(pool, range, events))
  }

  predicate Contiguous(leaves: seq<u32>) {
    forall i :: 0 <= i < |leaves| ==> leaves[i] as nat == leaves[0] as nat + i
  }

  predicate AllWithin(range: Range, events: seq<SyncEvent>) {
    forall i :: 0 <= i < |events| ==> range.Contains(events[i].blockNumber)
  }

  /** The block reported is that of the first event outside the range. */
  lemma {:induction false} FirstOutsideExact(range: Range, events: seq<SyncEvent>) returns (i: nat)
    ensures match FirstOutside(range, events)
      case None => AllWithin(range, events)
      case Some(block) => i < |events| && OutsideAt(range, events, i, block)
  {
    i := 0;
    if events != [] && range.Contains(events[0].blockNumber) {
      var tail := events[1..];
      i := FirstOutsideExact(range, tail);
      assert forall j :: 0 < j < |events| ==> events[j] == tail[j - 1];
      i := i + 1;
    }
  }

  predicate OutsideAt(range: Range, events: seq<SyncEvent>, i: nat, block: nat)
    requires i < |events|
  {
    events[i].blockNumber == block && !range.Contains(block)
    && forall j :: 0 <= j < i ==> range.Contains(events[j].blockNumber)
  }

  /** The pair reported is the first one that does not count up by one. */
  lemma {:induction false} FirstBreakExact(leaves: seq<u32>) returns (i: nat)
    ensures match FirstBreak(leaves)
      case None => Contiguous(leaves)
      case Some(pair) => 0 < i < |leaves| && BreakAt(leaves, i, pair)
  {
    i := 1;
    if |leaves| >= 2 && leaves[0] as nat + 1 == leaves[1] {
      var tail := leaves[1..];
      i := FirstBreakExact(tail);
      assert forall j :: 0 < j < |leaves| ==> leaves[j] == tail[j - 1];
      i := i + 1;
    }
  }

  predicate BreakAt(leaves: seq<u32>, i: nat, pair: (u32, u32))
    requires 0 < i < |leaves|
  {
    && leaves[i - 1] == pair.0 && leaves[i] == pair.1 && pair.0 as nat + 1 != pair.1
    && forall j :: 0 <= j < i ==> leaves[j] as nat == leaves[0] as nat + j
  }

  lemma BreakIsNotContiguous(leaves: seq<u32>, i: nat, pair: (u32, u32))
    requires 0 < i < |leaves| && BreakAt(leaves, i, pair)
    ensures !Contiguous(leaves)
  {
    assert leaves[i - 1] as nat == leaves[0] as nat + (i - 1);
  }

  // ---------- the deposits of a batch ----------

  lemma {:induction false} LeafIndicesConcat(a: seq<SyncEvent>, b: seq<SyncEvent>)
    ensures LeafIndices(a + b) == LeafIndices(a) + LeafIndices(b)
    ensures Commitments(a + b) == Commitments(a) + Commitments(b)
  {
    if a == [] {
      assert a + b == b;
    } else {
      assert (a + b)[0] == a[0] && (a + b)[1..] == a[1..] + b;
      LeafIndicesConcat(a[1..], b);
      var first := if a[0].Deposit? then [a[0].leafIndex] else [];
      assert first + (LeafIndices(a[1..]) + LeafIndices(b)) == first + LeafIndices(a[1..]) + LeafIndices(b);
      var head := if a[0].Deposit? then [a[0].commitment] else [];
      assert head + (Commitments(a[1..]) + Commitments(b)) == head + Commitments(a[1..]) + Commitments(b);
    }
  }

  function DepositCount(events: seq<SyncEvent>): nat {
    if events == [] then 0
    else DepositCount(events[..|events| - 1]) + if events[|events| - 1].Deposit? then 1 else 0
  }

  lemma {:induction false} DepositsCounted(events: seq<SyncEvent>)
    ensures |LeafIndices(events)| == DepositCount(events)
  {
    if events != [] {
      var before, last := events[..|events| - 1], events[|events| - 1];
      DepositsCounted(before);
      LeafIndicesConcat(before, [last]);
      assert events == before + [last];
    }
  }

  /** Each deposit has its leaf index and its commitment at its own place among the deposits. */
  lemma DepositInOrder(events: seq<SyncEvent>, k: nat)
    requires k < |events| && events[k].Deposit?
    ensures var n := DepositCount(events[..k]);
            && n < |LeafIndices(events)|
            && LeafIndices(events)[n] == events[k].leafIndex && Commitments(events)[n] == events[k].commitment
  {
    DepositsCounted(events[..k]);
    assert events[k..] == [events[k]] + events[k + 1..] && events == events[..k] + events[k..];
    LeafIndicesConcat(events[..k], events[k..]);
  }

  /** The deposit whose place among the deposits is `n`. */
  lemma {:induction false} DepositAt(events: seq<SyncEvent>, n: nat) returns (k: nat)
    requires n < |LeafIndices(events)|
    ensures k < |events| && events[k].Deposit? && DepositCount(events[..k]) == n
    ensures LeafIndices(events)[n] == events[k].leafIndex && Commitments(events)[n] == events[k].commitment
  {
    var before, last := events[..|events| - 1], events[|events| - 1];
    LeafIndicesConcat(before, [last]);
    assert events == before + [last];
    if n < |LeafIndices(before)| {
      k := DepositAt(before, n);
      assert before[..k] == events[..k];
    } else {
      k := |before|;
      DepositsCounted(before);
    }
  }

  /** Two deposits with no other between them. */
  predicate Adjacent(events: seq<SyncEvent>, i: nat, j: nat) {
    i < j < |events| && events[i].Deposit? && events[j].Deposit? && forall k :: i < k < j ==> !events[k].Deposit?
  }

  /** The leaf index of each deposit is one more than that of the deposit before it. */
  ghost predicate CountUp(events: seq<SyncEvent>) {
    forall i: nat, j: nat :: Adjacent(events, i, j) ==> events[j].leafIndex as nat == events[i].leafIndex as nat + 1
  }

  lemma {:induction false} NoDepositsBetween(events: seq<SyncEvent>, i: nat, j: nat)
    requires i <= j <= |events| && forall k :: i <= k < j ==> !events[k].Deposit?
    ensures DepositCount(events[..j]) == DepositCount(events[..i])
  {
    if i < j {
      NoDepositsBetween(events, i, j - 1);
      assert events[..j][..j - 1] == events[..j - 1];
    }
  }

  lemma NextPlace(events: seq<SyncEvent>, i: nat, j: nat)
    requires Adjacent(events, i, j)
    ensures DepositCount(events[..j]) == DepositCount(events[..i]) + 1
  {
    NoDepositsBetween(events, i + 1, j);
    assert events[..i + 1][..i] == events[..i];
  }

  lemma PreviousDeposit(events: seq<SyncEvent>, j: nat) returns (i: nat)
    requires j < |events| && events[j].Deposit? && DepositCount(events[..j]) > 0
    ensures Adjacent(events, i, j)
  {
    DepositsCounted(events[..j]);
    i := DepositAt(events[..j], DepositCount(events[..j]) - 1);
    assert events[..j][..i] == events[..i];
    if k :| i < k < j && events[k].Deposit? {
      DepositsUpTo(events, i, k);
      DepositsUpTo(events, k, j);
    }
  }

  /** A deposit raises the count for everything after it. */
  lemma {:induction false} DepositsUpTo(events: seq<SyncEvent>, i: nat, j: nat)
    requires i < j <= |events| && events[i].Deposit?
    ensures DepositCount(events[..i]) < DepositCount(events[..j])
  {
    assert events[..j][..j - 1] == events[..j - 1];
    if i < j - 1 {
      DepositsUpTo(events, i, j - 1);
    }
  }

  /** The leaf indices count up exactly when those of neighbouring deposits differ by one. */
  lemma ContiguousExact(events: seq<SyncEvent>)
    ensures Contiguous(LeafIndices(events)) <==> CountUp(events)
  {
    var leaves := LeafIndices(events);
    if Contiguous(leaves) {
      forall i: nat, j: nat | Adjacent(events, i, j)
        ensures events[j].leafIndex as nat == events[i].leafIndex as nat + 1
      {
        NextPlace(events, i, j);
        DepositInOrder(events, i);
        DepositInOrder(events, j);
      }
    }
    if CountUp(events) {
      forall n | 0 <= n < |leaves|
        ensures leaves[n] as nat == leaves[0] as nat + n
      {
        CountsFromFirst(events, n);
      }
    }
  }

  lemma {:induction false} CountsFromFirst(events: seq<SyncEvent>, n: nat)
    requires CountUp(events) && n < |LeafIndices(events)|
    ensures LeafIndices(events)[n] as nat == LeafIndices(events)[0] as nat + n
  {
    if n > 0 {
      CountsFromFirst(events, n - 1);
      var j := DepositAt(events, n);
      var i := PreviousDeposit(events, j);
      NextPlace(events, i, j);
      DepositInOrder(events, i);
    }
  }

  /**
   A batch is accepted exactly when every event lies in the range and the deposits' leaf indices
   count up one by one, and an accepted batch is kept as given.
   */
  lemma NewSnapshotExact<P>(pool: P, range: Range, events: seq<SyncEvent>)
    ensures NewSnapshot(pool, range, events).Ok? <==> AllWithin(range, events) && Contiguous(LeafIndices(events))
    ensures NewSnapshot(pool, range, events).Ok? <==> AllWithin(range, events) && CountUp(events)
    ensures NewSnapshot(pool, range, events).Ok? ==>
      NewSnapshot(pool, range, events).value == Snapshot(pool, range, events)
  {
    var _ := FirstOutsideExact(range, events);
    ContiguousExact(events);
    var leaves := LeafIndices(events);
    var i := FirstBreakExact(leaves);
    if FirstBreak(leaves).Some? {
      BreakIsNotContiguous(leaves, i, FirstBreak(leaves).value);
    }
  }

  /**
   Why a batch is refused: for the first event outside the range, whatever its deposits; otherwise for
   the first two neighbouring deposits whose leaf indices are not consecutive.
   */
  lemma NewSnapshotErrors<P>(pool: P, range: Range, events: seq<SyncEvent>) returns (i: nat, j: nat)
    requires NewSnapshot(pool, range, events).Err?
    ensures !AllWithin(range, events) ==>
      && i < |events| && OutsideAt(range, events, i, events[i].blockNumber)
      && NewSnapshot(pool, range, events) == Err(EventOutOfRange(events[i].blockNumber, range))
    ensures AllWithin(range, events) ==>
      && Adjacent(events, i, j) && CountUp(events[..j])
      && events[j].leafIndex as nat != events[i].leafIndex as nat + 1
      && NewSnapshot(pool, range, events) == Err(NonContiguousDeposits(events[i].leafIndex, events[j].leafIndex))
  {
    i := FirstOutsideExact(range, events);
    j := 0;
    if AllWithin(range, events) {
      assert FirstOutside(range, events).None?;
      i, j := FirstBreakEvents(events);
    }
  }

  lemma FirstBreakEvents(events: seq<SyncEvent>) returns (i: nat, j: nat)
    requires FirstBreak(LeafIndices(events)).Some?
    ensures Adjacent(events, i, j) && CountUp(events[..j])
    ensures events[j].leafIndex as nat != events[i].leafIndex as nat + 1
    ensures FirstBreak(LeafIndices(events)).value == (events[i].leafIndex, events[j].leafIndex)
  {
    var leaves := LeafIndices(events);
    var n := FirstBreakExact(leaves);
    j := DepositAt(events, n);
    i := PreviousDeposit(events, j);
    NextPlace(events, i, j);
    DepositInOrder(events, i);
    assert events == events[..j] + events[j..];
    LeafIndicesConcat(events[..j], events[j..]);
    DepositsCounted(events[..j]);
    assert LeafIndices(events[..j]) == leaves[..n];
    ContiguousExact(events[..j]);
  }

  /** Both parts of an accepted batch are acceptable on their own ranges. */
  lemma SnapshotParts<P>(pool: P, range: Range, events: seq<SyncEvent>, first: Range, a: seq<SyncEvent>,
          second: Range, b: seq<SyncEvent>)
    requires NewSnapshot(pool, range, events).Ok? && events == a + b
    requires AllWithin(first, a) && AllWithin(second, b)
    ensures NewSnapshot(pool, first, a).Ok? && NewSnapshot(pool, second, b).Ok?
  {
    NewSnapshotExact(pool, range, events);
    NewSnapshotExact(pool, first, a);
    NewSnapshotExact(pool, second, b);
    LeafIndicesConcat(a, b);
    var all, left, right := LeafIndices(events), LeafIndices(a), LeafIndices(b);
    assert forall i :: 0 <= i < |left| ==> all[i] == left[i];
    assert forall i :: 0 <= i < |right| ==> all[|left| + i] == right[i];
  }
}
