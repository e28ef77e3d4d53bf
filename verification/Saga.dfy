/** Published event chunks: parsing one within a block range, and assembling a range from all of them. */
module Saga {
  import opened BlockRanges
  import opened MachineInts
  import opened Wrappers
  import opened Arithmetic
  import opened Events

  /** The data of a pool event, without the block it happened in. */
  datatype Decoded =
    | DepositData(commitment: Hash, leafIndex: u32)
    | WithdrawalData(nullifierHash: Hash, recipient: nat, relayer: nat, fee: nat)
  {
    function At(block: u64): (event: SyncEvent)
      ensures event.blockNumber == block
    {
      match this
      case DepositData(commitment, leafIndex) => Deposit(commitment, leafIndex, block)
      case WithdrawalData(nullifierHash, recipient, relayer, fee) =>
        Withdrawal(nullifierHash, recipient, relayer, fee, block)
    }
  }

  /**
   A line of a chunk: blank, not an event, or an event at a position whose payload decodes to the
   data of a pool event, to none of interest, or not at all.
   */
  datatype Line =
    | Blank
    | Malformed
    | Entry(block: u64, logIndex: u64, payload: Result<Option<Decoded>, SagaError>)

  datatype SagaError =
    | Json
    | Undecodable
    | OutOfOrder(index: nat)
    | OutOfRange(block: nat, from: nat, to: nat)
    | BadSnapshot(error: SnapshotError)

  /** A published chunk: the half-open block range it declares, and its lines. */
  datatype Chunk = Chunk(fromBlock: u64, toBlock: u64, lines: seq<Line>)

  /** What parsing carries from line to line. */
  datatype Progress = Progress(events: seq<SyncEvent>, prev: Option<(u64, u64)>, index: nat)

  /** The order of events: by block, then by position in the block. */
  predicate After(key: (u64, u64), prev: (u64, u64)) {
    key.0 > prev.0 || (key.0 == prev.0 && key.1 > prev.1)
  }

  function ParseLine(chunk: Chunk, range: Range, p: Progress, line: Line): Result<Progress, SagaError> {
    match line
    case Blank => Ok(p)
    case Malformed => Err(Json)
    case Entry(block, logIndex, payload) =>
      if p.prev.Some? && !After((block, logIndex), p.prev.value) then Err(OutOfOrder(p.index))
      else if block < chunk.fromBlock || block >= chunk.toBlock then
        Err(OutOfRange(block, chunk.fromBlock, chunk.toBlock))
      else
        var next := p.(prev := Some((block, logIndex)), index := p.index + 1);
        if !range.Contains(block) then Ok(next)
        else
          match payload
          case Err(e) => Err(e)
          case Ok(None) => Ok(next)
          case Ok(Some(data)) => Ok(next.(events := p.events + [data.At(block)]))
  }

  /** The progress after the first `n` lines, or the error of the first bad one. */
  function Parsed(chunk: Chunk, range: Range, n: nat): Result<Progress, SagaError>
    requires n <= |chunk.lines|
  {
    if n == 0 then Ok(Progress([], None, 0))
    else
      match Parsed(chunk, range, n - 1)
      case Err(e) => Err(e)
      case Ok(p) => ParseLine(chunk, range, p, chunk.lines[n - 1])
  }

  /** The events of a whole chunk within a range. */
  function EventsOf(chunk: Chunk, range: Range): Result<seq<SyncEvent>, SagaError> {
    match Parsed(chunk, range, |chunk.lines|)
    case Ok(p) => Ok(p.events)
    case Err(e) => Err(e)
  }

  lemma {:induction false} ErrorsPersist(chunk: Chunk, range: Range, n: nat, m: nat)
    requires n <= m <= |chunk.lines| && Parsed(chunk, range, n).Err?
    ensures Parsed(chunk, range, m) == Parsed(chunk, range, n)
  {
    if n < m {
      ErrorsPersist(chunk, range, n, m - 1);
    }
  }

  method ParseChunkEvents(chunk: Chunk, range: Range) returns (r: Result<seq<SyncEvent>, SagaError>)
    ensures r == EventsOf(chunk, range)
  {
    var events: seq<SyncEvent> := [];
    var prev: Option<(u64, u64)> := None;
    var index := 0;
    for n := 0 to |chunk.lines|
      invariant Parsed(chunk, range, n) == Ok(Progress(events, prev, index))
    {
      match chunk.lines[n]
      case Blank =>
      case Malformed =>
        ErrorsPersist(chunk, range, n + 1, |chunk.lines|);
        return Err(Json);
      case Entry(block, logIndex, payload) =>
        var key := (block, logIndex);
        if prev.Some? && !After(key, prev.value) {
          ErrorsPersist(chunk, range, n + 1, |chunk.lines|);
          return Err(OutOfOrder(index));
        }
        if block < chunk.fromBlock || block >= chunk.toBlock {
          ErrorsPersist(chunk, range, n + 1, |chunk.lines|);
          return Err(OutOfRange(block, chunk.fromBlock, chunk.toBlock));
        }
        if range.Contains(block) {
          if payload.Err? {
            ErrorsPersist(chunk, range, n + 1, |chunk.lines|);
            return Err(payload.error);
          }
          if payload.value.Some? {
            events := events + [payload.value.value.At(block)];
          }
        }
        prev, index := Some(key), index + 1;
    }
    r := Ok(events);
  }

  /** What is parsed lies in the range asked for. */
  lemma {:induction false} ParsedWithin(chunk: Chunk, range: Range, n: nat)
    requires n <= |chunk.lines| && Parsed(chunk, range, n).Ok?
    ensures AllWithin(range, Parsed(chunk, range, n).value.events)
  {
    if n > 0 {
      ParsedWithin(chunk, range, n - 1);
    }
  }

  // ---------- one chunk over adjacent ranges ----------

  /** How the parse of a range relates to those of its two parts, after the same lines. */
  ghost predicate Joined(whole: Result<Progress, SagaError>, left: Result<Progress, SagaError>,
          right: Result<Progress, SagaError>, b: nat)
  {
    && (whole.Ok? <==> left.Ok? && right.Ok?)
    && (whole.Ok? ==>
          && whole.value.events == left.value.events + right.value.events
          && whole.value.prev == left.value.prev == right.value.prev
          && whole.value.index == left.value.index == right.value.index
          && (right.value.events != [] ==> whole.value.prev.Some? && whole.value.prev.value.0 >= b))
  }

  lemma {:induction false} ParsedSplits(chunk: Chunk, a: u64, b: u64, c: u64, n: nat)
    requires a <= b <= c && n <= |chunk.lines|
    ensures Joined(Parsed(chunk, Range(a, c), n), Parsed(chunk, Range(a, b), n), Parsed(chunk, Range(b, c), n), b)
  {
    if n > 0 {
      ParsedSplits(chunk, a, b, c, n - 1);
    }
  }

  /**
   For every chunk and every `a <= b <= c`, parsing over `a..c` succeeds exactly when it does over
   `a..b` and over `b..c`, and gives the two results one after the other.
   */
  lemma ChunkSplits(chunk: Chunk, a: u64, b: u64, c: u64)
    requires a <= b <= c
    ensures var whole := EventsOf(chunk, Range(a, c));
      var left, right := EventsOf(chunk, Range(a, b)), EventsOf(chunk, Range(b, c));
            && (whole.Ok? <==> left.Ok? && right.Ok?)
            && (whole.Ok? ==> whole.value == left.value + right.value)
  {
    ParsedSplits(chunk, a, b, c, |chunk.lines|);
  }

  // ---------- the overlap filter ----------

  predicate Overlaps(chunk: Chunk, range: Range) {
    chunk.fromBlock < range.end && chunk.toBlock > range.start
  }

  lemma {:induction false} ParsedOutside(chunk: Chunk, range: Range, other: Range, n: nat)
    requires n <= |chunk.lines| && !Overlaps(chunk, range)
    ensures Parsed(chunk, range, n).Ok? ==> Parsed(chunk, range, n).value.events == []
    ensures Parsed(chunk, other, n).Ok? ==>
      Parsed(chunk, range, n).Ok?
      && Parsed(chunk, range, n).value.prev == Parsed(chunk, other, n).value.prev
  {
    if n > 0 {
      ParsedOutside(chunk, range, other, n - 1);
    }
  }

  /** A chunk the filter drops would contribute nothing, and parses whenever it does for any range. */
  lemma DroppedChunk(chunk: Chunk, range: Range, other: Range)
    requires !Overlaps(chunk, range)
    ensures EventsOf(chunk, range).Ok? ==> EventsOf(chunk, range) == Ok([])
    ensures EventsOf(chunk, other).Ok? ==> EventsOf(chunk, range) == Ok([])
  {
    ParsedOutside(chunk, range, other, |chunk.lines|);
  }

  // ---------- a whole stream ----------

  /** The events of the overlapping chunks, one after another. */
  function Collected(chunks: seq<Chunk>, range: Range, n: nat): Result<seq<SyncEvent>, SagaError>
    requires n <= |chunks|
  {
    if n == 0 then Ok([])
    else
      match Collected(chunks, range, n - 1)
      case Err(e) => Err(e)
      case Ok(events) =>
        if !Overlaps(chunks[n - 1], range) then Ok(events)
        else
          match EventsOf(chunks[n - 1], range)
          case Err(e) => Err(e)
          case Ok(more) => Ok(events + more)
  }

  lemma {:induction false} CollectErrorsPersist(chunks: seq<Chunk>, range: Range, n: nat, m: nat)
    requires n <= m <= |chunks| && Collected(chunks, range, n).Err?
    ensures Collected(chunks, range, m) == Collected(chunks, range, n)
  {
    if n < m {
      CollectErrorsPersist(chunks, range, n, m - 1);
    }
  }

  /** The end of what a stream publishes: that of its last chunk, or of the deployment if it has none. */
  function Published(chunks: seq<Chunk>, deployed: u64): u64 {
    if chunks == [] then deployed else chunks[|chunks| - 1].toBlock
  }

  /** The requested range clamped to the deployment and to what is published; never backwards. */
  function Clamped(chunks: seq<Chunk>, deployed: u64, fromBlock: u64, toBlock: u64): (range: Range)
    ensures range.start <= range.end
  {
    var from := Max(fromBlock, deployed);
    Range(from, Max(Min(toBlock, Published(chunks, deployed)), from))
  }

  /** The batch of a range: what is collected over it, validated. */
  function Synced<P>(pool: P, deployed: u64, chunks: seq<Chunk>, fromBlock: u64, toBlock: u64)
    : Result<Snapshot<P>, SagaError>
  {
    var range := Clamped(chunks, deployed, fromBlock, toBlock);
    match Collected(chunks, range, |chunks|)
    case Err(e) => Err(e)
    case Ok(events) =>
      match NewSnapshot(pool, range, events)
      case Ok(s) => Ok(s)
      case Err(e) => Err(BadSnapshot(e))
  }

  /** `chunks` are the sealed chunks followed by the hot head, if there is one. */
  method Sync<P>(pool: P, deployed: u64, chunks: seq<Chunk>, fromBlock: u64, toBlock: u64)
    returns (r: Result<Snapshot<P>, SagaError>)
    ensures r == Synced(pool, deployed, chunks, fromBlock, toBlock)
  {
    var range := Clamped(chunks, deployed, fromBlock, toBlock);
    var events: seq<SyncEvent> := [];
    for n := 0 to |chunks|
      invariant Collected(chunks, range, n) == Ok(events)
    {
      if Overlaps(chunks[n], range) {
        var decoded := ParseChunkEvents(chunks[n], range);
        if decoded.Err? {
          CollectErrorsPersist(chunks, range, n + 1, |chunks|);
          return Err(decoded.error);
        }
        events := events + decoded.value;
      }
    }
    var snapshot := NewSnapshot(pool, range, events);
    r := match snapshot case Ok(s) => Ok(s) case Err(e) => Err(BadSnapshot(e));
  }

  lemma {:induction false} CollectedWithin(chunks: seq<Chunk>, range: Range, n: nat)
    requires n <= |chunks| && Collected(chunks, range, n).Ok?
    ensures AllWithin(range, Collected(chunks, range, n).value)
  {
    if n > 0 {
      CollectedWithin(chunks, range, n - 1);
      if Overlaps(chunks[n - 1], range) {
        ParsedWithin(chunks[n - 1], range, |chunks[n - 1].lines|);
      }
    }
  }

  /** A sync succeeds exactly when its chunks parse and its deposits count up: no event can be out of range. */
  lemma SyncedExact<P>(pool: P, deployed: u64, chunks: seq<Chunk>, fromBlock: u64, toBlock: u64)
    ensures var range := Clamped(chunks, deployed, fromBlock, toBlock);
            var collected, r := Collected(chunks, range, |chunks|), Synced(pool, deployed, chunks, fromBlock, toBlock);
            && (r.Ok? <==> collected.Ok? && Contiguous(LeafIndices(collected.value)))
            && (r.Ok? ==> r.value == Snapshot(pool, range, collected.value))
  {
    var range := Clamped(chunks, deployed, fromBlock, toBlock);
    var collected := Collected(chunks, range, |chunks|);
    if collected.Ok? {
      CollectedWithin(chunks, range, |chunks|);
      NewSnapshotExact(pool, range, collected.value);
    }
  }

  /** Chunks as a stream publishes them: not empty, ascending, not overlapping. */
  predicate Ascending(chunks: seq<Chunk>) {
    && (forall i :: 0 <= i < |chunks| ==> chunks[i].fromBlock < chunks[i].toBlock)
    && (forall i, j :: 0 <= i < j < |chunks| ==> chunks[i].toBlock <= chunks[j].fromBlock)
  }

  /** The part of one chunk that a range takes. */
  function Part(chunk: Chunk, range: Range): Result<seq<SyncEvent>, SagaError> {
    if Overlaps(chunk, range) then EventsOf(chunk, range) else Ok([])
  }

  lemma PartSplits(chunk: Chunk, a: u64, b: u64, c: u64)
    requires a <= b <= c && chunk.fromBlock < chunk.toBlock
    ensures var whole, left, right := Part(chunk, Range(a, c)), Part(chunk, Range(a, b)), Part(chunk, Range(b, c));
            && (whole.Ok? <==> left.Ok? && right.Ok?)
            && (whole.Ok? ==> whole.value == left.value + right.value)
            && (right.Ok? && right.value != [] ==> chunk.toBlock > b)
            && (left.Ok? && left.value != [] ==> chunk.fromBlock < b)
  {
    ChunkSplits(chunk, a, b, c);
    if !Overlaps(chunk, Range(a, b)) {
      DroppedChunk(chunk, Range(a, b), Range(b, c));
    }
    if !Overlaps(chunk, Range(b, c)) {
      DroppedChunk(chunk, Range(b, c), Range(a, b));
    }
  }

  lemma Interleave<T>(a: seq<T>, b: seq<T>, c: seq<T>, d: seq<T>)
    requires b == [] || c == []
    ensures (a + b) + (c + d) == (a + c) + (b + d)
  {
  }

  lemma {:induction false} CollectedSplits(chunks: seq<Chunk>, a: u64, b: u64, c: u64, n: nat)
    requires a <= b <= c && n <= |chunks| && Ascending(chunks)
    ensures var whole := Collected(chunks, Range(a, c), n);
      var left, right := Collected(chunks, Range(a, b), n), Collected(chunks, Range(b, c), n);
            && (whole.Ok? <==> left.Ok? && right.Ok?)
            && (whole.Ok? ==> whole.value == left.value + right.value)
            && (right.Ok? && right.value != [] ==> n > 0 && chunks[n - 1].toBlock > b)
  {
    if n > 0 {
      CollectedSplits(chunks, a, b, c, n - 1);
      PartSplits(chunks[n - 1], a, b, c);
      var left, right := Collected(chunks, Range(a, b), n - 1), Collected(chunks, Range(b, c), n - 1);
      var last := chunks[n - 1];
      var whole, l, r := Part(last, Range(a, c)), Part(last, Range(a, b)), Part(last, Range(b, c));
      if left.Ok? && right.Ok? && l.Ok? && r.Ok? {
        Interleave(left.value, right.value, l.value, r.value);
      }
    }
  }

  lemma {:induction false} CollectedBeyond(chunks: seq<Chunk>, range: Range, n: nat)
    requires n <= |chunks| && forall i :: 0 <= i < n ==> chunks[i].toBlock <= range.start
    ensures Collected(chunks, range, n) == Ok([])
  {
    if n > 0 {
      CollectedBeyond(chunks, range, n - 1);
    }
  }

  /**
   The events of a range are those of its two parts, across the deployment block and the end of what is
   published alike.
   */
  lemma ClampedSplits(chunks: seq<Chunk>, deployed: u64, fromBlock: u64, mid: u64, toBlock: u64)
    requires Ascending(chunks) && fromBlock <= mid <= toBlock
    ensures var n := |chunks|;
            var whole := Collected(chunks, Clamped(chunks, deployed, fromBlock, toBlock), n);
            var left := Collected(chunks, Clamped(chunks, deployed, fromBlock, mid), n);
            var right := Collected(chunks, Clamped(chunks, deployed, mid, toBlock), n);
            && (whole.Ok? <==> left.Ok? && right.Ok?)
            && (whole.Ok? ==> whole.value == left.value + right.value)
  {
    var n := |chunks|;
    var whole, left := Clamped(chunks, deployed, fromBlock, toBlock), Clamped(chunks, deployed, fromBlock, mid);
    var right := Clamped(chunks, deployed, mid, toBlock);
    ClampsMeet(chunks, deployed, fromBlock, mid, toBlock);
    if mid <= Published(chunks, deployed) || mid <= deployed {
      CollectedSplits(chunks, whole.start, left.end, whole.end, n);
    } else {
      // Nothing is published from `mid` on.
      PublishedIsLast(chunks, deployed);
      CollectedBeyond(chunks, right, n);
    }
  }

  /** The clamped parts meet, unless the second starts past all that is published: then the first is the whole. */
  lemma ClampsMeet(chunks: seq<Chunk>, deployed: u64, fromBlock: u64, mid: u64, toBlock: u64)
    requires fromBlock <= mid <= toBlock
    ensures var whole, left := Clamped(chunks, deployed, fromBlock, toBlock), Clamped(chunks, deployed, fromBlock, mid);
            var right := Clamped(chunks, deployed, mid, toBlock);
            if mid <= Published(chunks, deployed) || mid <= deployed
            then whole.start == left.start <= left.end == right.start <= right.end == whole.end
            else whole == left && right.start == mid > Published(chunks, deployed)
  {
  }

  lemma PublishedIsLast(chunks: seq<Chunk>, deployed: u64)
    requires Ascending(chunks)
    ensures forall i :: 0 <= i < |chunks| ==> chunks[i].toBlock <= Published(chunks, deployed)
  {
    forall i | 0 <= i < |chunks| - 1
      ensures chunks[i].toBlock <= Published(chunks, deployed)
    {
      assert chunks[i].toBlock <= chunks[|chunks| - 1].fromBlock < chunks[|chunks| - 1].toBlock;
    }
  }

  /** The first leaf of `b` comes right after the last leaf of `a`, unless one of them has none. */
  predicate Follows(a: seq<u32>, b: seq<u32>) {
    a == [] || b == [] || a[|a| - 1] as nat + 1 == b[0]
  }

  lemma ContiguousParts(a: seq<u32>, b: seq<u32>)
    ensures Contiguous(a + b) <==> Contiguous(a) && Contiguous(b) && Follows(a, b)
  {
    var all := a + b;
    if Contiguous(all) {
      assert forall i :: 0 <= i < |a| ==> all[i] == a[i];
      assert forall i :: 0 <= i < |b| ==> all[|a| + i] == b[i];
    }
    if Contiguous(a) && Contiguous(b) && Follows(a, b) && a != [] {
      assert a[|a| - 1] as nat == a[0] as nat + (|a| - 1);
    }
  }

  /**
   Syncing piecewise: the sync of `from..to` succeeds exactly when the syncs of `from..mid` and
   `mid..to` do and the deposits of the second follow those of the first; its events are then
   theirs, one after the other.
   */
  lemma SyncSplits<P>(pool: P, deployed: u64, chunks: seq<Chunk>, fromBlock: u64, mid: u64, toBlock: u64)
    requires Ascending(chunks) && fromBlock <= mid <= toBlock
    ensures var whole := Synced(pool, deployed, chunks, fromBlock, toBlock);
            var left := Synced(pool, deployed, chunks, fromBlock, mid);
            var right := Synced(pool, deployed, chunks, mid, toBlock);
            && (whole.Ok? <==>
                  left.Ok? && right.Ok? && Follows(LeafIndices(left.value.events), LeafIndices(right.value.events)))
            && (whole.Ok? ==> whole.value.events == left.value.events + right.value.events)
  {
    SyncedExact(pool, deployed, chunks, fromBlock, toBlock);
    SyncedExact(pool, deployed, chunks, fromBlock, mid);
    SyncedExact(pool, deployed, chunks, mid, toBlock);
    ClampedSplits(chunks, deployed, fromBlock, mid, toBlock);
    var left := Collected(chunks, Clamped(chunks, deployed, fromBlock, mid), |chunks|);
    var right := Collected(chunks, Clamped(chunks, deployed, mid, toBlock), |chunks|);
    if left.Ok? && right.Ok? {
      LeafIndicesConcat(left.value, right.value);
      ContiguousParts(LeafIndices(left.value), LeafIndices(right.value));
    }
  }

  // ---------- two parts that sync where the whole does not ----------

  /** A chunk of blocks `0..20` whose deposits skip from leaf 0 to leaf 5. */
  function SkippingChunk(a: Hash, b: Hash): Chunk {
    Chunk(0, 20, [Entry(1, 0, Ok(Some(DepositData(a, 0)))), Entry(10, 0, Ok(Some(DepositData(b, 5))))])
  }

  lemma SkippingParses(a: Hash, b: Hash, range: Range)
    ensures var c := SkippingChunk(a, b);
            EventsOf(c, range) == Ok((if range.Contains(1) then [Deposit(a, 0, 1)] else [])
                                     + (if range.Contains(10) then [Deposit(b, 5, 10)] else []))
  {
    var c := SkippingChunk(a, b);
    assert Parsed(c, range, 0) == Ok(Progress([], None, 0));
    var first := if range.Contains(1) then [Deposit(a, 0, 1)] else [];
    assert [] + first == first;
    assert Parsed(c, range, 1) == Ok(Progress(first, Some((1, 0)), 1));
    assert first + [] == first;
    assert Parsed(c, range, 2) == ParseLine(c, range, Progress(first, Some((1, 0)), 1), c.lines[1]);
  }

  /** Syncing `0..5` and `5..20` of that chunk succeeds, syncing `0..20` does not. */
  lemma PartsWithoutWhole<P>(pool: P, a: Hash, b: Hash)
    ensures Synced(pool, 0, [SkippingChunk(a, b)], 0, 5).Ok? && Synced(pool, 0, [SkippingChunk(a, b)], 5, 20).Ok?
    ensures Synced(pool, 0, [SkippingChunk(a, b)], 0, 20) == Err(BadSnapshot(NonContiguousDeposits(0, 5)))
  {
    SyncSkipping(pool, a, b, 0, 5);
    SyncSkipping(pool, a, b, 5, 20);
    SyncSkipping(pool, a, b, 0, 20);
    SkippingIndices(a, b);
    CollectedWithin([SkippingChunk(a, b)], Range(0, 20), 1);
    var _ := FirstOutsideExact(Range(0, 20), [Deposit(a, 0, 1)] + [Deposit(b, 5, 10)]);
  }

  lemma SkippingIndices(a: Hash, b: Hash)
    ensures LeafIndices([Deposit(a, 0, 1)] + []) == [0] && LeafIndices([] + [Deposit(b, 5, 10)]) == [5]
    ensures LeafIndices([Deposit(a, 0, 1)] + [Deposit(b, 5, 10)]) == [0, 5]
  {
    LeafIndicesConcat([Deposit(a, 0, 1)], []);
    LeafIndicesConcat([], [Deposit(b, 5, 10)]);
    LeafIndicesConcat([Deposit(a, 0, 1)], [Deposit(b, 5, 10)]);
  }

  lemma SyncSkipping<P>(pool: P, a: Hash, b: Hash, fromBlock: u64, toBlock: u64)
    requires fromBlock <= toBlock <= 20
    ensures var range := Range(fromBlock, toBlock);
            var events := (if range.Contains(1) then [Deposit(a, 0, 1)] else [])
                          + (if range.Contains(10) then [Deposit(b, 5, 10)] else []);
            && Clamped([SkippingChunk(a, b)], 0, fromBlock, toBlock) == range
            && Collected([SkippingChunk(a, b)], range, 1) == Ok(events)
            && (Synced(pool, 0, [SkippingChunk(a, b)], fromBlock, toBlock).Ok? <==> Contiguous(LeafIndices(events)))
  {
    var chunks, range := [SkippingChunk(a, b)], Range(fromBlock, toBlock);
    SkippingParses(a, b, range);
    var events := EventsOf(chunks[0], range).value;
    assert [] + events == events;
    assert Collected(chunks, range, 0) == Ok([]);
    SyncedExact(pool, 0, chunks, fromBlock, toBlock);
  }
}
