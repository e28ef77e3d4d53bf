/** Parsing a chunk, read off its lines: which chunks parse, what the first bad line is, and the events. */
module SagaLines {
  import opened BlockRanges
  import opened MachineInts
  import opened Wrappers
  import opened Events
  import opened Saga

  /** The line on its own is no reason to refuse the chunk. */
  predicate Fits(chunk: Chunk, range: Range, line: Line) {
    match line
    case Blank => true
    case Malformed => false
    case Entry(block, _, payload) =>
      chunk.fromBlock <= block < chunk.toBlock && (range.start <= block < range.end ==> payload.Ok?)
  }

  /** One entry comes strictly before the other: by block, then by index in the block. */
  predicate Before(a: Line, b: Line)
    requires a.Entry? && b.Entry?
  {
    a.block < b.block || (a.block == b.block && a.logIndex < b.logIndex)
  }

  /** The entries among the first `n` lines are in strict order. */
  predicate SortedUpTo(lines: seq<Line>, n: nat)
    requires n <= |lines|
  {
    forall i, j :: 0 <= i < j < n && lines[i].Entry? && lines[j].Entry? ==> Before(lines[i], lines[j])
  }

  predicate FitsUpTo(chunk: Chunk, range: Range, n: nat)
    requires n <= |chunk.lines|
  {
    forall i :: 0 <= i < n ==> Fits(chunk, range, chunk.lines[i])
  }

  function NonBlank(lines: seq<Line>, n: nat): nat
    requires n <= |lines|
  {
    if n == 0 then 0 else NonBlank(lines, n - 1) + if lines[n - 1].Blank? then 0 else 1
  }

  /** `prev` is the key of the last entry among the first `n` lines. */
  predicate LastKey(lines: seq<Line>, n: nat, prev: Option<(u64, u64)>)
    requires n <= |lines|
  {
    match prev
    case None => forall i :: 0 <= i < n ==> !lines[i].Entry?
    case Some(key) => exists i :: 0 <= i < n && KeyAt(lines, n, key, i)
  }

  predicate KeyAt(lines: seq<Line>, n: nat, key: (u64, u64), i: nat)
    requires i < n <= |lines|
  {
    lines[i].Entry? && key == (lines[i].block, lines[i].logIndex) && forall j :: i < j < n ==> !lines[j].Entry?
  }

  /** A new entry comes after all earlier ones exactly when it comes after the last of them. */
  lemma NextSorted(lines: seq<Line>, n: nat, prev: Option<(u64, u64)>)
    requires n < |lines| && lines[n].Entry? && SortedUpTo(lines, n) && LastKey(lines, n, prev)
    ensures SortedUpTo(lines, n + 1) <==> (prev.None? || After((lines[n].block, lines[n].logIndex), prev.value))
    ensures LastKey(lines, n + 1, Some((lines[n].block, lines[n].logIndex)))
  {
    assert KeyAt(lines, n + 1, (lines[n].block, lines[n].logIndex), n);
    if prev.Some? {
      var i :| 0 <= i < n && KeyAt(lines, n, prev.value, i);
      if After((lines[n].block, lines[n].logIndex), prev.value) {
        forall j | 0 <= j < n && lines[j].Entry?
          ensures Before(lines[j], lines[n])
        {
          assert j < i ==> Before(lines[j], lines[i]);
        }
      } else {
        assert !Before(lines[i], lines[n]);
      }
    }
  }

  /** The first `n` lines parse exactly when each of them fits and they are in order. */
  lemma {:induction false} ParsedExact(chunk: Chunk, range: Range, n: nat)
    requires n <= |chunk.lines|
    ensures Parsed(chunk, range, n).Ok? <==> FitsUpTo(chunk, range, n) && SortedUpTo(chunk.lines, n)
    ensures Parsed(chunk, range, n).Ok? ==>
      var p := Parsed(chunk, range, n).value;
      LastKey(chunk.lines, n, p.prev) && p.index == NonBlank(chunk.lines, n)
  {
    if n > 0 {
      ParsedExact(chunk, range, n - 1);
      var before, line := Parsed(chunk, range, n - 1), chunk.lines[n - 1];
      if before.Ok? {
        if line.Entry? {
          NextSorted(chunk.lines, n - 1, before.value.prev);
        } else {
          NoEntry(chunk.lines, n - 1, before.value.prev);
        }
      } else {
        assert FitsUpTo(chunk, range, n) ==> FitsUpTo(chunk, range, n - 1);
        assert SortedUpTo(chunk.lines, n) ==> SortedUpTo(chunk.lines, n - 1);
      }
    }
  }

  lemma NoEntry(lines: seq<Line>, n: nat, prev: Option<(u64, u64)>)
    requires n < |lines| && !lines[n].Entry? && LastKey(lines, n, prev)
    ensures SortedUpTo(lines, n + 1) <==> SortedUpTo(lines, n)
    ensures LastKey(lines, n + 1, prev)
  {
    if prev.Some? {
      var i :| 0 <= i < n && KeyAt(lines, n, prev.value, i);
      assert KeyAt(lines, n + 1, prev.value, i);
    }
  }

  /**
   A chunk parses over a range exactly when no line is malformed, every entry is in the chunk's own
   range, entries come in strict order of block and index, and those in the range asked for decode.
   */
  lemma ParsesExactly(chunk: Chunk, range: Range)
    ensures EventsOf(chunk, range).Ok? <==>
      FitsUpTo(chunk, range, |chunk.lines|) && SortedUpTo(chunk.lines, |chunk.lines|)
  {
    ParsedExact(chunk, range, |chunk.lines|);
  }

  // ---------- errors ----------

  /** What is wrong with line `n`, the lines before it being in order. */
  predicate BadLine(chunk: Chunk, range: Range, n: nat, e: SagaError)
    requires n < |chunk.lines|
  {
    match chunk.lines[n]
    case Blank => false
    case Malformed => e == Json
    case Entry(block, logIndex, payload) =>
      if exists i :: 0 <= i < n && chunk.lines[i].Entry? && !Before(chunk.lines[i], chunk.lines[n]) then
        e == OutOfOrder(NonBlank(chunk.lines, n))
      else if !(chunk.fromBlock <= block < chunk.toBlock) then
        e == OutOfRange(block, chunk.fromBlock, chunk.toBlock)
      else range.start <= block < range.end && payload == Err(e)
  }

  /** The error reported is that of the first bad line. */
  lemma {:induction false} ErrorExact(chunk: Chunk, range: Range, n: nat) returns (bad: nat)
    requires n <= |chunk.lines| && Parsed(chunk, range, n).Err?
    ensures bad < n && BadLine(chunk, range, bad, Parsed(chunk, range, n).error)
    ensures FitsUpTo(chunk, range, bad) && SortedUpTo(chunk.lines, bad)
  {
    var before := Parsed(chunk, range, n - 1);
    if before.Err? {
      bad := ErrorExact(chunk, range, n - 1);
    } else {
      bad := n - 1;
      ParsedExact(chunk, range, bad);
      if chunk.lines[bad].Entry? {
        NextSorted(chunk.lines, bad, before.value.prev);
      }
    }
  }

  // ---------- events ----------

  /** The line is an event of interest in the range. */
  predicate Wanted(range: Range, line: Line) {
    && line.Entry? && range.start <= line.block < range.end
    && line.payload.Ok? && line.payload.value.Some?
  }

  function EventFor(line: Line): SyncEvent
    requires line.Entry? && line.payload.Ok? && line.payload.value.Some?
  {
    match line.payload.value.value
    case DepositData(commitment, leafIndex) => Deposit(commitment, leafIndex, line.block)
    case WithdrawalData(nullifierHash, recipient, relayer, fee) =>
      Withdrawal(nullifierHash, recipient, relayer, fee, line.block)
  }

  function WantedCount(range: Range, lines: seq<Line>, n: nat): nat
    requires n <= |lines|
  {
    if n == 0 then 0 else WantedCount(range, lines, n - 1) + if Wanted(range, lines[n - 1]) then 1 else 0
  }

  lemma {:induction false} ParsedInOrder(chunk: Chunk, range: Range, n: nat, i: nat)
    requires n <= |chunk.lines| && Parsed(chunk, range, n).Ok?
    ensures |Parsed(chunk, range, n).value.events| == WantedCount(range, chunk.lines, n)
    ensures i < n && Wanted(range, chunk.lines[i]) ==>
      var k := WantedCount(range, chunk.lines, i);
      k < |Parsed(chunk, range, n).value.events|
      && Parsed(chunk, range, n).value.events[k] == EventFor(chunk.lines[i])
  {
    if n > 0 {
      ParsedInOrder(chunk, range, n - 1, i);
    }
  }

  /** The events parsed are those of the lines of interest, each at its place among these lines. */
  lemma EventsInOrder(chunk: Chunk, range: Range, i: nat)
    requires EventsOf(chunk, range).Ok?
    ensures |EventsOf(chunk, range).value| == WantedCount(range, chunk.lines, |chunk.lines|)
    ensures i < |chunk.lines| && Wanted(range, chunk.lines[i]) ==>
      var k := WantedCount(range, chunk.lines, i);
      k < |EventsOf(chunk, range).value| && EventsOf(chunk, range).value[k] == EventFor(chunk.lines[i])
  {
    ParsedInOrder(chunk, range, |chunk.lines|, i);
  }

  // ---------- the clamped range ----------

  /**
   A block is synced exactly when it was asked for, is not before the deployment, and is before the
   end of the last chunk, if there is one at all.
   */
  lemma ClampedExact(chunks: seq<Chunk>, deployed: u64, fromBlock: u64, toBlock: u64, block: nat)
    ensures Clamped(chunks, deployed, fromBlock, toBlock).Contains(block) <==>
      && fromBlock <= block < toBlock && deployed <= block
      && chunks != [] && block < chunks[|chunks| - 1].toBlock
  {
  }

  /** A synced batch holds exactly the events of interest of the published lines in the clamped range. */
  lemma SyncedContents<P>(pool: P, deployed: u64, chunks: seq<Chunk>, fromBlock: u64, toBlock: u64, event: SyncEvent)
    requires Synced(pool, deployed, chunks, fromBlock, toBlock).Ok?
    ensures var range := Clamped(chunks, deployed, fromBlock, toBlock);
            event in Synced(pool, deployed, chunks, fromBlock, toBlock).value.events <==>
            exists c, i :: 0 <= c < |chunks| && PublishedAt(chunks[c], range, i, event)
  {
    var range := Clamped(chunks, deployed, fromBlock, toBlock);
    SyncedExact(pool, deployed, chunks, fromBlock, toBlock);
    CollectedContents(chunks, range, |chunks|, event);
  }

  /** Line `i` publishes the event, in a chunk whose declared range meets the range. */
  predicate PublishedAt(chunk: Chunk, range: Range, i: int, event: SyncEvent) {
    && 0 <= i < |chunk.lines| && Wanted(range, chunk.lines[i]) && event == EventFor(chunk.lines[i])
    && chunk.fromBlock < range.end && range.start < chunk.toBlock
  }

  lemma {:induction false} CollectedContents(chunks: seq<Chunk>, range: Range, n: nat, event: SyncEvent)
    requires n <= |chunks| && Collected(chunks, range, n).Ok?
    ensures event in Collected(chunks, range, n).value <==>
      exists c, i :: 0 <= c < n && PublishedAt(chunks[c], range, i, event)
  {
    if n > 0 {
      CollectedContents(chunks, range, n - 1, event);
      if Overlaps(chunks[n - 1], range) {
        ParsedContents(chunks[n - 1], range, |chunks[n - 1].lines|, event);
      }
    }
  }

  lemma {:induction false} ParsedContents(chunk: Chunk, range: Range, n: nat, event: SyncEvent)
    requires n <= |chunk.lines| && Parsed(chunk, range, n).Ok? && Overlaps(chunk, range)
    ensures event in Parsed(chunk, range, n).value.events <==>
      exists i :: 0 <= i < n && PublishedAt(chunk, range, i, event)
  {
    if n > 0 {
      ParsedContents(chunk, range, n - 1, event);
      assert Wanted(range, chunk.lines[n - 1]) && event == EventFor(chunk.lines[n - 1]) ==>
          PublishedAt(chunk, range, n - 1, event);
    }
  }
}
