/** One chunk's logs, fetched range by range from an unreliable provider. */
module ChunkQuery {
  import opened BlockRanges
  import opened Wrappers
  import opened Arithmetic
  import opened Pacing

  /** The most `query_range` calls a range can lead to. */
  function Calls(range: Range): nat { if range.NonEmpty() then 2 * range.Len() - 1 else 0 }

  /**
   The logs of every block. A provider built on it answers `a..c` with the logs of `a..b` followed by
   those of `b..c`, which is all that is assumed of one.
   */
  datatype Chain<!Log> = Chain(block: nat -> seq<Log>) {
    function Logs(start: nat, end: nat): seq<Log>
      decreases end
    {
      if end <= start then [] else Logs(start, end - 1) + block(end - 1)
    }

    lemma {:induction false} LogsSplit(a: nat, b: nat, c: nat)
      requires a <= b <= c
      ensures Logs(a, c) == Logs(a, b) + Logs(b, c)
      decreases c
    {
      if b < c {
        LogsSplit(a, b, c - 1);
        assert Logs(a, b) + (Logs(b, c - 1) + block(c - 1)) == (Logs(a, b) + Logs(b, c - 1)) + block(c - 1);
      }
    }
  }

  datatype Failure = RateLimited | Other

  /** What the provider may answer; a rate limit may carry a back-off hint. */
  datatype Answer<Log> = Served(logs: seq<Log>) | Limited(hint: Option<nat>) | Refused

  // ---------- stacks of pending ranges ----------

  /** `stack`, popped from its back, covers `from..to` in order, without gap or overlap. */
  predicate Covers(stack: seq<Range>, from: nat, to: nat) {
    if stack == [] then from == to
    else
      var top := stack[|stack| - 1];
      top.start == from && top.NonEmpty() && Covers(stack[..|stack| - 1], top.end, to)
  }

  /** The most `query_range` calls a stack of ranges can lead to. */
  function Budget(stack: seq<Range>): nat {
    if stack == [] then 0 else Budget(stack[..|stack| - 1]) + Calls(stack[|stack| - 1])
  }

  lemma {:induction false} CoversNonEmpty(stack: seq<Range>, from: nat, to: nat)
    requires Covers(stack, from, to)
    ensures from <= to && forall r :: r in stack ==> r.NonEmpty() && from <= r.start && r.end <= to
  {
    if stack != [] {
      CoversNonEmpty(stack[..|stack| - 1], stack[|stack| - 1].end, to);
    }
  }

  /** Popping takes the leftmost range off the cover. */
  lemma PopTop(stack: seq<Range>, from: nat, to: nat)
    requires stack != [] && Covers(stack, from, to)
    ensures var top, rest := stack[|stack| - 1], stack[..|stack| - 1];
            && top.start == from < top.end <= to && Covers(rest, top.end, to)
            && Budget(stack) == Budget(rest) + (2 * top.Len() - 1)
  {
    CoversNonEmpty(stack, from, to);
  }

  /** Halving the top keeps the cover and costs one call. */
  lemma SplitTop(rest: seq<Range>, range: Range, mid: nat, to: nat)
    requires range.start < mid < range.end && Covers(rest, range.end, to)
    ensures var halved := rest + [Range(mid, range.end)] + [Range(range.start, mid)];
            && Covers(halved, range.start, to)
            && Budget(halved) == Budget(rest) + 2 * range.Len() - 2
  {
    var right := rest + [Range(mid, range.end)];
    var halved := right + [Range(range.start, mid)];
    assert right[..|right| - 1] == rest && halved[..|halved| - 1] == right;
  }

  // ---------- the queries ----------

  /** A clock that never runs backwards, advanced by an arbitrary wait. */
  class Clock {
    var now: nat

    method Wait()
      modifies this
      ensures now >= old(now)
    {
      var elapsed: nat :| true;
      now := now + elapsed;
    }
  }

  /** Other tasks of the same stream may run at every await: they leave any state with a size of one or more. */
  method Await(state: State, clock: Clock)
    requires state.size >= 1
    modifies state, clock
    ensures state.size >= 1 && clock.now >= old(clock.now)
    ensures state.calls == old(state.calls) && state.shrinks == old(state.shrinks)
  {
    clock.Wait();
    var size: nat, delay: nat, until: Option<nat> :| size >= 1;
    state.size, state.delay, state.pausedUntil := size, delay, until;
  }

  /** An arbitrary answer, right whenever it holds logs. */
  method GetLogs<Log>(chain: Chain<Log>, range: Range) returns (answer: Answer<Log>)
    ensures answer.Served? ==> answer.logs == chain.Logs(range.start, range.end)
  {
    var choice: nat, hint: Option<nat> :| true;
    answer := if choice == 0 then Served(chain.Logs(range.start, range.end))
              else if choice == 1 then Limited(hint)
              else Refused;
  }

  /** Waits until a slot has come. */
  method SleepUntil(state: State, clock: Clock, slot: nat)
    requires state.size >= 1
    modifies state, clock
    ensures state.size >= 1 && clock.now >= old(clock.now) && clock.now >= slot
    ensures state.calls == old(state.calls) && state.shrinks == old(state.shrinks)
  {
    Await(state, clock);
    if clock.now < slot {
      clock.now := slot;
    }
  }

  /**
   One request: when its slot was claimed, that slot if it had to wait, when it was sent and answered,
   and the hint of its rate limit, if it had any.
   */
  datatype Attempt = Attempt(claimed: nat, slot: Option<nat>, sent: nat, answered: nat, hint: Option<nat>)

  /** The pacing calls of attempts that were rate limited: each claims a slot and then pauses. */
  function LimitedCalls(config: Config, attempts: seq<Attempt>): seq<Call> {
    if attempts == [] then []
    else
      var last := attempts[|attempts| - 1];
      LimitedCalls(config, attempts[..|attempts| - 1])
        + [ClaimCall(config.Stagger(), last.claimed), PauseCall(last.hint, config.maxDelay, last.answered)]
  }

  lemma LimitedSnoc(config: Config, calls: seq<Call>, attempts: seq<Attempt>, last: Attempt)
    ensures calls + LimitedCalls(config, attempts + [last]) ==
      calls + LimitedCalls(config, attempts)
        + [ClaimCall(config.Stagger(), last.claimed)] + [PauseCall(last.hint, config.maxDelay, last.answered)]
    ensures (attempts + [last])[..|attempts + [last]| - 1] == attempts
  {
    assert (attempts + [last])[..|attempts|] == attempts;
  }

  /** The attempts follow one another between two times, and no request was sent before its slot. */
  ghost predicate Timed(attempts: seq<Attempt>, from: nat, to: nat) {
    && from <= to
    && (forall i :: 0 <= i < |attempts| ==>
          && from <= attempts[i].claimed <= attempts[i].sent <= attempts[i].answered <= to
          && (attempts[i].slot.Some? ==> attempts[i].slot.value <= attempts[i].sent))
    && (forall i, j :: 0 <= i < j < |attempts| ==> attempts[i].answered <= attempts[j].claimed)
  }

  lemma TimedSnoc(attempts: seq<Attempt>, from: nat, to: nat, last: Attempt)
    requires Timed(attempts, from, to) && to <= last.claimed <= last.sent <= last.answered
    requires last.slot.Some? ==> last.slot.value <= last.sent
    ensures Timed(attempts + [last], from, last.answered)
  {
  }

  /**
   Queries one range until it is answered, refused, or rate limited once too often. `attempts` lists
   the requests; all but the last were rate limited and waited out.
   */
  method QueryRange<Log>(config: Config, chain: Chain<Log>, state: State, clock: Clock, range: Range)
    returns (r: Result<seq<Log>, Failure>, ghost attempts: seq<Attempt>)
    requires range.NonEmpty() && state.size >= 1
    modifies state, clock
    ensures state.size >= 1
    ensures r.Ok? ==> r.value == chain.Logs(range.start, range.end)
    ensures 1 <= |attempts| <= config.maxRetries + 1
    ensures r == Err(RateLimited) ==> |attempts| == config.maxRetries + 1
    ensures Timed(attempts, old(clock.now), clock.now)
    ensures state.calls == old(state.calls) + LimitedCalls(config, attempts[..|attempts| - 1])
      + [ClaimCall(config.Stagger(), attempts[|attempts| - 1].claimed)]
      + if r.Ok? then [SucceedCall(config.baseDelay)] else []
    ensures state.shrinks == old(state.shrinks)
  {
    attempts := [];
    var retries := 0;
    while true
      invariant retries == |attempts| <= config.maxRetries && state.size >= 1
      invariant Timed(attempts, old(clock.now), clock.now)
      invariant state.calls == old(state.calls) + LimitedCalls(config, attempts)
      invariant state.shrinks == old(state.shrinks)
      decreases config.maxRetries - retries
    {
      ghost var claimed := clock.now;
      var slot := state.ClaimSlot(config.Stagger(), clock.now);
      if slot.Some? {
        SleepUntil(state, clock, slot.value);
      }
      ghost var sent := clock.now;
      Await(state, clock);
      var answer := GetLogs(chain, range);
      ghost var before := attempts;
      ghost var attempt := Attempt(claimed, slot, sent, clock.now, if answer.Limited? then answer.hint else None);
      LimitedSnoc(config, old(state.calls), before, attempt);
      TimedSnoc(before, old(clock.now), claimed, attempt);
      attempts := before + [attempt];
      match answer {
        case Served(logs) =>
          state.Succeed(config.baseDelay);
          return Ok(logs), attempts;
        case Refused =>
          return Err(Other), attempts;
        case Limited(hint) =>
          if retries >= config.maxRetries {
            return Err(RateLimited), attempts;
          }
          retries := retries + 1;
          state.Pause(hint, config.maxDelay, clock.now);
      }
    }
  }

  /** The same, as far as a chunk depends on it: `sent` counts the requests. */
  method QueryCounted<Log>(config: Config, chain: Chain<Log>, state: State, clock: Clock, range: Range)
    returns (r: Result<seq<Log>, Failure>, ghost sent: nat)
    requires range.NonEmpty() && state.size >= 1
    modifies state, clock
    ensures state.size >= 1 && state.shrinks == old(state.shrinks)
    ensures r.Ok? ==> r.value == chain.Logs(range.start, range.end)
    ensures r == Err(RateLimited) ==> sent == config.maxRetries + 1
  {
    ghost var attempts;
    r, attempts := QueryRange(config, chain, state, clock, range);
    sent := |attempts|;
  }

  /** `after` lists the sizes `before` and then half of each halved range, rounded down. */
  predicate Shrunk(before: seq<nat>, halved: seq<Range>, after: seq<nat>) {
    if halved == [] then after == before
    else
      && after != [] && after[|after| - 1] == Quotient(halved[|halved| - 1].Len(), 2)
      && Shrunk(before, halved[..|halved| - 1], after[..|after| - 1])
  }

  lemma ShrunkSnoc(before: seq<nat>, halved: seq<Range>, after: seq<nat>, range: Range)
    requires Shrunk(before, halved, after) && range.NonEmpty()
    ensures Shrunk(before, halved + [range], after + [range.Mid() - range.start])
  {
    assert (halved + [range])[..|halved|] == halved;
    assert (after + [range.Mid() - range.start])[..|after|] == after;
  }

  /** Puts the halves of a refused range back, the left one last, and shrinks the chunk size to it. */
  method Halve(state: State, rest: seq<Range>, range: Range, ghost to: nat) returns (stack: seq<Range>)
    requires range.Len() > 1 && Covers(rest, range.end, to)
    modifies state
    ensures state.Value() == old(state.Value()).Shrunk(range.Mid() - range.start)
    ensures state.shrinks == old(state.shrinks) + [range.Mid() - range.start] && state.calls == old(state.calls)
    ensures Covers(stack, range.start, to)
    ensures |stack| == |rest| + 2 && Budget(stack) == Budget(rest) + 2 * range.Len() - 2
    ensures state.size >= 1
  {
    var mid := range.Mid();
    state.Shrink(mid - range.start);
    SplitTop(rest, range, mid, to);
    stack := rest + [Range(mid, range.end)];
    stack := stack + [Range(range.start, mid)];
  }

  /**
   Fetches a chunk by working through a stack of ranges. Each `query_range` call has its range in
   `served`, in `halved`, or, if its failure ends the chunk, in `failed`; `attempts` counts the
   requests of that last call.
   */
  method QueryChunk<Log>(config: Config, chain: Chain<Log>, state: State, clock: Clock, chunk: Range)
    returns (r: Result<seq<Log>, Failure>, ghost served: seq<Range>, ghost halved: seq<Range>, ghost failed: Range,
             ghost attempts: nat)
    requires chunk.NonEmpty() && state.size >= 1
    modifies state, clock
    ensures state.size >= 1
    ensures |served| + |halved| + (if r.Err? then 1 else 0) <= 2 * chunk.Len() - 1
    ensures Shrunk(old(state.shrinks), halved, state.shrinks)
    ensures r.Ok? ==>
      && r.value == chain.Logs(chunk.start, chunk.end)
      && InOrder(served, chunk.start, chunk.end)
      && |served| == |halved| + 1
    ensures r.Err? ==>
      && chunk.start <= failed.start < failed.end <= chunk.end
      && InOrder(served, chunk.start, failed.start)
      && (r.error.Other? ==> failed.Len() == 1)
      && (r.error.RateLimited? ==> attempts == config.maxRetries + 1)
  {
    var logs: seq<Log> := [];
    var pending := [chunk];
    served, halved, failed, attempts := [], [], chunk, 0;
    ghost var cursor := chunk.start;
    while pending != []
      invariant state.size >= 1
      invariant Covers(pending, cursor, chunk.end)
      invariant chunk.start <= cursor && logs == chain.Logs(chunk.start, cursor)
      invariant InOrder(served, chunk.start, cursor)
      invariant |served| + |halved| + Budget(pending) <= 2 * chunk.Len() - 1
      invariant |served| + |pending| == |halved| + 1
      invariant Shrunk(old(state.shrinks), halved, state.shrinks)
      decreases 2 * chunk.Len() - |served| - |halved|
    {
      PopTop(pending, cursor, chunk.end);
      var range := pending[|pending| - 1];
      pending := pending[..|pending| - 1];
      var found, sent := QueryCounted(config, chain, state, clock, range);
      if found.Ok? {
        chain.LogsSplit(chunk.start, range.start, range.end);
        InOrderSnoc(served, range, chunk.start);
        logs := logs + found.value;
        served, cursor := served + [range], range.end;
        continue;
      }
      if found.error.RateLimited? || range.end - range.start <= 1 {
        failed, attempts := range, sent;
        return Err(found.error), served, halved, failed, attempts;
      }
      ShrunkSnoc(old(state.shrinks), halved, state.shrinks, range);
      pending := Halve(state, pending, range, chunk.end);
      halved := halved + [range];
    }
    r := Ok(logs);
  }

  /** `ranges` follow one another from `from` to `to`: each block of `from..to` is in exactly one of them. */
  predicate InOrder(ranges: seq<Range>, from: nat, to: nat) {
    if ranges == [] then from == to
    else ranges[0].start == from && ranges[0].NonEmpty() && InOrder(ranges[1..], ranges[0].end, to)
  }

  lemma {:induction false} InOrderSnoc(ranges: seq<Range>, last: Range, from: nat)
    requires InOrder(ranges, from, last.start) && last.NonEmpty()
    ensures InOrder(ranges + [last], from, last.end)
  {
    if ranges != [] {
      InOrderSnoc(ranges[1..], last, ranges[0].end);
      assert (ranges + [last])[1..] == ranges[1..] + [last];
    }
  }

  /** The chunk that starts at `start` when the chunk size is `size`. */
  function ChunkFrom(start: nat, size: nat, end: nat): Range { Range(start, Min(start + size, end)) }

  /** The lazy splitting of a range: each chunk takes the chunk size of the moment it is asked for. */
  class ChunkRanges {
    ghost const first: nat
    const end: nat
    var start: nat
    /** The chunks handed out so far. */
    ghost var given: seq<Range>

    ghost predicate Valid()
      reads this
    {
      InOrder(given, first, start) && first <= start <= Max(first, end)
    }

    constructor (range: Range)
      ensures Valid() && given == [] && first == start == range.start && end == range.end
    {
      first, end, start, given := range.start, range.end, range.start, [];
    }

    /**
     However the size changes between the calls, the chunks given follow one another and end up covering
     the range.
     */
    method Next(state: State) returns (chunk: Option<Range>)
      requires Valid() && state.size >= 1
      modifies this
      ensures Valid()
      ensures match chunk
              case None => given == old(given) && start == old(start) && InOrder(given, first, Max(first, end))
              case Some(next) =>
                && given == old(given) + [next] && start == next.end
                && next.start == old(start) && next.NonEmpty() && next.end <= end
                && next.Len() <= state.size && (next.end < end ==> next.Len() == state.size)
    {
      if start >= end {
        return None;
      }
      var next := ChunkFrom(start, state.size, end);
      InOrderSnoc(given, next, first);
      start, given := next.end, given + [next];
      chunk := Some(next);
    }
  }

  /** Each block of the range is in exactly one of the ranges. */
  lemma {:induction false} InOrderServesOnce(ranges: seq<Range>, from: nat, to: nat, block: nat)
    requires InOrder(ranges, from, to)
    ensures Serving(ranges, block) == if from <= block < to then 1 else 0
    ensures from <= to
  {
    if ranges != [] {
      InOrderServesOnce(ranges[1..], ranges[0].end, to, block);
    }
  }

  /** How many of the ranges contain a block. */
  function Serving(ranges: seq<Range>, block: nat): nat {
    if ranges == [] then 0
    else (if ranges[0].start <= block < ranges[0].end then 1 else 0) + Serving(ranges[1..], block)
  }
}
