/** What every run of the log stream keeps, and that every run ends. */
module LogStreamRuns {
  import opened BlockRanges
  import opened Arithmetic
  import opened Pacing
  import opened ChunkQuery
  import opened LogStream

  // ---------- safety ----------

  function Chunks<Log>(tasks: seq<Task<Log>>): seq<Range> {
    seq(|tasks|, i requires 0 <= i < |tasks| => tasks[i].chunk)
  }

  /** The first block whose chunk has not left the buffer. */
  function Head<Log>(s: System<Log>): nat {
    if s.tasks == [] then s.next else s.tasks[0].chunk.start
  }

  ghost predicate SystemOk<Log>(config: Config, chain: Chain<Log>, range: Range, s: System<Log>) {
    && s.pace.size >= 1
    && |s.tasks| <= config.Concurrency()
    && (forall i :: 0 <= i < |s.tasks| ==> TaskOk(config, chain, s.tasks[i]))
    && match s.status
       case Running =>
         && range.start <= Head(s) && s.next <= Max(range.start, range.end)
         && InOrder(Chunks(s.tasks), Head(s), s.next)
         && s.emitted + s.outbox == chain.Logs(range.start, Head(s))
       case Done => s.emitted == chain.Logs(range.start, range.end)
       case Broken(chunk, failure, at, attempts) =>
         && range.start <= chunk.start < chunk.end <= range.end
         && s.emitted == chain.Logs(range.start, chunk.start)
         && chunk.start <= at.start < at.end <= chunk.end
         && (failure.Other? ==> at.Len() == 1)
         && (failure.RateLimited? ==> attempts == config.maxRetries + 1)
  }

  /** The system once `chunk` is in the buffer. */
  function Started<Log>(s: System<Log>, chunk: Range): System<Log> {
    s.(next := chunk.end, tasks := s.tasks + [Task(chunk, [chunk], [], Ready, 0, 0)])
  }

  lemma StartIs<Log>(config: Config, chain: Chain<Log>, range: Range, s: System<Log>)
    requires s.status.Running? && |s.tasks| < config.Concurrency() && s.next < range.end
    ensures Step(config, chain, range, s, Start) == Started(s, ChunkFrom(s.next, s.pace.size, range.end))
  {
  }

  lemma StartOk<Log>(config: Config, chain: Chain<Log>, range: Range, s: System<Log>)
    requires SystemOk(config, chain, range, s) && s.status.Running?
    ensures SystemOk(config, chain, range, Step(config, chain, range, s, Start))
  {
    var s' := Step(config, chain, range, s, Start);
    if |s.tasks| < config.Concurrency() && s.next < range.end {
      var chunk := ChunkFrom(s.next, s.pace.size, range.end);
      NewTaskOk(config, chain, chunk);
      assert Chunks(s'.tasks) == Chunks(s.tasks) + [chunk];
      InOrderSnoc(Chunks(s.tasks), chunk, Head(s));
      assert Head(s') == Head(s);
    }
  }

  /** A task that keeps its chunk and its own invariant may replace itself. */
  lemma ReplaceTaskOk<Log>(config: Config, chain: Chain<Log>, range: Range, s: System<Log>, i: nat, t: Task<Log>,
          pace: Pace)
    requires SystemOk(config, chain, range, s) && s.status.Running? && i < |s.tasks|
    requires TaskOk(config, chain, t) && t.chunk == s.tasks[i].chunk && pace.size >= 1
    ensures SystemOk(config, chain, range, Moved(s, i, t, pace))
  {
    var s' := Moved(s, i, t, pace);
    assert Chunks(s'.tasks) == Chunks(s.tasks) && Head(s') == Head(s);
    assert forall j :: 0 <= j < |s.tasks| ==> TaskOk(config, chain, s'.tasks[j]);
  }

  predicate Moves(action: Action) { action.Pop? || action.Claim? || action.Wake? || action.Receive? }

  /** What a task's possible step makes of the system. */
  function Moved<Log>(s: System<Log>, i: nat, t: Task<Log>, pace: Pace): System<Log>
    requires i < |s.tasks|
  {
    s.(tasks := s.tasks[i := t], pace := pace)
  }

  lemma MoveIs<Log>(config: Config, chain: Chain<Log>, range: Range, s: System<Log>, action: Action)
    requires s.status.Running? && Moves(action)
    ensures Step(config, chain, range, s, action) ==
      if action.i < |s.tasks| && TaskStep(config, chain, s.tasks[action.i], s.pace, s.now, action).Some? then
        var (t, pace) := TaskStep(config, chain, s.tasks[action.i], s.pace, s.now, action).value;
        Moved(s, action.i, t, pace)
      else s
  {
  }

  lemma MoveOk<Log>(config: Config, chain: Chain<Log>, range: Range, s: System<Log>, action: Action)
    requires SystemOk(config, chain, range, s) && s.status.Running? && Moves(action)
    ensures SystemOk(config, chain, range, Step(config, chain, range, s, action))
    ensures Step(config, chain, range, s, action).pace.size <= s.pace.size
  {
    MoveIs(config, chain, range, s, action);
    if action.i < |s.tasks| {
      var t := s.tasks[action.i];
      var moved := TaskStep(config, chain, t, s.pace, s.now, action);
      if moved.Some? {
        TaskStepOk(config, chain, t, s.pace, s.now, action);
        ReplaceTaskOk(config, chain, range, s, action.i, moved.value.0, moved.value.1);
      }
    }
  }

  lemma YieldOk<Log>(config: Config, chain: Chain<Log>, range: Range, s: System<Log>)
    requires SystemOk(config, chain, range, s) && s.status.Running?
    ensures SystemOk(config, chain, range, Step(config, chain, range, s, Yield))
  {
    if s.outbox == [] && s.tasks != [] {
      var t, chunks, s' := s.tasks[0], Chunks(s.tasks), Step(config, chain, range, s, Yield);
      assert chunks[0] == t.chunk && chunks[1..] == Chunks(s.tasks[1..]);
      InOrderServesOnce(chunks[1..], t.chunk.end, s.next, 0);
      chain.LogsSplit(range.start, t.chunk.start, t.chunk.end);
      assert s.emitted + s.outbox == s.emitted;
      if t.phase.Finished? {
        assert s.tasks[1..] != [] ==> chunks[1..][0] == s.tasks[1].chunk;
        assert Head(s') == t.chunk.end;
      }
    }
  }

  lemma EmitOk<Log>(config: Config, chain: Chain<Log>, range: Range, s: System<Log>)
    requires SystemOk(config, chain, range, s) && s.status.Running?
    ensures SystemOk(config, chain, range, Step(config, chain, range, s, Emit))
  {
    if s.outbox != [] {
      assert (s.emitted + [s.outbox[0]]) + s.outbox[1..] == s.emitted + s.outbox;
    }
  }

  lemma FinishOk<Log>(config: Config, chain: Chain<Log>, range: Range, s: System<Log>)
    requires SystemOk(config, chain, range, s) && s.status.Running?
    ensures SystemOk(config, chain, range, Step(config, chain, range, s, Finish))
  {
    if s.outbox == [] {
      assert s.emitted + s.outbox == s.emitted;
    }
  }

  lemma StepOk<Log>(config: Config, chain: Chain<Log>, range: Range, s: System<Log>, action: Action)
    requires SystemOk(config, chain, range, s)
    ensures SystemOk(config, chain, range, Step(config, chain, range, s, action))
  {
    if s.status.Running? {
      match action
      case Tick(_) =>
      case Start => StartOk(config, chain, range, s);
      case Yield => YieldOk(config, chain, range, s);
      case Emit => EmitOk(config, chain, range, s);
      case Finish => FinishOk(config, chain, range, s);
      case _ => MoveOk(config, chain, range, s, action);
    }
  }

  /**
   In every interleaving: at most `Concurrency()` chunks are in flight, they and the unstarted tail
   cover exactly the blocks not yet emitted; a finished run has emitted the logs of the whole range,
   and a broken one exactly those of the chunks before the first failed one.
   */
  lemma {:induction false} AfterOk<Log>(config: Config, chain: Chain<Log>, range: Range, actions: seq<Action>)
    ensures SystemOk(config, chain, range, After(config, chain, range, actions))
  {
    if actions == [] {
      assert chain.Logs(range.start, range.start) == [];
    } else {
      AfterOk(config, chain, range, actions[..|actions| - 1]);
      StepOk(config, chain, range, After(config, chain, range, actions[..|actions| - 1]), actions[|actions| - 1]);
    }
  }

  /** In every run no more chunks are in flight than are allowed at once, one if none are. */
  lemma InFlightBounded<Log>(config: Config, chain: Chain<Log>, range: Range, actions: seq<Action>)
    ensures var c := if config.maxConcurrent == 0 then 1 else config.maxConcurrent;
            |After(config, chain, range, actions).tasks| <= c
  {
    AfterOk(config, chain, range, actions);
    StaggerExact(config);
  }

  /**
   While there is room and something left, a chunk can start: it takes the chunk size of the moment,
   or what is left if that is less.
   */
  lemma StartsWhileRoom<Log>(config: Config, chain: Chain<Log>, range: Range, s: System<Log>)
    requires s.status.Running? && s.next < range.end
    requires |s.tasks| < if config.maxConcurrent == 0 then 1 else config.maxConcurrent
    ensures var s' := Step(config, chain, range, s, Start);
            && |s'.tasks| == |s.tasks| + 1 && s'.tasks[..|s.tasks|] == s.tasks
            && var chunk := s'.tasks[|s.tasks|].chunk;
               && chunk.start == s.next && chunk.end == s'.next <= range.end
               && chunk.Len() <= s.pace.size && (chunk.end < range.end ==> chunk.Len() == s.pace.size)
  {
    StaggerExact(config);
    StartIs(config, chain, range, s);
  }

  /** In every run the logs emitted so far are a prefix of the range's logs, in block order. */
  lemma EmittedIsPrefix<Log>(config: Config, chain: Chain<Log>, range: Range, actions: seq<Action>)
    ensures After(config, chain, range, actions).emitted <= chain.Logs(range.start, range.end)
  {
    AfterOk(config, chain, range, actions);
    var s := After(config, chain, range, actions);
    match s.status
    case Running => DeliveredIsPrefix(config, chain, range, s);
    case Done =>
    case Broken(chunk, _, _, _) => chain.LogsSplit(range.start, chunk.start, range.end);
  }

  lemma DeliveredIsPrefix<Log>(config: Config, chain: Chain<Log>, range: Range, s: System<Log>)
    requires SystemOk(config, chain, range, s) && s.status.Running?
    ensures s.emitted + s.outbox <= chain.Logs(range.start, range.end)
    ensures Head(s) <= s.next
  {
    InOrderServesOnce(Chunks(s.tasks), Head(s), s.next, 0);
    if range.start <= range.end {
      chain.LogsSplit(range.start, Head(s), range.end);
    } else {
      assert chain.Logs(range.start, Head(s)) == [];
    }
  }

  /** The chunk size in use never grows along a run. */
  lemma SizeNeverGrows<Log>(config: Config, chain: Chain<Log>, range: Range, actions: seq<Action>, action: Action)
    ensures var s := After(config, chain, range, actions);
            1 <= After(config, chain, range, actions + [action]).pace.size <= s.pace.size
  {
    AfterOk(config, chain, range, actions);
    assert (actions + [action])[..|actions|] == actions;
    var s := After(config, chain, range, actions);
    StepOk(config, chain, range, s, action);
    if s.status.Running? && Moves(action) {
      MoveOk(config, chain, range, s, action);
    }
  }

  /** No chunk of `n` blocks ever makes more than `2n - 1` calls or `(2n - 1) * (maxRetries + 1)` requests. */
  lemma RequestsBounded<Log>(config: Config, chain: Chain<Log>, range: Range, actions: seq<Action>, i: nat)
    requires i < |After(config, chain, range, actions).tasks|
    ensures var t := After(config, chain, range, actions).tasks[i];
            && t.calls <= 2 * t.chunk.Len() - 1
            && t.requests <= (2 * t.chunk.Len() - 1) * (config.maxRetries + 1)
  {
    AfterOk(config, chain, range, actions);
    var t := After(config, chain, range, actions).tasks[i];
    CallsBounded(config, chain, t);
    RequestsWithin(config, t.calls, 2 * t.chunk.Len() - 1, t.requests);
  }

  lemma CallsBounded<Log>(config: Config, chain: Chain<Log>, t: Task<Log>)
    requires TaskOk(config, chain, t)
    ensures t.calls <= 2 * t.chunk.Len() - 1 && t.requests <= MaxRequests(config, t.calls)
  {
    if t.calls > 0 {
      assert MaxRequests(config, t.calls) == MaxRequests(config, t.calls - 1) + config.maxRetries + 1;
    }
  }

  lemma RequestsWithin(config: Config, calls: nat, n: nat, requests: nat)
    requires requests <= MaxRequests(config, calls) && calls <= n
    ensures requests <= n * (config.maxRetries + 1)
  {
    MaxRequestsClosed(config, calls);
    MulMonotone(calls, n, config.maxRetries + 1);
  }

  // ---------- termination ----------

  /** The most steps one `query_range` call takes. */
  function PerCall(config: Config): nat { 3 * config.maxRetries + 4 }

  /** The `query_range` calls a task may still make, beyond the current one. */
  function CallsLeft<Log>(t: Task<Log>): nat {
    Budget(t.pending) + if t.phase.Active() == [] || !t.phase.range.NonEmpty() then 0 else 2 * t.phase.range.Len() - 2
  }

  function PhaseCost(config: Config, phase: Phase): nat {
    match phase
    case Ready => 1
    case Claiming(_, retries) => 3 * Left(config, retries) + 4
    case Sleeping(_, retries, _) => 3 * Left(config, retries) + 3
    case Requesting(_, retries) => 3 * Left(config, retries) + 2
    case Finished => 0
    case Failed(_, _, _) => 0
  }

  function Left(config: Config, retries: nat): nat {
    if retries <= config.maxRetries then config.maxRetries - retries else 0
  }

  /** The most steps that many calls take. */
  function CallCost(config: Config, calls: nat): nat {
    if calls == 0 then 0 else CallCost(config, calls - 1) + PerCall(config)
  }

  lemma {:induction false} CallCostClosed(config: Config, calls: nat)
    ensures CallCost(config, calls) == calls * PerCall(config)
  {
    if calls > 0 {
      CallCostClosed(config, calls - 1);
      MulDistribute(calls - 1, 1, PerCall(config));
    }
  }

  lemma {:induction false} CallCostMonotone(config: Config, m: nat, n: nat)
    requires m <= n
    ensures CallCost(config, m) <= CallCost(config, n)
  {
    if m < n {
      CallCostMonotone(config, m, n - 1);
    }
  }

  /** A bound on the steps a task can still take. */
  function TaskCost<Log>(config: Config, t: Task<Log>): nat {
    if t.phase.Finished? || t.phase.Failed? then 0
    else CallCost(config, CallsLeft(t)) + PhaseCost(config, t.phase)
  }

  lemma TaskCostDrops<Log>(config: Config, chain: Chain<Log>, t: Task<Log>, pace: Pace, now: nat, action: Action)
    requires TaskOk(config, chain, t)
    requires TaskStep(config, chain, t, pace, now, action).Some?
    ensures TaskCost(config, TaskStep(config, chain, t, pace, now, action).value.0) < TaskCost(config, t)
  {
    match action
    case Pop(_) =>
      if t.pending != [] {
        PopCost(config, chain, t, t.pending[..|t.pending| - 1], t.pending[|t.pending| - 1]);
      }
    case Claim(_) => ClaimCost(config, chain, t, pace, now, action);
    case Wake(_) => SentCost(config, t);
    case Receive(_, reply) => ReceivedCost(config, chain, t, pace, now, reply);
  }

  lemma ClaimCost<Log>(config: Config, chain: Chain<Log>, t: Task<Log>, pace: Pace, now: nat, action: Action)
    requires action.Claim? && t.phase.Claiming?
    ensures TaskCost(config, TaskStep(config, chain, t, pace, now, action).value.0) < TaskCost(config, t)
  {
    SentCost(config, t);
    var slot := pace.Claimed(config.Stagger(), now).1;
    if slot.Some? {
      SameRangeCost(config, t, Sleeping(t.phase.range, t.phase.retries, slot.value), t.requests);
    }
  }

  /** Moving on within one range costs no further calls. */
  lemma SameRangeCost<Log>(config: Config, t: Task<Log>, phase: Phase, requests: nat)
    requires t.phase.Active() != [] && phase.Active() == t.phase.Active()
    requires PhaseCost(config, phase) < PhaseCost(config, t.phase)
    ensures TaskCost(config, t.(phase := phase, requests := requests)) < TaskCost(config, t)
  {
    assert CallsLeft(t.(phase := phase, requests := requests)) == CallsLeft(t);
  }

  lemma SentCost<Log>(config: Config, t: Task<Log>)
    requires t.phase.Claiming? || t.phase.Sleeping?
    ensures TaskCost(config, Sent(t)) < TaskCost(config, t)
  {
    SameRangeCost(config, t, Requesting(t.phase.range, t.phase.retries), t.requests + 1);
  }

  lemma ReceivedCost<Log>(config: Config, chain: Chain<Log>, t: Task<Log>, pace: Pace, now: nat, reply: Reply)
    requires TaskOk(config, chain, t) && t.phase.Requesting?
    ensures TaskCost(config, Received(config, chain, t, pace, now, reply).0) < TaskCost(config, t)
  {
    match reply
    case Serve => ServeCost(config, t, t.logs + chain.Logs(t.phase.range.start, t.phase.range.end));
    case Limit(_) =>
      if t.phase.retries < config.maxRetries {
        SameRangeCost(config, t, Claiming(t.phase.range, t.phase.retries + 1), t.requests);
      }
    case Refuse =>
      if t.phase.range.end > t.phase.range.start + 1 {
        RefuseCost(config, chain, t);
      }
  }

  lemma PopCost<Log>(config: Config, chain: Chain<Log>, t: Task<Log>, rest: seq<Range>, range: Range)
    requires TaskOk(config, chain, t) && t.phase.Ready? && t.pending != []
    requires rest == t.pending[..|t.pending| - 1] && range == t.pending[|t.pending| - 1]
    ensures var asked := t.(pending := rest, phase := Claiming(range, 0), calls := t.calls + 1);
      TaskCost(config, asked) < TaskCost(config, t)
  {
    var t' := t.(pending := rest, phase := Claiming(range, 0), calls := t.calls + 1);
    assert Work(t) == t.pending;
    PopTop(t.pending, Cursor(t), t.chunk.end);
    assert CallsLeft(t) == CallsLeft(t') + 1;
  }

  lemma ServeCost<Log>(config: Config, t: Task<Log>, logs: seq<Log>)
    requires t.phase.Requesting?
    ensures TaskCost(config, t.(logs := logs, phase := Ready)) < TaskCost(config, t)
  {
    CallCostMonotone(config, CallsLeft(t.(logs := logs, phase := Ready)), CallsLeft(t));
  }

  lemma RefuseCost<Log>(config: Config, chain: Chain<Log>, t: Task<Log>)
    requires TaskOk(config, chain, t) && t.phase.Requesting? && t.phase.range.end > t.phase.range.start + 1
    ensures var range := t.phase.range;
            var halves := t.pending + [Range(range.Mid(), range.end)] + [Range(range.start, range.Mid())];
            TaskCost(config, t.(pending := halves, phase := Ready)) < TaskCost(config, t)
  {
    var range := t.phase.range;
    var halves := t.pending + [Range(range.Mid(), range.end)] + [Range(range.start, range.Mid())];
    WorkTop(chain, t);
    SplitTop(t.pending, range, range.Mid(), t.chunk.end);
    assert CallsLeft(t.(pending := halves, phase := Ready)) == CallsLeft(t);
  }

  /** The steps the buffered tasks can still take, counting one to leave the buffer. */
  function BufferCost<Log>(config: Config, tasks: seq<Task<Log>>): nat {
    if tasks == [] then 0 else TaskCost(config, tasks[0]) + 1 + BufferCost(config, tasks[1..])
  }

  lemma {:induction false} BufferCostSnoc<Log>(config: Config, tasks: seq<Task<Log>>, t: Task<Log>)
    ensures BufferCost(config, tasks + [t]) == BufferCost(config, tasks) + TaskCost(config, t) + 1
  {
    if tasks != [] {
      assert (tasks + [t])[1..] == tasks[1..] + [t];
      BufferCostSnoc(config, tasks[1..], t);
    }
  }

  lemma {:induction false} BufferCostDrops<Log>(config: Config, tasks: seq<Task<Log>>, i: nat, t: Task<Log>)
    requires i < |tasks| && TaskCost(config, t) < TaskCost(config, tasks[i])
    ensures BufferCost(config, tasks[i := t]) < BufferCost(config, tasks)
  {
    if i > 0 {
      assert tasks[i := t][1..] == tasks[1..][i - 1 := t];
      BufferCostDrops(config, tasks[1..], i - 1, t);
    } else {
      assert tasks[0 := t][1..] == tasks[1..];
    }
  }

  /** Every block not yet in a chunk leaves room for a chunk of its own. */
  function TailCost(config: Config, blocks: nat): nat {
    if blocks == 0 then 0 else TailCost(config, blocks - 1) + 2 * PerCall(config) + 2
  }

  lemma {:induction false} TailCostClosed(config: Config, blocks: nat)
    ensures TailCost(config, blocks) == blocks * (6 * config.maxRetries + 10)
  {
    if blocks > 0 {
      TailCostClosed(config, blocks - 1);
      MulDistribute(blocks - 1, 1, 6 * config.maxRetries + 10);
    }
  }

  function Unstarted<Log>(range: Range, s: System<Log>): nat {
    if s.next < range.end then range.end - s.next else 0
  }

  /** A bound on the steps, other than the clock's, that the system can still take. */
  function Cost<Log>(config: Config, chain: Chain<Log>, range: Range, s: System<Log>): int {
    if !s.status.Running? then 0
    else
      1 + BufferCost(config, s.tasks) + TailCost(config, Unstarted(range, s))
        + |chain.Logs(range.start, range.end)| - |s.emitted|
  }

  lemma CostPositive<Log>(config: Config, chain: Chain<Log>, range: Range, s: System<Log>)
    requires SystemOk(config, chain, range, s)
    ensures 0 <= Cost(config, chain, range, s)
    ensures s.status.Running? ==> 1 + |s.outbox| <= Cost(config, chain, range, s)
  {
    if s.status.Running? {
      DeliveredIsPrefix(config, chain, range, s);
      assert |s.emitted + s.outbox| <= |chain.Logs(range.start, range.end)|;
    }
  }

  /** A chunk of `n` blocks costs less than the room those blocks leave. */
  lemma {:induction false} StartCost(config: Config, n: nat, blocks: nat)
    requires 1 <= n <= blocks
    ensures CallCost(config, 2 * n - 1) + 2 + TailCost(config, blocks - n) < TailCost(config, blocks)
  {
    if n > 1 {
      StartCost(config, n - 1, blocks - 1);
      assert CallCost(config, 2 * n - 1) == CallCost(config, 2 * n - 2) + PerCall(config);
      assert CallCost(config, 2 * n - 2) == CallCost(config, 2 * n - 3) + PerCall(config);
    } else {
      assert CallCost(config, 1) == CallCost(config, 0) + PerCall(config);
    }
  }

  lemma NewTaskCost<Log>(config: Config, t: Task<Log>)
    requires t.chunk.NonEmpty() && t.pending == [t.chunk] && t.phase == Ready
    ensures TaskCost(config, t) == CallCost(config, 2 * t.chunk.Len() - 1) + 1
  {
    assert [t.chunk][..0] == [];
    assert Budget([t.chunk]) == Budget([]) + Calls(t.chunk);
  }

  lemma StartCostDrops<Log>(config: Config, chain: Chain<Log>, range: Range, s: System<Log>)
    requires SystemOk(config, chain, range, s) && s.status.Running?
    requires |s.tasks| < config.Concurrency() && s.next < range.end
    ensures Cost(config, chain, range, Step(config, chain, range, s, Start)) < Cost(config, chain, range, s)
  {
    var chunk := ChunkFrom(s.next, s.pace.size, range.end);
    StartIs(config, chain, range, s);
    StartedCost(config, range, s, chunk);
  }

  lemma StartedCost<Log>(config: Config, range: Range, s: System<Log>, chunk: Range)
    requires chunk.start == s.next && chunk.NonEmpty() && chunk.end <= range.end
    ensures BufferCost(config, Started(s, chunk).tasks) + TailCost(config, Unstarted(range, Started(s, chunk)))
          < BufferCost(config, s.tasks) + TailCost(config, Unstarted(range, s))
  {
    var t: Task<Log> := Task(chunk, [chunk], [], Ready, 0, 0);
    BufferCostSnoc(config, s.tasks, t);
    NewTaskCost(config, t);
    StartCost(config, chunk.Len(), Unstarted(range, s));
  }

  /** Every step that is not the clock's and is not refused uses up some of the bound. */
  lemma CostDrops<Log>(config: Config, chain: Chain<Log>, range: Range, s: System<Log>, action: Action)
    requires SystemOk(config, chain, range, s)
    ensures var s' := Step(config, chain, range, s, action);
            if action.Tick? || s' == s then Cost(config, chain, range, s') == Cost(config, chain, range, s)
            else Cost(config, chain, range, s') < Cost(config, chain, range, s)
  {
    var s' := Step(config, chain, range, s, action);
    if s' != s {
      CostPositive(config, chain, range, s);
      match action
      case Tick(_) =>
      case Start => StartCostDrops(config, chain, range, s);
      case Yield => YieldCostDrops(config, chain, range, s);
      case Emit =>
      case Finish =>
      case _ => MoveCostDrops(config, chain, range, s, action);
    }
  }

  lemma YieldCostDrops<Log>(config: Config, chain: Chain<Log>, range: Range, s: System<Log>)
    requires s.status.Running? && 0 < Cost(config, chain, range, s)
    requires Step(config, chain, range, s, Yield) != s
    ensures Cost(config, chain, range, Step(config, chain, range, s, Yield)) < Cost(config, chain, range, s)
  {
  }

  lemma MoveCostDrops<Log>(config: Config, chain: Chain<Log>, range: Range, s: System<Log>, action: Action)
    requires SystemOk(config, chain, range, s) && s.status.Running? && Moves(action) && action.i < |s.tasks|
    requires TaskStep(config, chain, s.tasks[action.i], s.pace, s.now, action).Some?
    ensures Cost(config, chain, range, Step(config, chain, range, s, action)) < Cost(config, chain, range, s)
  {
    var moved := TaskStep(config, chain, s.tasks[action.i], s.pace, s.now, action);
    MoveIs(config, chain, range, s, action);
    TaskCostDrops(config, chain, s.tasks[action.i], s.pace, s.now, action);
    MovedCost(config, chain, range, s, action.i, moved.value.0, moved.value.1);
  }

  lemma MovedCost<Log>(config: Config, chain: Chain<Log>, range: Range, s: System<Log>, i: nat, t: Task<Log>,
          pace: Pace)
    requires s.status.Running? && i < |s.tasks| && TaskCost(config, t) < TaskCost(config, s.tasks[i])
    ensures Cost(config, chain, range, Moved(s, i, t, pace)) < Cost(config, chain, range, s)
  {
    BufferCostDrops(config, s.tasks, i, t);
  }

  /** The steps of a run that did something, not counting the clock's. */
  ghost function Effective<Log>(config: Config, chain: Chain<Log>, range: Range, actions: seq<Action>): nat {
    if actions == [] then 0
    else
      var before, last := actions[..|actions| - 1], actions[|actions| - 1];
      var s := After(config, chain, range, before);
      Effective(config, chain, range, before) +
      if last.Tick? || Step(config, chain, range, s, last) == s then 0 else 1
  }

  lemma {:induction false} EffectivePaidFor<Log>(config: Config, chain: Chain<Log>, range: Range, actions: seq<Action>)
    ensures Effective(config, chain, range, actions) + Cost(config, chain, range, After(config, chain, range, actions))
         <= Cost(config, chain, range, Init(config, range))
  {
    if actions != [] {
      var before := actions[..|actions| - 1];
      EffectivePaidFor(config, chain, range, before);
      AfterOk(config, chain, range, before);
      CostDrops(config, chain, range, After(config, chain, range, before), actions[|actions| - 1]);
    }
  }

  /**
   No run can go on for ever: whatever the schedule and the answers, a range of `n` blocks holding
   `k` logs takes at most `1 + n * (6 * maxRetries + 10) + k` steps besides the clock's.
   */
  lemma RunsEnd<Log>(config: Config, chain: Chain<Log>, range: Range, actions: seq<Action>)
    ensures Effective(config, chain, range, actions)
         <= 1 + range.Len() * (6 * config.maxRetries + 10) + |chain.Logs(range.start, range.end)|
  {
    EffectivePaidFor(config, chain, range, actions);
    AfterOk(config, chain, range, actions);
    CostPositive(config, chain, range, After(config, chain, range, actions));
    InitCost(config, chain, range);
  }

  lemma InitCost<Log>(config: Config, chain: Chain<Log>, range: Range)
    ensures Cost(config, chain, range, Init(config, range))
         == 1 + range.Len() * (6 * config.maxRetries + 10) + |chain.Logs(range.start, range.end)|
  {
    TailCostClosed(config, Unstarted(range, Init<Log>(config, range)));
  }

  /** What can happen next, if need be once the clock has moved on. */
  function NextMove<Log>(config: Config, range: Range, s: System<Log>): (Action, Action) {
    if s.outbox != [] then (Tick(s.now), Emit)
    else if s.tasks == [] then (Tick(s.now), if s.next < range.end then Start else Finish)
    else
      match s.tasks[0].phase
      case Ready => (Tick(s.now), Pop(0))
      case Claiming(_, _) => (Tick(s.now), Action.Claim(0))
      case Sleeping(_, _, slot) => (Tick(slot), Wake(0))
      case Requesting(_, _) => (Tick(s.now), Receive(0, Serve))
      case _ => (Tick(s.now), Yield)
  }

  /** A task's possible step is not a step in place. */
  lemma MoveChanges<Log>(config: Config, chain: Chain<Log>, range: Range, s: System<Log>, action: Action)
    requires SystemOk(config, chain, range, s) && s.status.Running? && Moves(action) && action.i < |s.tasks|
    requires TaskStep(config, chain, s.tasks[action.i], s.pace, s.now, action).Some?
    ensures Step(config, chain, range, s, action) != s
  {
    var t := s.tasks[action.i];
    TaskCostDrops(config, chain, t, s.pace, s.now, action);
    MoveIs(config, chain, range, s, action);
    assert Step(config, chain, range, s, action).tasks[action.i] != t;
  }

  /** A running stream is never stuck. */
  lemma NeverStuck<Log>(config: Config, chain: Chain<Log>, range: Range, s: System<Log>)
    requires SystemOk(config, chain, range, s) && s.status.Running?
    ensures var (tick, move) := NextMove(config, range, s);
            var ticked := Step(config, chain, range, s, tick);
            tick.Tick? && !move.Tick? && Step(config, chain, range, ticked, move) != ticked
  {
    var (tick, move) := NextMove(config, range, s);
    var ticked := s.(now := Max(s.now, tick.to));
    assert Step(config, chain, range, s, tick) == ticked;
    if s.outbox != [] || s.tasks == [] || !Moves(move) {
      OutsideMoves(config, chain, range, s);
    } else {
      TickOk(config, chain, range, s, ticked.now);
      MoveChanges(config, chain, range, ticked, move);
    }
  }

  /** Emitting, starting, finishing and yielding, where they are next, change the system. */
  lemma OutsideMoves<Log>(config: Config, chain: Chain<Log>, range: Range, s: System<Log>)
    requires SystemOk(config, chain, range, s) && s.status.Running?
    requires s.outbox != [] || s.tasks == [] || !Moves(NextMove(config, range, s).1)
    ensures NextMove(config, range, s).0 == Tick(s.now)
    ensures Step(config, chain, range, s, NextMove(config, range, s).1) != s
  {
    var s' := Step(config, chain, range, s, NextMove(config, range, s).1);
    if s.outbox != [] {
      assert |s'.emitted| == |s.emitted| + 1;
    } else if s.tasks == [] {
      assert s.next < range.end ==> |s'.tasks| == 1;
    } else {
      assert |s'.tasks| < |s.tasks|;
    }
  }

  lemma TickOk<Log>(config: Config, chain: Chain<Log>, range: Range, s: System<Log>, now: nat)
    requires SystemOk(config, chain, range, s)
    ensures SystemOk(config, chain, range, s.(now := now))
  {
  }

  /** No buffered chunk has failed. */
  ghost predicate Healthy<Log>(s: System<Log>) {
    !s.status.Broken? && forall i :: 0 <= i < |s.tasks| ==> !s.tasks[i].phase.Failed?
  }

  /** Ticking, and making the next move with a provider that serves, keeps a stream healthy. */
  lemma StaysHealthy<Log>(config: Config, chain: Chain<Log>, range: Range, s: System<Log>)
    requires s.status.Running? && Healthy(s)
    ensures var (tick, move) := NextMove(config, range, s);
            Healthy(Step(config, chain, range, Step(config, chain, range, s, tick), move))
  {
    var (tick, move) := NextMove(config, range, s);
    var ticked := Step(config, chain, range, s, tick);
    if Moves(move) {
      MoveIs(config, chain, range, ticked, move);
    }
  }

  /**
   From any point of any run the stream can end; and if no chunk in the buffer has failed yet, it can
   end with all logs of the range emitted.
   */
  lemma {:induction false} CanEnd<Log>(config: Config, chain: Chain<Log>, range: Range, actions: seq<Action>)
    returns (more: seq<Action>)
    ensures !After(config, chain, range, actions + more).status.Running?
    ensures Healthy(After(config, chain, range, actions)) ==> After(config, chain, range, actions + more).status.Done?
    decreases Cost(config, chain, range, After(config, chain, range, actions))
  {
    if After(config, chain, range, actions).status.Running? {
      var two := NextTwo(config, chain, range, actions);
      var rest := CanEnd(config, chain, range, actions + two);
      more := two + rest;
      assert actions + more == actions + two + rest;
    } else {
      more := [];
      assert actions + more == actions;
    }
  }

  /** The two next actions of a run lower its cost and keep it healthy. */
  lemma NextTwo<Log>(config: Config, chain: Chain<Log>, range: Range, actions: seq<Action>)
    returns (two: seq<Action>)
    requires After(config, chain, range, actions).status.Running?
    ensures 0 <= Cost(config, chain, range, After(config, chain, range, actions + two))
              < Cost(config, chain, range, After(config, chain, range, actions))
    ensures Healthy(After(config, chain, range, actions)) ==> Healthy(After(config, chain, range, actions + two))
  {
    var s := After(config, chain, range, actions);
    var (tick, move) := NextMove(config, range, s);
    two := [tick, move];
    AfterOk(config, chain, range, actions);
    NextCost(config, chain, range, s);
    AfterTwo(config, chain, range, actions, tick, move);
    if Healthy(s) {
      StaysHealthy(config, chain, range, s);
    }
  }

  lemma AfterTwo<Log>(config: Config, chain: Chain<Log>, range: Range, actions: seq<Action>, tick: Action, move: Action)
    ensures After(config, chain, range, actions + [tick, move])
         == Step(config, chain, range, Step(config, chain, range, After(config, chain, range, actions), tick), move)
  {
    assert (actions + [tick])[..|actions|] == actions;
    assert (actions + [tick, move])[..|actions| + 1] == actions + [tick];
  }

  lemma NextCost<Log>(config: Config, chain: Chain<Log>, range: Range, s: System<Log>)
    requires SystemOk(config, chain, range, s) && s.status.Running?
    ensures var (tick, move) := NextMove(config, range, s);
            var next := Step(config, chain, range, Step(config, chain, range, s, tick), move);
            0 <= Cost(config, chain, range, next) < Cost(config, chain, range, s)
  {
    var (tick, move) := NextMove(config, range, s);
    var ticked := Step(config, chain, range, s, tick);
    NeverStuck(config, chain, range, s);
    StepOk(config, chain, range, s, tick);
    CostDrops(config, chain, range, s, tick);
    CostDrops(config, chain, range, ticked, move);
    StepOk(config, chain, range, ticked, move);
    CostPositive(config, chain, range, Step(config, chain, range, ticked, move));
  }
}
