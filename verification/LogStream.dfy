/**
 The concurrent log stream as a transition system: chunks start lazily at the current chunk size, at
 most `Concurrency()` of them are in the ordered buffer, each works through its own stack of ranges,
 all share one pacing state, and the consumer takes logs from the front. Any scheduler and any
 provider answers are allowed.
 */
module LogStream {
  import opened BlockRanges
  import opened Wrappers
  import opened Pacing
  import opened ChunkQuery

  /** Where a chunk's task stands. `Failed` keeps the range and the attempts that ended it. */
  datatype Phase =
    | Ready
    | Claiming(range: Range, retries: nat)
    | Sleeping(range: Range, retries: nat, slot: nat)
    | Requesting(range: Range, retries: nat)
    | Finished
    | Failed(failure: Failure, at: Range, attempts: nat)
  {
    /** The range being queried. */
    function Active(): seq<Range> {
      if Claiming? || Sleeping? || Requesting? then [range] else []
    }
  }

  /** One chunk in the buffer; `calls` and `requests` count its `query_range` calls and its requests. */
  datatype Task<Log> = Task(chunk: Range, pending: seq<Range>, logs: seq<Log>, phase: Phase, calls: nat, requests: nat)

  /** `Broken` keeps the chunk whose failure ended the stream, and why it failed. */
  datatype Status = Running | Done | Broken(chunk: Range, failure: Failure, at: Range, attempts: nat)

  datatype System<Log> = System(
    next: nat,
    tasks: seq<Task<Log>>,
    /** Logs of the chunk being flushed to the consumer. */
    outbox: seq<Log>,
    emitted: seq<Log>,
    pace: Pace,
    now: nat,
    status: Status)

  datatype Reply = Serve | Limit(hint: Option<nat>) | Refuse

  /** One atomic step. `i` numbers the task that moves. */
  datatype Action =
    | Tick(to: nat)
    | Start
    | Pop(i: nat)
    | Claim(i: nat)
    | Wake(i: nat)
    | Receive(i: nat, reply: Reply)
    | Yield
    | Emit
    | Finish

  // ---------- one task ----------

  /** A task's own step and its effect on the shared state, or nothing if the step is not possible. */
  function TaskStep<Log>(config: Config, chain: Chain<Log>, t: Task<Log>, pace: Pace, now: nat, action: Action)
    : Option<(Task<Log>, Pace)>
  {
    match action
    case Pop(_) =>
      if !t.phase.Ready? then None
      else if t.pending == [] then Some((t.(phase := Finished), pace))
      else
        var range := t.pending[|t.pending| - 1];
        Some((t.(pending := t.pending[..|t.pending| - 1], phase := Claiming(range, 0), calls := t.calls + 1), pace))
    case Claim(_) =>
      if !t.phase.Claiming? then None
      else
        var (pace', slot) := pace.Claimed(config.Stagger(), now);
        var next := if slot.Some? then t.(phase := Sleeping(t.phase.range, t.phase.retries, slot.value)) else Sent(t);
        Some((next, pace'))
    case Wake(_) =>
      if t.phase.Sleeping? && t.phase.slot <= now then Some((Sent(t), pace)) else None
    case Receive(_, reply) =>
      if t.phase.Requesting? then Some(Received(config, chain, t, pace, now, reply)) else None
    case _ => None
  }

  function Sent<Log>(t: Task<Log>): Task<Log>
    requires t.phase.Claiming? || t.phase.Sleeping?
  {
    t.(phase := Requesting(t.phase.range, t.phase.retries), requests := t.requests + 1)
  }

  function Received<Log>(config: Config, chain: Chain<Log>, t: Task<Log>, pace: Pace, now: nat, reply: Reply)
    : (Task<Log>, Pace)
    requires t.phase.Requesting?
  {
    var range, retries := t.phase.range, t.phase.retries;
    match reply
    case Serve =>
      (t.(logs := t.logs + chain.Logs(range.start, range.end), phase := Ready), pace.Succeeded(config.baseDelay))
    case Limit(hint) =>
      if retries >= config.maxRetries then (t.(phase := Failed(RateLimited, range, retries + 1)), pace)
      else (t.(phase := Claiming(range, retries + 1)), pace.Paused(hint, config.maxDelay, now))
    case Refuse =>
      if range.end <= range.start + 1 then (t.(phase := Failed(Other, range, retries + 1)), pace)
      else
        var mid := range.Mid();
        (t.(pending := t.pending + [Range(mid, range.end)] + [Range(range.start, mid)], phase := Ready),
         pace.Shrunk(mid - range.start))
  }

  // ---------- the system ----------

  function Init<Log>(config: Config, range: Range): System<Log> {
    System(range.start, [], [], [], InitialPace(config), 0, Running)
  }

  /** A step that is not possible leaves the system as it is. */
  function Step<Log>(config: Config, chain: Chain<Log>, range: Range, s: System<Log>, action: Action): System<Log> {
    if !s.status.Running? then s
    else
      match action
      case Tick(to) => if s.now < to then s.(now := to) else s
      case Start =>
        if |s.tasks| < config.Concurrency() && s.next < range.end then
          var chunk := ChunkFrom(s.next, s.pace.size, range.end);
          s.(next := chunk.end, tasks := s.tasks + [Task(chunk, [chunk], [], Ready, 0, 0)])
        else s
      case Yield =>
        if s.outbox != [] || s.tasks == [] then s
        else
          var t := s.tasks[0];
          if t.phase.Finished? then s.(tasks := s.tasks[1..], outbox := t.logs)
          else if t.phase.Failed? then
            s.(tasks := [], status := Broken(t.chunk, t.phase.failure, t.phase.at, t.phase.attempts))
          else s
      case Emit =>
        if s.outbox == [] then s else s.(outbox := s.outbox[1..], emitted := s.emitted + [s.outbox[0]])
      case Finish =>
        if s.tasks == [] && s.outbox == [] && range.end <= s.next then s.(status := Done) else s
      case _ =>
        if action.i >= |s.tasks| then s
        else
          match TaskStep(config, chain, s.tasks[action.i], s.pace, s.now, action)
          case None => s
          case Some((t, pace)) => s.(tasks := s.tasks[action.i := t], pace := pace)
  }

  /** The system after any sequence of attempted steps. */
  function After<Log>(config: Config, chain: Chain<Log>, range: Range, actions: seq<Action>): System<Log> {
    if actions == [] then Init(config, range)
    else Step(config, chain, range, After(config, chain, range, actions[..|actions| - 1]), actions[|actions| - 1])
  }

  // ---------- the task invariant ----------

  /** The ranges of the chunk still to be fetched, the current one last. */
  function Work<Log>(t: Task<Log>): seq<Range> {
    t.pending + t.phase.Active()
  }

  /** The first block of the chunk not yet fetched. */
  function Cursor<Log>(t: Task<Log>): nat {
    if Work(t) == [] then t.chunk.end else Work(t)[|Work(t)| - 1].start
  }

  ghost predicate TaskOk<Log>(config: Config, chain: Chain<Log>, t: Task<Log>) {
    && t.chunk.NonEmpty()
    && (if t.phase.Failed? then Blame(config, t)
        else if t.phase.Finished? then t.logs == chain.Logs(t.chunk.start, t.chunk.end)
        else Fetching(chain, t))
    && t.calls <= Calls(t.chunk)
    && Accounted(config, t)
  }

  /** What is fetched is the chunk's logs so far; the current range and the stack cover the rest. */
  ghost predicate Fetching<Log>(chain: Chain<Log>, t: Task<Log>) {
    && t.chunk.start <= Cursor(t)
    && t.logs == chain.Logs(t.chunk.start, Cursor(t))
    && Covers(Work(t), Cursor(t), t.chunk.end)
    && t.calls + Budget(Work(t)) <= Calls(t.chunk) + |t.phase.Active()|
  }

  /** A task fails only on one block, or when every allowed attempt at a range was rate limited. */
  ghost predicate Blame<Log>(config: Config, t: Task<Log>)
    requires t.phase.Failed?
  {
    && t.chunk.start <= t.phase.at.start < t.phase.at.end <= t.chunk.end
    && (t.phase.failure.Other? ==> t.phase.at.Len() == 1)
    && (t.phase.failure.RateLimited? ==> t.phase.attempts == config.maxRetries + 1)
  }

  /** The most requests that many `query_range` calls send. */
  function MaxRequests(config: Config, calls: nat): nat {
    if calls == 0 then 0 else MaxRequests(config, calls - 1) + config.maxRetries + 1
  }

  lemma {:induction false} MaxRequestsClosed(config: Config, calls: nat)
    ensures MaxRequests(config, calls) == calls * (config.maxRetries + 1)
  {
    if calls > 0 {
      MaxRequestsClosed(config, calls - 1);
    }
  }

  /** Each call sends at most `maxRetries + 1` requests. */
  ghost predicate Accounted<Log>(config: Config, t: Task<Log>) {
    if t.phase.Active() == [] then t.requests <= MaxRequests(config, t.calls)
    else
      && t.calls > 0 && t.phase.retries <= config.maxRetries
      && t.requests <= MaxRequests(config, t.calls - 1) + t.phase.retries + (if t.phase.Requesting? then 1 else 0)
  }

  lemma NewTaskOk<Log>(config: Config, chain: Chain<Log>, chunk: Range)
    requires chunk.NonEmpty()
    ensures TaskOk(config, chain, Task(chunk, [chunk], [], Ready, 0, 0))
  {
    var t: Task<Log> := Task(chunk, [chunk], [], Ready, 0, 0);
    assert Work(t) == [chunk] && [chunk][..0] == [];
    assert chain.Logs(chunk.start, chunk.start) == [];
  }

  lemma TaskStepOk<Log>(config: Config, chain: Chain<Log>, t: Task<Log>, pace: Pace, now: nat, action: Action)
    requires TaskOk(config, chain, t) && pace.size >= 1
    requires TaskStep(config, chain, t, pace, now, action).Some?
    ensures var (t', pace') := TaskStep(config, chain, t, pace, now, action).value;
            TaskOk(config, chain, t') && t'.chunk == t.chunk && 1 <= pace'.size <= pace.size
  {
    StepKeeps(config, chain, t, pace, now, action);
    match action
    case Pop(_) => PopOk(config, chain, t, pace, now, action);
    case Claim(_) => ClaimOk(config, chain, t, pace, now, action);
    case Wake(_) => SentOk(config, chain, t);
    case Receive(_, reply) => ReceivedOk(config, chain, t, pace, now, reply);
  }

  /** Moving between the phases of one range keeps a task in order, as long as its requests stay counted. */
  lemma SameRangeOk<Log>(config: Config, chain: Chain<Log>, t: Task<Log>, phase: Phase, requests: nat)
    requires TaskOk(config, chain, t) && t.phase.Active() != [] && phase.Active() == t.phase.Active()
    requires Accounted(config, t.(phase := phase, requests := requests))
    ensures TaskOk(config, chain, t.(phase := phase, requests := requests))
  {
    assert Work(t.(phase := phase, requests := requests)) == Work(t);
  }

  lemma ClaimOk<Log>(config: Config, chain: Chain<Log>, t: Task<Log>, pace: Pace, now: nat, action: Action)
    requires TaskOk(config, chain, t) && action.Claim? && t.phase.Claiming?
    ensures TaskOk(config, chain, TaskStep(config, chain, t, pace, now, action).value.0)
  {
    var slot := pace.Claimed(config.Stagger(), now).1;
    if slot.Some? {
      SameRangeOk(config, chain, t, Sleeping(t.phase.range, t.phase.retries, slot.value), t.requests);
    } else {
      SentOk(config, chain, t);
    }
  }

  lemma SentOk<Log>(config: Config, chain: Chain<Log>, t: Task<Log>)
    requires TaskOk(config, chain, t) && (t.phase.Claiming? || t.phase.Sleeping?)
    ensures TaskOk(config, chain, Sent(t))
  {
    SameRangeOk(config, chain, t, Requesting(t.phase.range, t.phase.retries), t.requests + 1);
  }

  lemma PopOk<Log>(config: Config, chain: Chain<Log>, t: Task<Log>, pace: Pace, now: nat, action: Action)
    requires TaskOk(config, chain, t) && action.Pop? && t.phase.Ready?
    ensures TaskOk(config, chain, TaskStep(config, chain, t, pace, now, action).value.0)
  {
    assert Work(t) == t.pending;
    if t.pending != [] {
      PopRangeOk(config, chain, t, t.pending[..|t.pending| - 1], t.pending[|t.pending| - 1]);
    }
  }

  lemma PopRangeOk<Log>(config: Config, chain: Chain<Log>, t: Task<Log>, rest: seq<Range>, range: Range)
    requires TaskOk(config, chain, t) && t.phase.Ready? && t.pending == rest + [range]
    ensures TaskOk(config, chain, t.(pending := rest, phase := Claiming(range, 0), calls := t.calls + 1))
  {
    var t' := t.(pending := rest, phase := Claiming(range, 0), calls := t.calls + 1);
    assert Work(t) == t.pending == Work(t');
    PopTop(Work(t), Cursor(t), t.chunk.end);
  }

  lemma ReceivedOk<Log>(config: Config, chain: Chain<Log>, t: Task<Log>, pace: Pace, now: nat, reply: Reply)
    requires TaskOk(config, chain, t) && pace.size >= 1 && t.phase.Requesting?
    ensures TaskOk(config, chain, Received(config, chain, t, pace, now, reply).0)
  {
    match reply
    case Serve => ServedOk(config, chain, t, pace, now);
    case Limit(hint) => LimitedOk(config, chain, t, pace, now, hint);
    case Refuse =>
      if t.phase.range.end > t.phase.range.start + 1 {
        RefusedOk(config, chain, t, pace, now);
      } else {
        FailedOk(config, chain, t, Other);
      }
  }

  lemma LimitedOk<Log>(config: Config, chain: Chain<Log>, t: Task<Log>, pace: Pace, now: nat, hint: Option<nat>)
    requires TaskOk(config, chain, t) && t.phase.Requesting?
    ensures TaskOk(config, chain, Received(config, chain, t, pace, now, Limit(hint)).0)
  {
    if t.phase.retries < config.maxRetries {
      SameRangeOk(config, chain, t, Claiming(t.phase.range, t.phase.retries + 1), t.requests);
    } else {
      FailedOk(config, chain, t, RateLimited);
    }
  }

  /** A step keeps the task's chunk, and the chunk size between one and what it was. */
  lemma StepKeeps<Log>(config: Config, chain: Chain<Log>, t: Task<Log>, pace: Pace, now: nat, action: Action)
    requires pace.size >= 1 && TaskStep(config, chain, t, pace, now, action).Some?
    ensures var (t', pace') := TaskStep(config, chain, t, pace, now, action).value;
            t'.chunk == t.chunk && 1 <= pace'.size <= pace.size
  {
  }

  lemma FailedOk<Log>(config: Config, chain: Chain<Log>, t: Task<Log>, failure: Failure)
    requires TaskOk(config, chain, t) && t.phase.Requesting?
    requires if failure.Other? then t.phase.range.end <= t.phase.range.start + 1
        else t.phase.retries == config.maxRetries
    ensures TaskOk(config, chain, t.(phase := Failed(failure, t.phase.range, t.phase.retries + 1)))
  {
    WorkTop(chain, t);
  }

  /** The range being queried is the leftmost one not yet fetched. */
  lemma WorkTop<Log>(chain: Chain<Log>, t: Task<Log>)
    requires Fetching(chain, t) && t.phase.Active() != []
    ensures t.chunk.start <= Cursor(t) == t.phase.range.start < t.phase.range.end <= t.chunk.end
    ensures Covers(t.pending, t.phase.range.end, t.chunk.end)
    ensures Budget(Work(t)) == Budget(t.pending) + 2 * t.phase.range.Len() - 1
  {
    assert Work(t)[..|Work(t)| - 1] == t.pending;
    PopTop(Work(t), Cursor(t), t.chunk.end);
  }

  lemma ServedOk<Log>(config: Config, chain: Chain<Log>, t: Task<Log>, pace: Pace, now: nat)
    requires TaskOk(config, chain, t) && t.phase.Requesting?
    ensures TaskOk(config, chain, Received(config, chain, t, pace, now, Serve).0)
  {
    var range := t.phase.range;
    var (t', _) := Received(config, chain, t, pace, now, Serve);
    WorkTop(chain, t);
    chain.LogsSplit(t.chunk.start, range.start, range.end);
    assert Work(t') == t.pending;
  }

  lemma RefusedOk<Log>(config: Config, chain: Chain<Log>, t: Task<Log>, pace: Pace, now: nat)
    requires TaskOk(config, chain, t) && t.phase.Requesting? && t.phase.range.end > t.phase.range.start + 1
    ensures TaskOk(config, chain, Received(config, chain, t, pace, now, Refuse).0)
  {
    var range := t.phase.range;
    var (t', _) := Received(config, chain, t, pace, now, Refuse);
    WorkTop(chain, t);
    SplitTop(t.pending, range, range.Mid(), t.chunk.end);
    assert Work(t') == t'.pending;
  }
}
