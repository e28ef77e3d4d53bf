/** How the shared pacing state shapes a run: send slots keep their distance, refusals shrink what follows. */
module LogStreamPacing {
  import opened BlockRanges
  import opened Arithmetic
  import opened Pacing
  import opened ChunkQuery
  import opened LogStream
  import opened LogStreamRuns

  ghost predicate Apart(a: nat, b: nat, gap: nat) { a + gap <= b || b + gap <= a }

  /** Requests waiting for a slot wait for slots one stagger apart, all of them before the horizon. */
  ghost predicate SleepersOk<Log>(config: Config, s: System<Log>) {
    && (forall i :: 0 <= i < |s.tasks| && s.tasks[i].phase.Sleeping? ==>
          s.tasks[i].phase.slot + config.Stagger() <= Horizon(s.pace, s.now))
    && (forall i, j :: 0 <= i < j < |s.tasks| && s.tasks[i].phase.Sleeping? && s.tasks[j].phase.Sleeping? ==>
          Apart(s.tasks[i].phase.slot, s.tasks[j].phase.slot, config.Stagger()))
  }

  /** A step of one task never brings the horizon closer, and a slot it is given is the old horizon. */
  lemma HorizonMovesOn<Log>(config: Config, chain: Chain<Log>, t: Task<Log>, pace: Pace, now: nat, action: Action)
    requires TaskStep(config, chain, t, pace, now, action).Some?
    ensures var (t', pace') := TaskStep(config, chain, t, pace, now, action).value;
            && Horizon(pace, now) <= Horizon(pace', now)
            && (t'.phase.Sleeping? ==>
                  t'.phase.slot == Horizon(pace, now) > now && t'.phase.slot + config.Stagger() <= Horizon(pace', now))
  {
  }

  lemma ReplaceSleeper<Log>(config: Config, s: System<Log>, i: nat, t: Task<Log>, pace: Pace)
    requires SleepersOk(config, s) && i < |s.tasks| && Horizon(s.pace, s.now) <= Horizon(pace, s.now)
    requires t.phase.Sleeping? ==>
               t.phase.slot == Horizon(s.pace, s.now) && t.phase.slot + config.Stagger() <= Horizon(pace, s.now)
    ensures SleepersOk(config, s.(tasks := s.tasks[i := t], pace := pace))
  {
  }

  lemma SleepersStep<Log>(config: Config, chain: Chain<Log>, range: Range, s: System<Log>, action: Action)
    requires SleepersOk(config, s)
    ensures SleepersOk(config, Step(config, chain, range, s, action))
  {
    if s.status.Running? && Moves(action) && action.i < |s.tasks| {
      var moved := TaskStep(config, chain, s.tasks[action.i], s.pace, s.now, action);
      if moved.Some? {
        HorizonMovesOn(config, chain, s.tasks[action.i], s.pace, s.now, action);
        ReplaceSleeper(config, s, action.i, moved.value.0, moved.value.1);
      }
    }
  }

  /** In every run, no two requests wait for slots less than one stagger apart. */
  lemma {:induction false} RunsAreStaggered<Log>(config: Config, chain: Chain<Log>, range: Range, actions: seq<Action>)
    ensures SleepersOk(config, After(config, chain, range, actions))
  {
    if actions != [] {
      RunsAreStaggered(config, chain, range, actions[..|actions| - 1]);
      SleepersStep(config, chain, range, After(config, chain, range, actions[..|actions| - 1]), actions[|actions| - 1]);
    }
  }

  // ---------- the calls of a whole run ----------

  /** The locked calls of one step, at the time it happens. */
  function CallsOf<Log>(config: Config, s: System<Log>, action: Action): seq<Event> {
    if !s.status.Running? || !Moves(action) || action.i >= |s.tasks| then []
    else
      var phase := s.tasks[action.i].phase;
      match action
      case Claim(_) => if phase.Claiming? then [Event(Op.Claim, s.now)] else []
      case Receive(_, reply) => if phase.Requesting? then CallsOn(config, phase, reply, s.now) else []
      case _ => []
  }

  /** The calls that answer a reply. */
  function CallsOn(config: Config, phase: Phase, reply: Reply, now: nat): seq<Event>
    requires phase.Requesting?
  {
    match reply
    case Serve => [Event(Op.Succeed, now)]
    case Limit(hint) => if phase.retries >= config.maxRetries then [] else [Event(Op.Pause(hint), now)]
    case Refuse =>
      if phase.range.end <= phase.range.start + 1 then []
      else [Event(Op.Shrink(phase.range.Mid() - phase.range.start), now)]
  }

  /** The locked calls of all tasks in a run, in the order they were made. */
  function History<Log>(config: Config, chain: Chain<Log>, range: Range, actions: seq<Action>): seq<Event> {
    if actions == [] then []
    else
      var before := actions[..|actions| - 1];
      var s := After(config, chain, range, before);
      History(config, chain, range, before) + CallsOf(config, s, actions[|actions| - 1])
  }

  /** The events are those of a clock that has reached `now`. */
  ghost predicate OrderedUpTo(events: seq<Event>, now: nat) {
    Ordered(events) && (events != [] ==> events[|events| - 1].now <= now)
  }

  /** A step changes the pacing state as its calls say, and lets no time pass before them. */
  lemma StepIsCalls<Log>(config: Config, chain: Chain<Log>, range: Range, s: System<Log>, action: Action,
          events: seq<Event>)
    requires s.pace == PaceAfter(config, events) && OrderedUpTo(events, s.now)
    ensures var s' := Step(config, chain, range, s, action);
            s'.pace == PaceAfter(config, events + CallsOf(config, s, action))
            && OrderedUpTo(events + CallsOf(config, s, action), s'.now)
  {
    var calls := CallsOf(config, s, action);
    if calls == [] {
      assert events + calls == events;
      QuietStep(config, chain, range, s, action);
    } else {
      assert calls == [calls[0]];
      CallingStep(config, chain, range, s, action, calls[0]);
      OneMoreEvent(config, events, s.now, calls[0]);
    }
  }

  lemma OneMoreEvent(config: Config, events: seq<Event>, now: nat, event: Event)
    requires OrderedUpTo(events, now) && event.now == now
    ensures PaceAfter(config, events + [event]) == Applied(config, PaceAfter(config, events), event)
    ensures OrderedUpTo(events + [event], now)
  {
    assert (events + [event])[..|events|] == events;
    assert events != [] ==> forall i :: 0 <= i < |events| ==> events[i].now <= events[|events| - 1].now;
  }

  lemma CallingStep<Log>(config: Config, chain: Chain<Log>, range: Range, s: System<Log>, action: Action, call: Event)
    requires CallsOf(config, s, action) == [call]
    ensures var s' := Step(config, chain, range, s, action);
            s'.pace == Applied(config, s.pace, call) && s'.now == s.now == call.now
  {
    MoveIs(config, chain, range, s, action);
    var t := s.tasks[action.i];
    if action.Receive? {
      ReceivedCalls(config, chain, t, s.pace, s.now, action.reply, call);
    }
  }

  lemma ReceivedCalls<Log>(config: Config, chain: Chain<Log>, t: Task<Log>, pace: Pace, now: nat, reply: Reply,
          call: Event)
    requires t.phase.Requesting? && CallsOn(config, t.phase, reply, now) == [call]
    ensures Received(config, chain, t, pace, now, reply).1 == Applied(config, pace, call) && call.now == now
  {
  }

  lemma QuietStep<Log>(config: Config, chain: Chain<Log>, range: Range, s: System<Log>, action: Action)
    requires CallsOf(config, s, action) == []
    ensures var s' := Step(config, chain, range, s, action); s'.pace == s.pace && s.now <= s'.now
  {
    if s.status.Running? && Moves(action) {
      MoveIs(config, chain, range, s, action);
    }
  }

  /** The pacing state of a run is the outcome of its locked calls, made by a clock that never runs backwards. */
  lemma {:induction false} RunIsHistory<Log>(config: Config, chain: Chain<Log>, range: Range, actions: seq<Action>)
    ensures var s, events := After(config, chain, range, actions), History(config, chain, range, actions);
            s.pace == PaceAfter(config, events) && OrderedUpTo(events, s.now)
  {
    if actions != [] {
      var before, last := actions[..|actions| - 1], actions[|actions| - 1];
      RunIsHistory(config, chain, range, before);
      StepIsCalls(config, chain, range, After(config, chain, range, before), last,
          History(config, chain, range, before));
    }
  }

  /**
   Over a whole run any two slots ever handed out are one stagger apart, and after `k >= 1` pauses
   since the last reset the delay is `min(base * 2^k, max)`.
   */
  lemma RunsArePaced<Log>(config: Config, chain: Chain<Log>, range: Range, actions: seq<Action>)
    ensures var events := History(config, chain, range, actions);
            && Spaced(Slots(config, events), config.Stagger())
            && After(config, chain, range, actions).pace.delay == BackOff(config, PausesSinceReset(config, events))
  {
    RunIsHistory(config, chain, range, actions);
    SlotsSpaced(config, History(config, chain, range, actions));
    DelayAfterPauses(config, History(config, chain, range, actions));
  }

  /**
   Over a whole run, with `c` requests allowed at once, any `c + 1` slots in a row span more than the
   base delay less `c`, and every slot is the end of a pause, later by one stagger for each of some
   of the claims since.
   */
  lemma RunsSpreadSlots<Log>(config: Config, chain: Chain<Log>, range: Range, actions: seq<Action>, i: nat)
    ensures var c := if config.maxConcurrent == 0 then 1 else config.maxConcurrent;
            var slots := Slots(config, History(config, chain, range, actions));
            && (i + c < |slots| ==> slots[i + c] + c > slots[i] + config.baseDelay)
            && (i < |slots| ==> Earned(config, History(config, chain, range, actions), slots[i]))
  {
    RunIsHistory(config, chain, range, actions);
    SlotsSpread(config, History(config, chain, range, actions), i);
    if i < |Slots(config, History(config, chain, range, actions))| {
      AllSlotsEarned(config, History(config, chain, range, actions), i);
    }
  }

  /**
   A task asleep stays asleep, in its place or one further on, until its slot has come or the stream
   has failed: no request leaves before its slot.
   */
  lemma SentOnTime<Log>(config: Config, chain: Chain<Log>, range: Range, s: System<Log>, action: Action, i: nat)
    requires s.status.Running? && i < |s.tasks| && s.tasks[i].phase.Sleeping?
    ensures var s', t := Step(config, chain, range, s, action), s.tasks[i];
            || s'.status.Broken?
            || (i < |s'.tasks| && s'.tasks[i] == t)
            || (0 < i <= |s'.tasks| && s'.tasks[i - 1] == t)
            || (i < |s'.tasks| && s.now >= t.phase.slot
                && s'.tasks[i].phase == Requesting(t.phase.range, t.phase.retries))
  {
    if Moves(action) {
      MoveIs(config, chain, range, s, action);
    }
  }

  /**
   What an answer does to the pacing state, field by field: logs reset the delay outside a pause; a
   rate limit that is retried moves the pause on to the hint or the delay from now, if that is later,
   and doubles the delay up to its bound; a refused range of more than one block shrinks the chunk
   size to half of it, never below one; an answer that ends the task changes nothing.
   */
  lemma AnswersPace<Log>(config: Config, chain: Chain<Log>, range: Range, s: System<Log>, i: nat, reply: Reply)
    requires s.status.Running? && i < |s.tasks| && s.tasks[i].phase.Requesting?
    ensures var phase, pace, pace' := s.tasks[i].phase, s.pace, Step(config, chain, range, s, Receive(i, reply)).pace;
      match reply
      case Serve =>
        && pace'.size == pace.size && pace'.pausedUntil == pace.pausedUntil
        && pace'.delay == (if pace.pausedUntil.None? then config.baseDelay else pace.delay)
      case Limit(hint) =>
        if phase.retries >= config.maxRetries then pace' == pace
        else
          var until := s.now + (if hint.Some? then hint.value else pace.delay);
          && pace'.size == pace.size && pace'.delay == Min(2 * pace.delay, config.maxDelay)
          && pace'.pausedUntil.Some?
          && pace'.pausedUntil.value == (if pace.pausedUntil.Some? then Max(pace.pausedUntil.value, until) else until)
      case Refuse =>
        if phase.range.end <= phase.range.start + 1 then pace' == pace
        else
          && pace'.delay == pace.delay && pace'.pausedUntil == pace.pausedUntil
          && pace'.size == Max(Min(pace.size, Quotient(phase.range.Len(), 2)), 1)
  {
    MoveIs(config, chain, range, s, Receive(i, reply));
  }

  /** What the next claim of a task in a run is: when its request may go, and what it adds to the history. */
  lemma ClaimInRun<Log>(config: Config, chain: Chain<Log>, range: Range, actions: seq<Action>, i: nat)
    requires var s := After(config, chain, range, actions);
             s.status.Running? && i < |s.tasks| && s.tasks[i].phase.Claiming?
    ensures var s, all := After(config, chain, range, actions), actions + [Action.Claim(i)];
            var s', slot := After(config, chain, range, all), s.pace.Claimed(config.Stagger(), s.now).1;
            && i < |s'.tasks| && s'.now == s.now
            && (slot.Some? ==> s'.tasks[i].phase.Sleeping? && s'.tasks[i].phase.slot == slot.value)
            && (slot.None? ==> s'.tasks[i].phase.Requesting?)
            && History(config, chain, range, all) == History(config, chain, range, actions) + [Event(Op.Claim, s.now)]
  {
    assert (actions + [Action.Claim(i)])[..|actions|] == actions;
    MoveIs(config, chain, range, After(config, chain, range, actions), Action.Claim(i));
  }

  /** The slot a task waits for when it goes to sleep is the last of those slots, and in the future. */
  lemma SleepersHoldSlots<Log>(config: Config, chain: Chain<Log>, range: Range, actions: seq<Action>, i: nat)
    requires var s := After(config, chain, range, actions);
             s.status.Running? && i < |s.tasks| && s.tasks[i].phase.Claiming?
    ensures var all := actions + [Action.Claim(i)];
            var s', slots := After(config, chain, range, all), Slots(config, History(config, chain, range, all));
            && i < |s'.tasks|
            && (s'.tasks[i].phase.Sleeping? ==>
                  slots != [] && slots[|slots| - 1] == s'.tasks[i].phase.slot > s'.now)
  {
    RunIsHistory(config, chain, range, actions);
    ClaimInRun(config, chain, range, actions, i);
    ClaimIsSlot(config, History(config, chain, range, actions), After(config, chain, range, actions).now);
  }

  /** When the request of a task that has claimed may go: at its slot, or at once. */
  function SendTime<Log>(s: System<Log>, i: nat): nat
    requires i < |s.tasks|
  {
    if s.tasks[i].phase.Sleeping? then s.tasks[i].phase.slot else s.now
  }

  /** In every run, a request claimed after a pause goes no earlier than the pause's end. */
  lemma RunsRespectPauses<Log>(config: Config, chain: Chain<Log>, range: Range, actions: seq<Action>, i: nat, k: nat)
    requires var s := After(config, chain, range, actions);
             s.status.Running? && i < |s.tasks| && s.tasks[i].phase.Claiming?
    requires var events := History(config, chain, range, actions); k < |events| && events[k].op.Pause?
    ensures var s' := After(config, chain, range, actions + [Action.Claim(i)]);
            i < |s'.tasks| && PausedUntil(config, History(config, chain, range, actions), k) <= SendTime(s', i)
  {
    var events, s := History(config, chain, range, actions), After(config, chain, range, actions);
    RunIsHistory(config, chain, range, actions);
    ClaimInRun(config, chain, range, actions, i);
    ClaimWaits(config, events, s.now, k);
  }

  lemma ClaimWaits(config: Config, events: seq<Event>, now: nat, k: nat)
    requires OrderedUpTo(events, now) && k < |events| && events[k].op.Pause?
    ensures var slot := PaceAfter(config, events).Claimed(config.Stagger(), now).1;
            PausedUntil(config, events, k) <= if slot.Some? then slot.value else now
  {
    PauseHolds(config, events, k);
  }

  /** A claim that has to wait is handed the last of the slots. */
  lemma ClaimIsSlot(config: Config, events: seq<Event>, now: nat)
    ensures var all := events + [Event(Op.Claim, now)];
            var slot := PaceAfter(config, events).Claimed(config.Stagger(), now).1;
            Slots(config, all) == Slots(config, events) + if slot.Some? then [slot.value] else []
  {
    assert (events + [Event(Op.Claim, now)])[..|events|] == events;
  }

  lemma {:induction false} SizeNeverGrowsLater<Log>(config: Config, chain: Chain<Log>, range: Range,
          actions: seq<Action>, later: seq<Action>)
    ensures After(config, chain, range, actions + later).pace.size <= After(config, chain, range, actions).pace.size
  {
    if later == [] {
      assert actions + later == actions;
    } else {
      var sooner, last := later[..|later| - 1], later[|later| - 1];
      SizeNeverGrowsLater(config, chain, range, actions, sooner);
      SizeNeverGrows(config, chain, range, actions + sooner, last);
      assert (actions + sooner) + [last] == actions + later;
    }
  }

  /** Once a range has been refused, no chunk started later in the run is longer than half of it. */
  lemma RefusalHalvesChunks<Log>(config: Config, chain: Chain<Log>, range: Range, actions: seq<Action>, i: nat,
          later: seq<Action>)
    requires var s := After(config, chain, range, actions);
             s.status.Running? && i < |s.tasks| && s.tasks[i].phase.Requesting? && s.tasks[i].phase.range.Len() > 1
    ensures var half := Quotient(After(config, chain, range, actions).tasks[i].phase.range.Len(), 2);
            var s := After(config, chain, range, actions + [Receive(i, Refuse)] + later);
            var started := Step(config, chain, range, s, Start);
            && s.pace.size <= half
            && (|started.tasks| > |s.tasks| ==> started.tasks[|s.tasks|].chunk.Len() <= half)
  {
    var refused := actions + [Receive(i, Refuse)];
    assert refused[..|actions|] == actions;
    SizeNeverGrowsLater(config, chain, range, refused, later);
  }
}
