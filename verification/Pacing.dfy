/** Chunk size, back-off and send slots: one value of each for all tasks, and how every call changes them. */
module Pacing {
  import opened Wrappers
  import opened Arithmetic

  /** Tuning options. Durations and instants are counted in one unit of time. */
  datatype Config = Config(chunkSize: nat, maxConcurrent: nat, baseDelay: nat, maxDelay: nat, maxRetries: nat) {
    function Concurrency(): (n: nat) ensures n >= 1 { Max(maxConcurrent, 1) }
    function Stagger(): nat { Quotient(baseDelay, Concurrency()) }
  }

  /** The options used when none are given, times in milliseconds. */
  const DEFAULT := Config(1_000, 5, 250, 30_000, 10)

  /** The stagger is the base delay shared among the concurrent requests, rounded down; at least one shares it. */
  lemma StaggerExact(config: Config)
    ensures var c := if config.maxConcurrent == 0 then 1 else config.maxConcurrent;
            && config.Concurrency() == c
            && config.Stagger() * c <= config.baseDelay < (config.Stagger() + 1) * c
  {
    Recombine(config.baseDelay, config.Concurrency());
    MulDistribute(config.Stagger(), 1, config.Concurrency());
  }

  /** A value of the shared state. */
  datatype Pace = Pace(size: nat, delay: nat, pausedUntil: Option<nat>) {
    function Shrunk(n: nat): Pace { this.(size := Max(Min(size, n), 1)) }

    /** The slot a request must wait for, if any, and the state once it is claimed. */
    function Claimed(stagger: nat, now: nat): (Pace, Option<nat>) {
      match pausedUntil
      case None => (this, None)
      case Some(slot) =>
        if slot <= now then (this.(pausedUntil := None), None)
        else (this.(pausedUntil := Some(slot + stagger)), Some(slot))
    }

    function Succeeded(baseDelay: nat): Pace {
      if pausedUntil == None then this.(delay := baseDelay) else this
    }

    function Paused(hint: Option<nat>, maxDelay: nat, now: nat): Pace {
      var until := now + if hint.Some? then hint.value else delay;
      Pace(size, Min(delay * 2, maxDelay), Some(if pausedUntil.Some? then Max(pausedUntil.value, until) else until))
    }
  }

  function InitialPace(config: Config): Pace {
    Pace(Max(config.chunkSize, 1), config.baseDelay, None)
  }

  /** A locked call on the shared state. */
  datatype Op = Shrink(n: nat) | Claim | Succeed | Pause(hint: Option<nat>)

  /** A recorded call of a task, with all it was given. */
  datatype Call =
    | ClaimCall(stagger: nat, now: nat)
    | SucceedCall(baseDelay: nat)
    | PauseCall(hint: Option<nat>, maxDelay: nat, now: nat)

  class State {
    var size: nat
    var delay: nat
    var pausedUntil: Option<nat>
    /** The pacing calls of the task at hand; those of the tasks it shares the state with are not listed. */
    ghost var calls: seq<Call>
    /** The sizes that task has asked to shrink to. */
    ghost var shrinks: seq<nat>

    constructor (config: Config)
      ensures Value() == InitialPace(config) && calls == [] && shrinks == []
    {
      size, delay, pausedUntil := Max(config.chunkSize, 1), config.baseDelay, None;
      calls, shrinks := [], [];
    }

    function Value(): Pace reads this { Pace(size, delay, pausedUntil) }

    method Shrink(n: nat)
      modifies this
      ensures Value() == old(Value()).Shrunk(n) && calls == old(calls) && shrinks == old(shrinks) + [n]
    {
      shrinks := shrinks + [n];
      size := Max(Min(size, n), 1);
    }

    method ClaimSlot(stagger: nat, now: nat) returns (slot: Option<nat>)
      modifies this
      ensures (Value(), slot) == old(Value()).Claimed(stagger, now) && calls == old(calls) + [ClaimCall(stagger, now)]
      ensures shrinks == old(shrinks)
    {
      calls := calls + [ClaimCall(stagger, now)];
      if pausedUntil.None? {
        return None;
      }
      if pausedUntil.value <= now {
        pausedUntil := None;
        return None;
      }
      slot := pausedUntil;
      pausedUntil := Some(slot.value + stagger);
    }

    method Succeed(baseDelay: nat)
      modifies this
      ensures Value() == old(Value()).Succeeded(baseDelay) && calls == old(calls) + [SucceedCall(baseDelay)]
      ensures shrinks == old(shrinks)
    {
      calls := calls + [SucceedCall(baseDelay)];
      if pausedUntil.None? {
        delay := baseDelay;
      }
    }

    method Pause(hint: Option<nat>, maxDelay: nat, now: nat)
      modifies this
      ensures Value() == old(Value()).Paused(hint, maxDelay, now)
      ensures calls == old(calls) + [PauseCall(hint, maxDelay, now)]
      ensures shrinks == old(shrinks)
    {
      calls := calls + [PauseCall(hint, maxDelay, now)];
      var until := now + if hint.Some? then hint.value else delay;
      pausedUntil := Some(if pausedUntil.Some? then Max(pausedUntil.value, until) else until);
      delay := Min(delay * 2, maxDelay);
    }
  }

  // ---------- histories of the shared state ----------

  /** One locked call and the time it happened. */
  datatype Event = Event(op: Op, now: nat)

  /** The calls happen in the order of a clock that never runs backwards. */
  ghost predicate Ordered(events: seq<Event>) {
    forall i, j :: 0 <= i < j < |events| ==> events[i].now <= events[j].now
  }

  /** What one call makes of the state. */
  function Applied(config: Config, pace: Pace, event: Event): Pace {
    match event.op
    case Shrink(n) => pace.Shrunk(n)
    case Claim => pace.Claimed(config.Stagger(), event.now).0
    case Succeed => pace.Succeeded(config.baseDelay)
    case Pause(hint) => pace.Paused(hint, config.maxDelay, event.now)
  }

  function PaceAfter(config: Config, events: seq<Event>): Pace {
    if events == [] then InitialPace(config)
    else Applied(config, PaceAfter(config, events[..|events| - 1]), events[|events| - 1])
  }

  /** The slot handed out by the last call, if it was a claim that had to wait. */
  function LastSlot(config: Config, events: seq<Event>): Option<nat>
    requires events != []
  {
    var last := events[|events| - 1];
    if last.op.Claim?
    then PaceAfter(config, events[..|events| - 1]).Claimed(config.Stagger(), last.now).1
    else None
  }

  /** All slots handed out, in order. */
  function Slots(config: Config, events: seq<Event>): seq<nat> {
    if events == [] then []
    else
      Slots(config, events[..|events| - 1]) +
      match LastSlot(config, events) case Some(slot) => [slot] case None => []
  }

  /** The pauses since the back-off was last reset by a success outside a pause. */
  function PausesSinceReset(config: Config, events: seq<Event>): nat {
    if events == [] then 0
    else
      var before, last := events[..|events| - 1], events[|events| - 1];
      if last.op.Pause? then PausesSinceReset(config, before) + 1
      else if last.op.Succeed? && PaceAfter(config, before).pausedUntil == None then 0
      else PausesSinceReset(config, before)
  }

  ghost predicate Spaced(slots: seq<nat>, gap: nat) {
    forall i, j :: 0 <= i < j < |slots| ==> slots[i] + gap <= slots[j]
  }

  lemma AppendSlot(slots: seq<nat>, gap: nat, slot: nat)
    requires Spaced(slots, gap) && (slots != [] ==> slots[|slots| - 1] + gap <= slot)
    ensures Spaced(slots + [slot], gap)
  {
    var last := |slots| - 1;
    assert forall i :: 0 <= i < last ==> slots[i] + gap <= slots[last];
  }

  /** No later slot can come earlier than one stagger after the last one. */
  ghost predicate SlotsBounded(config: Config, events: seq<Event>, now: nat) {
    var slots, paused := Slots(config, events), PaceAfter(config, events).pausedUntil;
    slots != [] ==>
      slots[|slots| - 1] + config.Stagger() <= if paused.Some? then paused.value else now
  }

  lemma {:induction false} SlotsStayBounded(config: Config, events: seq<Event>)
    requires Ordered(events)
    ensures SlotsBounded(config, events, if events == [] then 0 else events[|events| - 1].now)
  {
    if events != [] {
      SlotsStayBounded(config, events[..|events| - 1]);
    }
  }

  /**
   In every history, each slot handed out lies in the future of the claim, and any two slots are at
   least one stagger apart.
   */
  lemma {:induction false} SlotsSpaced(config: Config, events: seq<Event>)
    requires Ordered(events)
    ensures Spaced(Slots(config, events), config.Stagger())
    ensures events != [] && LastSlot(config, events).Some? ==>
              LastSlot(config, events).value > events[|events| - 1].now
  {
    if events != [] {
      var before, slot := events[..|events| - 1], LastSlot(config, events);
      SlotsSpaced(config, before);
      SlotsStayBounded(config, before);
      if slot.Some? {
        AppendSlot(Slots(config, before), config.Stagger(), slot.value);
      }
    }
  }

  lemma {:induction false} SpacedApart(slots: seq<nat>, gap: nat, i: nat, n: nat)
    requires Spaced(slots, gap) && i + n < |slots|
    ensures slots[i] + n * gap <= slots[i + n]
  {
    if n > 0 {
      SpacedApart(slots, gap, i, n - 1);
      assert slots[i + (n - 1)] + gap <= slots[i + n];
      MulDistribute(n - 1, 1, gap);
    }
  }

  /** With `c` requests allowed at once, any `c + 1` slots in a row span more than the base delay less `c`. */
  lemma SlotsSpread(config: Config, events: seq<Event>, i: nat)
    requires Ordered(events)
    ensures var c, slots := if config.maxConcurrent == 0 then 1 else config.maxConcurrent, Slots(config, events);
            i + c < |slots| ==> slots[i + c] + c > slots[i] + config.baseDelay
  {
    var c, slots := if config.maxConcurrent == 0 then 1 else config.maxConcurrent, Slots(config, events);
    if i + c < |slots| {
      SlotsSpaced(config, events);
      SpacedApart(slots, config.Stagger(), i, c);
      StaggerExact(config);
      MulDistribute(config.Stagger(), 1, c);
    }
  }

  /** After a claim that had to wait, the next one waits one stagger longer, if that is still to come. */
  lemma NextSlot(config: Config, events: seq<Event>, now: nat, later: nat)
    requires LastSlot(config, events + [Event(Claim, now)]).Some?
    ensures var first := LastSlot(config, events + [Event(Claim, now)]).value;
            var second := LastSlot(config, events + [Event(Claim, now), Event(Claim, later)]);
            second == if later < first + config.Stagger() then Some(first + config.Stagger()) else None
  {
    var one, two := events + [Event(Claim, now)], events + [Event(Claim, now), Event(Claim, later)];
    assert two[..|two| - 1] == one && one[..|one| - 1] == events;
  }

  /** With the default options, two claims during a pause until 900 go at 900 and 950. */
  lemma DefaultSlots(events: seq<Event>)
    requires PaceAfter(DEFAULT, events).pausedUntil == Some(900)
    ensures Slots(DEFAULT, events + [Event(Claim, 100), Event(Claim, 100)]) == Slots(DEFAULT, events) + [900, 950]
  {
    var one, two := events + [Event(Claim, 100)], events + [Event(Claim, 100), Event(Claim, 100)];
    assert two[..|two| - 1] == one && one[..|one| - 1] == events;
    NextSlot(DEFAULT, events, 100, 100);
    assert Slots(DEFAULT, one) == Slots(DEFAULT, events) + [900];
    assert Slots(DEFAULT, events) + [900] + [950] == Slots(DEFAULT, events) + [900, 950];
  }

  /** The earliest time a slot can still be handed out for. */
  function Horizon(pace: Pace, now: nat): nat {
    if pace.pausedUntil.Some? then pace.pausedUntil.value else now
  }

  /** Until when the pause numbered `i` asks for no requests. */
  function PausedUntil(config: Config, events: seq<Event>, i: nat): nat
    requires i < |events| && events[i].op.Pause?
  {
    var hint := events[i].op.hint;
    events[i].now + if hint.Some? then hint.value else PaceAfter(config, events[..i]).delay
  }

  /** Whatever calls follow a pause, no slot is left before its end. */
  lemma {:induction false} PauseHolds(config: Config, events: seq<Event>, i: nat)
    requires Ordered(events) && i < |events| && events[i].op.Pause?
    ensures PausedUntil(config, events, i) <= Horizon(PaceAfter(config, events), events[|events| - 1].now)
  {
    var before, last := events[..|events| - 1], events[|events| - 1];
    if i < |before| {
      PauseHolds(config, before, i);
      assert before[..i] == events[..i];
      CallHolds(config, PaceAfter(config, before), before[|before| - 1].now, last, PausedUntil(config, events, i));
    }
  }

  lemma CallHolds(config: Config, pace: Pace, was: nat, event: Event, until: nat)
    requires was <= event.now && until <= Horizon(pace, was)
    ensures until <= Horizon(Applied(config, pace, event), event.now)
  {
  }

  /** Every claim after a pause waits for a slot past its end, or comes after its end. */
  lemma PauseRespected(config: Config, events: seq<Event>, i: nat)
    requires Ordered(events) && i < |events| - 1 && events[i].op.Pause? && events[|events| - 1].op.Claim?
    ensures var slot := LastSlot(config, events);
            PausedUntil(config, events, i) <= if slot.Some? then slot.value else events[|events| - 1].now
  {
    var before := events[..|events| - 1];
    PauseHolds(config, before, i);
    assert before[..i] == events[..i];
  }

  /** The claims after event `i`. */
  function ClaimsSince(events: seq<Event>, i: nat): nat {
    if |events| <= i + 1 then 0
    else ClaimsSince(events[..|events| - 1], i) + if events[|events| - 1].op.Claim? then 1 else 0
  }

  /** `time` is the end of the pause numbered `i`, later by a stagger for some of the claims made since. */
  ghost predicate EarnedBy(config: Config, events: seq<Event>, time: nat, i: nat, m: nat) {
    && i < |events| && events[i].op.Pause? && m <= ClaimsSince(events, i)
    && time == PausedUntil(config, events, i) + m * config.Stagger()
  }

  ghost predicate Earned(config: Config, events: seq<Event>, time: nat) {
    exists i: nat, m: nat :: EarnedBy(config, events, time, i, m)
  }

  lemma EarnedLater(config: Config, events: seq<Event>, event: Event, time: nat, i: nat, m: nat)
    requires EarnedBy(config, events, time, i, m)
    ensures Earned(config, events + [event], time)
    ensures event.op.Claim? ==> Earned(config, events + [event], time + config.Stagger())
  {
    var all := events + [event];
    assert all[..|all| - 1] == events && all[..i] == events[..i];
    assert EarnedBy(config, all, time, i, m);
    MulDistribute(m, 1, config.Stagger());
    assert event.op.Claim? ==> EarnedBy(config, all, time + config.Stagger(), i, m + 1);
  }

  /**
   Nobody waits for nothing: in every history, whatever the state holds back requests until is the end
   of a pause made before, or later by one stagger for each claim it has already held back.
   */
  lemma {:induction false} WaitsAreEarned(config: Config, events: seq<Event>)
    ensures PaceAfter(config, events).pausedUntil.Some? ==>
      Earned(config, events, PaceAfter(config, events).pausedUntil.value)
  {
    if events != [] {
      var before, last := events[..|events| - 1], events[|events| - 1];
      WaitsAreEarned(config, before);
      assert events == before + [last];
      var was := PaceAfter(config, before).pausedUntil;
      if was.Some? {
        var i: nat, m: nat :| EarnedBy(config, before, was.value, i, m);
        EarnedLater(config, before, last, was.value, i, m);
      }
      if last.op.Pause? {
        assert EarnedBy(config, events, PausedUntil(config, events, |before|), |before|, 0);
      }
    }
  }

  /** So is every slot handed out. */
  lemma {:induction false} AllSlotsEarned(config: Config, events: seq<Event>, i: nat)
    requires i < |Slots(config, events)|
    ensures Earned(config, events, Slots(config, events)[i])
  {
    var before, last := events[..|events| - 1], events[|events| - 1];
    assert events == before + [last];
    if i < |Slots(config, before)| {
      AllSlotsEarned(config, before, i);
    } else {
      WaitsAreEarned(config, before);
    }
    var time := Slots(config, events)[i];
    var j: nat, m: nat :| EarnedBy(config, before, time, j, m);
    EarnedLater(config, before, last, time, j, m);
  }

  /** The back-off `k` pauses after a reset. */
  function BackOff(config: Config, k: nat): nat {
    if k == 0 then config.baseDelay else Min(config.baseDelay * Pow(2, k), config.maxDelay)
  }

  lemma BackOffDoubles(config: Config, k: nat)
    ensures Min(BackOff(config, k) * 2, config.maxDelay) == BackOff(config, k + 1)
  {
    MulAssociate(config.baseDelay, Pow(2, k), 2);
    assert Pow(2, k + 1) == Pow(2, k) * 2;
    if k == 0 {
      assert Pow(2, 0) == 1;
    }
  }

  /** After `k >= 1` pauses since the last reset the next pause lasts `min(base * 2^k, max)`. */
  lemma {:induction false} DelayAfterPauses(config: Config, events: seq<Event>)
    ensures PaceAfter(config, events).delay == BackOff(config, PausesSinceReset(config, events))
  {
    if events != [] {
      var before := events[..|events| - 1];
      DelayAfterPauses(config, before);
      BackOffDoubles(config, PausesSinceReset(config, before));
    }
  }

  /** The chunk size is the least of the configured one and all that were asked for, none counting as less than one. */
  lemma {:induction false} SizeExact(config: Config, events: seq<Event>)
    ensures var size := PaceAfter(config, events).size;
            && size <= Max(config.chunkSize, 1)
            && (forall i :: 0 <= i < |events| && events[i].op.Shrink? ==> size <= Max(events[i].op.n, 1))
            && (size == Max(config.chunkSize, 1)
                || exists i :: 0 <= i < |events| && events[i].op.Shrink? && size == Max(events[i].op.n, 1))
  {
    if events != [] {
      var before, last := events[..|events| - 1], events[|events| - 1];
      SizeExact(config, before);
      assert forall i :: 0 <= i < |before| ==> events[i] == before[i];
      var size, was := PaceAfter(config, events).size, PaceAfter(config, before).size;
      if size == was != Max(config.chunkSize, 1) {
        var i :| 0 <= i < |before| && before[i].op.Shrink? && was == Max(before[i].op.n, 1);
        assert events[i].op.Shrink?;
      } else if size != was {
        assert last.op.Shrink? && events[|before|].op.Shrink?;
      }
    }
  }

  /** The chunk size never grows and never falls below one. */
  lemma {:induction false} SizeShrinks(config: Config, events: seq<Event>, n: nat)
    requires n <= |events|
    ensures 1 <= PaceAfter(config, events).size <= PaceAfter(config, events[..n]).size
    decreases |events|
  {
    if n < |events| {
      var before := events[..|events| - 1];
      SizeShrinks(config, before, n);
      assert before[..n] == events[..n];
    } else {
      assert events[..n] == events;
      if events != [] {
        SizeShrinks(config, events[..|events| - 1], 0);
      }
    }
  }
}
