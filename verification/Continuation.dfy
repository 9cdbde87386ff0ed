/** The run loop: lazily materialised states, checkpoint cadence and stop requests. */
module Continuation {
  import opened Basics
  import opened RunState

  // ---- the callbacks ----

  /** What executing one source unit yields: it raises, returns something that is not a
      mapping, or returns a mapping with some of the four counters. */
  datatype Outcome =
    | Raised
    | Plain
    | Counters(epoch: Option<int>, optimizerStep: Option<int>, globalStep: Option<int>, retryCount: Option<int>)

  /** What saving yields: an identity, or it raises, before or after the state was saved. */
  datatype SaveAnswer = Returned(identity: string) | RaisedUnsaved | RaisedSaved

  /** execute answers for the item at a position, given the state it is passed; save answers
      for the state it is given, and is None when no checkpoint callback is supplied. */
  datatype Callbacks = Callbacks(
    execute: (nat, string, State) -> Outcome,
    save: Option<(nat, State, Outcome) -> SaveAnswer>)

  datatype Status = Complete | StoppedAtBoundary

  datatype RunResult = RunResult(state: State, status: Status, consumed: seq<string>, checkpoints: seq<string>)

  datatype RunError =
    | ScheduleMismatch | BadStop | StepRaised | InvalidState | SaveRaised | BadIdentity | ResultRejected

  const SHA256_PREFIX: string := "sha256:"

  predicate IsIdentity(identity: string) { SHA256_PREFIX <= identity }

  // ---- one segment as a fold over items ----

  /** default_step % interval == 0 once the item before position i has run. */
  predicate Due(s: State, i: int)
    requires s.interval > 0
  {
    (s.optimizerStep + i - s.next) % s.interval == 0
  }

  /** The positions at which the checkpoint callback is called. */
  predicate Durable(s: State, i: int)
    requires s.interval > 0
  {
    Due(s, i) || i == s.total
  }

  predicate StopHere(s: State, stop: Option<int>, i: int) { stop.Some? && i - s.next >= stop.value }

  /** A new state built from the segment's start state, the epoch so far and the outcome. */
  function Materialised(s: State, current: State, i: int, o: Outcome): State
    requires Valid(s) && s.next < i <= s.total
  {
    var d := StateAt(s, i);
    if o.Counters? then
      d.(epoch := o.epoch.GetOr(current.epoch), optimizerStep := o.optimizerStep.GetOr(d.optimizerStep),
         globalStep := o.globalStep.GetOr(d.globalStep), retryCount := o.retryCount.GetOr(s.retryCount))
    else d.(epoch := current.epoch)
  }

  /** What a segment does: how it ends, the execute calls, the states handed to the
      checkpoint callback and durably saved, and the identities collected. */
  datatype Segment = Segment(
    outcome: Result<(State, Status), RunError>,
    executed: seq<(string, State)>, saved: seq<State>, identities: seq<string>)

  /** One item: the error and what was saved before it, or the next state and what was saved. */
  datatype Item = Failed(error: RunError, saved: seq<State>) | Ran(next: State, saved: seq<State>, identities: seq<string>)

  function RunItem(s: State, cb: Callbacks, stop: Option<int>, i: int, current: State): Item
    requires Valid(s) && s.next <= i < s.total
  {
    var o := cb.execute(i, s.scheduled[i], current);
    var j := i + 1;
    var next := if Durable(s, j) || StopHere(s, stop, j) then Materialised(s, current, j, o) else current;
    if o.Raised? then Failed(StepRaised, [])
    else if !Valid(next) then Failed(InvalidState, [])
    else if cb.save.Some? && Durable(s, j) then
      match cb.save.value(j, next, o)
      case RaisedUnsaved => Failed(SaveRaised, [])
      case RaisedSaved => Failed(SaveRaised, [next])
      case Returned(identity) => if IsIdentity(identity) then Ran(next, [next], [identity]) else Failed(BadIdentity, [next])
    else Ran(next, [], [])
  }

  function Prepend(executed: seq<(string, State)>, saved: seq<State>, identities: seq<string>, more: Segment): Segment {
    Segment(more.outcome, executed + more.executed, saved + more.saved, identities + more.identities)
  }

  /** The segment from position i on, with the last materialised state current. */
  function Go(s: State, cb: Callbacks, stop: Option<int>, i: int, current: State): Segment
    requires Valid(s) && s.next <= i <= s.total
    decreases s.total - i, 0
  {
    if i == s.total then Segment(Ok((current, Complete)), [], [], [])
    else
      var call := (s.scheduled[i], current);
      match RunItem(s, cb, stop, i, current)
      case Failed(e, saved) => Segment(Err(e), [call], saved, [])
      case Ran(next, saved, identities) => Prepend([call], saved, identities, Continue(s, cb, stop, i + 1, next))
  }

  function Continue(s: State, cb: Callbacks, stop: Option<int>, j: int, current: State): Segment
    requires Valid(s) && s.next < j <= s.total
    decreases s.total - j, 1
  {
    if StopHere(s, stop, j) && j != s.total then Segment(Ok((current, StoppedAtBoundary)), [], [], [])
    else Go(s, cb, stop, j, current)
  }

  lemma PrependTwice(e1: seq<(string, State)>, s1: seq<State>, i1: seq<string>,
                     e2: seq<(string, State)>, s2: seq<State>, i2: seq<string>, more: Segment)
    ensures Prepend(e1, s1, i1, Prepend(e2, s2, i2, more)) == Prepend(e1 + e2, s1 + s2, i1 + i2, more)
    ensures Prepend([], [], [], more) == more
  {
    assert e1 + (e2 + more.executed) == e1 + e2 + more.executed;
    assert s1 + (s2 + more.saved) == s1 + s2 + more.saved;
    assert i1 + (i2 + more.identities) == i1 + i2 + more.identities;
    assert [] + more.executed == more.executed && [] + more.saved == more.saved && [] + more.identities == more.identities;
  }

  /** BehaviorContinuationResultV1: rejects a consumed list that is not the ledger. */
  function MakeResult(state: State, status: Status, consumed: seq<string>, checkpoints: seq<string>): Result<RunResult, RunError> {
    if consumed != Items(state.completed) || "" in checkpoints then Err(ResultRejected)
    else Ok(RunResult(state, status, consumed, checkpoints))
  }

  function ToResult(s: State, g: Segment): Result<RunResult, RunError> {
    match g.outcome
    case Err(e) => Err(e)
    case Ok(end) => Ok(RunResult(end.0, end.1, Items(end.0.completed), g.identities))
  }

  /** The body of the loop up to the stop check. */
  method RunOneItem(state: State, cb: Callbacks, stopAfter: Option<int>, index: int, current: State, consumedCount: int)
    returns (item: Item)
    requires Valid(state) && state.next <= index < state.total && consumedCount == index
    ensures item == RunItem(state, cb, stopAfter, index, current)
  {
    var outcome := cb.execute(index, state.scheduled[index], current);
    if outcome.Raised? { return Failed(StepRaised, []); }
    var next := index + 1;
    var defaultStep := state.optimizerStep + (consumedCount + 1) - state.next;
    var defaultGlobal := state.globalStep + (consumedCount + 1) - state.next;
    var terminal := next == state.total;
    var due := defaultStep % state.interval == 0;
    var newest := current;
    if due || terminal || (stopAfter.Some? && next - state.next >= stopAfter.value) {
      var metrics := if outcome.Counters? then outcome else Counters(None, None, None, None);
      newest := State(
        state.runId, state.passId, metrics.epoch.GetOr(current.epoch), next, state.total, state.batchSize,
        state.interval, metrics.optimizerStep.GetOr(defaultStep), metrics.globalStep.GetOr(defaultGlobal),
        metrics.retryCount.GetOr(state.retryCount), state.authority, state.scheduled,
        Prefix(state.scheduled, next), state.carryPolicy, state.finalPolicy, SCHEMA);
      assert newest == Materialised(state, current, next, outcome);
    }
    if !Valid(newest) { return Failed(InvalidState, []); }
    if cb.save.Some? && (due || terminal) {
      var answer := cb.save.value(next, newest, outcome);
      if !answer.Returned? { return Failed(SaveRaised, if answer.RaisedSaved? then [newest] else []); }
      if !IsIdentity(answer.identity) { return Failed(BadIdentity, [newest]); }
      return Ran(newest, [newest], [answer.identity]);
    }
    return Ran(newest, [], []);
  }

  /** The whole call: argument checks, then the loop. */
  method RunBehaviorContinuation(state: State, cb: Callbacks, sourceIds: Option<seq<string>>, stopAfter: Option<int>)
    returns (r: Result<RunResult, RunError>, executed: seq<(string, State)>, saved: seq<State>)
    requires Valid(state)
    ensures sourceIds.Some? && sourceIds.value != state.scheduled ==>
              r == Err(ScheduleMismatch) && executed == [] && saved == []
    ensures (sourceIds.Some? ==> sourceIds.value == state.scheduled) && stopAfter.Some? && stopAfter.value < 1 ==>
              r == Err(BadStop) && executed == [] && saved == []
    ensures (sourceIds.Some? ==> sourceIds.value == state.scheduled) && (stopAfter.Some? ==> stopAfter.value >= 1) ==>
              var g := Go(state, cb, stopAfter, state.next, state);
              executed == g.executed && saved == g.saved && r == ToResult(state, g)
  {
    if sourceIds.Some? && sourceIds.value != state.scheduled { return Err(ScheduleMismatch), [], []; }
    if stopAfter.Some? && stopAfter.value < 1 { return Err(BadStop), [], []; }
    r, executed, saved := RunSegment(state, cb, stopAfter);
  }

  /** The loop as written. The rebuild after the loop is dead and the result constructor
      never rejects: both follow from the loop invariants. */
  method RunSegment(state: State, cb: Callbacks, stopAfter: Option<int>)
    returns (r: Result<RunResult, RunError>, executed: seq<(string, State)>, saved: seq<State>)
    requires Valid(state)
    ensures var g := Go(state, cb, stopAfter, state.next, state);
            executed == g.executed && saved == g.saved && r == ToResult(state, g)
  {
    executed, saved := [], [];
    ghost var g := Go(state, cb, stopAfter, state.next, state);
    LedgerIsPrefix(state);
    PrependTwice([], [], [], [], [], [], g);
    var current := state;
    var consumed := Items(state.completed);
    var checkpoints: seq<string> := [];
    var segmentSteps := 0;
    var next := state.next;
    while next < state.total
      invariant state.next <= next <= state.total && segmentSteps == next - state.next
      invariant consumed == state.scheduled[..next]
      invariant "" !in checkpoints
      invariant HoldsPrefix(state, current) && (next == state.total ==> current.next == next)
      invariant Prepend(executed, saved, checkpoints, Go(state, cb, stopAfter, next, current)) == g
      decreases state.total - next
    {
      var call := (state.scheduled[next], current);
      var item := RunOneItem(state, cb, stopAfter, next, current, |consumed|);
      RunItemKeeps(state, cb, stopAfter, next, current);
      if item.Failed? {
        executed, saved := executed + [call], saved + item.saved;
        return Err(item.error), executed, saved;
      }
      ConsumeNext(state.scheduled, next);
      consumed := consumed + [state.scheduled[next]];
      next := next + 1;
      segmentSteps := segmentSteps + 1;
      PrependTwice(executed, saved, checkpoints, [call], item.saved, item.identities,
                   Continue(state, cb, stopAfter, next, item.next));
      current := item.next;
      executed, saved, checkpoints := executed + [call], saved + item.saved, checkpoints + item.identities;
      if stopAfter.Some? && segmentSteps >= stopAfter.value && next != state.total {
        EndsWith(g, executed, saved, checkpoints, (current, StoppedAtBoundary));
        r := MakeResult(current, StoppedAtBoundary, consumed, checkpoints);
        return;
      }
    }
    if current.next != next {
      assert false;
    }
    EndsWith(g, executed, saved, checkpoints, (current, Complete));
    r := MakeResult(current, Complete, consumed, checkpoints);
  }

  lemma ConsumeNext(scheduled: seq<string>, i: nat)
    requires i < |scheduled|
    ensures scheduled[..i + 1] == scheduled[..i] + [scheduled[i]]
  {
  }

  /** current is a valid state over the same schedule. */
  ghost predicate HoldsPrefix(s: State, current: State) {
    Valid(current) && current.scheduled == s.scheduled && Items(current.completed) == s.scheduled[..current.next]
  }

  lemma RunItemKeeps(s: State, cb: Callbacks, stop: Option<int>, i: int, current: State)
    requires Valid(s) && s.next <= i < s.total && HoldsPrefix(s, current)
    ensures var item := RunItem(s, cb, stop, i, current);
            item.Ran? ==> HoldsPrefix(s, item.next) && "" !in item.identities &&
                          (i + 1 == s.total || StopHere(s, stop, i + 1) ==> item.next.next == i + 1)
  {
    assert !IsIdentity("");
    if RunItem(s, cb, stop, i, current).Ran? { LedgerIsPrefix(RunItem(s, cb, stop, i, current).next); }
  }

  lemma EndsWith(g: Segment, executed: seq<(string, State)>, saved: seq<State>, identities: seq<string>, end: (State, Status))
    requires g == Prepend(executed, saved, identities, Segment(Ok(end), [], [], []))
    ensures g == Segment(Ok(end), executed, saved, identities)
  {
    assert executed + [] == executed && saved + [] == saved && identities + [] == identities;
  }
}
