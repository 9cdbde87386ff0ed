/** Outcomes that report counters: an outcome is read only where a state is built, so a stop
    may show. This says exactly when it does. */
module MappingOutcomes {
  import opened Basics
  import opened Division
  import opened RunState
  import opened Continuation

  /** What each item reports, by its position. */
  type Reports = int -> Outcome

  function Epoch(o: Outcome): Option<int> { if o.Counters? then o.epoch else None }

  function OptimizerStep(o: Outcome): Option<int> { if o.Counters? then o.optimizerStep else None }

  function GlobalStep(o: Outcome): Option<int> { if o.Counters? then o.globalStep else None }

  function RetryCount(o: Outcome): Option<int> { if o.Counters? then o.retryCount else None }

  predicate Natural(v: Option<int>) { v.Some? ==> v.value >= 0 }

  /** Reports that make accepted states. */
  ghost predicate Sound(reports: Reports) {
    forall i :: SoundReport(reports(i))
  }

  predicate SoundReport(o: Outcome) {
    !o.Raised? && Natural(Epoch(o)) && Natural(OptimizerStep(o)) && Natural(GlobalStep(o)) && Natural(RetryCount(o))
  }

  /** The callbacks answer by position, and saving, if there is any, never fails. */
  ghost predicate Answers(cb: Callbacks, reports: Reports) {
    Sound(reports) && (forall i: nat, id, c :: cb.execute(i, id, c) == reports(i)) && NeverFailsToSave(cb)
  }

  ghost predicate NeverFailsToSave(cb: Callbacks) {
    cb.save.Some? ==> forall i, c, o :: cb.save.value(i, c, o).Returned? && IsIdentity(cb.save.value(i, c, o).identity)
  }

  // ---- what a run comes to ----

  /** The state built at i when the last built one had this epoch. */
  function BuiltAt(s: State, reports: Reports, i: int, epoch: int): State
    requires Valid(s) && s.next < i <= s.total
  {
    Materialised(s, s.(epoch := epoch), i, reports(i - 1))
  }

  /** The epoch of the last state built at a position in (i, j], starting from epoch. */
  function EpochOver(s: State, reports: Reports, i: int, j: int, epoch: int): int
    requires s.interval > 0
    decreases j - i
  {
    if i >= j then epoch
    else EpochOver(s, reports, i + 1, j, if Durable(s, i + 1) then Epoch(reports(i)).GetOr(epoch) else epoch)
  }

  /** The state built at m by a run from s. */
  function StateBuilt(s: State, reports: Reports, m: int): State
    requires Valid(s) && s.next < m <= s.total
  {
    BuiltAt(s, reports, m, EpochOver(s, reports, s.next, m - 1, s.epoch))
  }

  /** The state an uninterrupted run ends in. */
  function FinalState(s: State, reports: Reports): State
    requires Valid(s) && s.next < s.total
  {
    StateBuilt(s, reports, s.total)
  }

  lemma MaterialisedValid(s: State, current: State, i: int, o: Outcome)
    requires Valid(s) && s.next < i <= s.total && current.epoch >= 0 && SoundReport(o)
    ensures Valid(Materialised(s, current, i, o)) && Materialised(s, current, i, o).next == i
    ensures Materialised(s, current, i, o) == Materialised(s, s.(epoch := current.epoch), i, o)
    ensures Materialised(s, current, i, o).epoch == Epoch(o).GetOr(current.epoch)
  {
    StateAtValid(s, i);
  }

  /** One item never fails. */
  lemma ItemRuns(s: State, cb: Callbacks, reports: Reports, stop: Option<int>, i: int, current: State)
    requires Valid(s) && Answers(cb, reports) && s.next <= i < s.total && Valid(current)
    ensures var item := RunItem(s, cb, stop, i, current);
            && item.Ran? && Valid(item.next)
            && item.next == if Durable(s, i + 1) || StopHere(s, stop, i + 1) then BuiltAt(s, reports, i + 1, current.epoch) else current
  {
    assert SoundReport(reports(i));
    MaterialisedValid(s, current, i + 1, reports(i));
    SavingIsSafe(s, cb, stop, i, current);
  }

  /** An item that makes an accepted state runs. */
  lemma SavingIsSafe(s: State, cb: Callbacks, stop: Option<int>, i: int, current: State)
    requires Valid(s) && s.next <= i < s.total && NeverFailsToSave(cb) && !cb.execute(i, s.scheduled[i], current).Raised?
    requires Valid(if Durable(s, i + 1) || StopHere(s, stop, i + 1)
                   then Materialised(s, current, i + 1, cb.execute(i, s.scheduled[i], current)) else current)
    ensures RunItem(s, cb, stop, i, current).Ran?
  {
  }

  /** One turn: the state it goes on with, and the epoch carried. */
  lemma OneTurn(s: State, cb: Callbacks, reports: Reports, stop: Option<int>, i: int, current: State) returns (next: State)
    requires Valid(s) && Answers(cb, reports) && s.next <= i < s.total && Valid(current)
    ensures Valid(next) && Go(s, cb, stop, i, current).outcome == Continue(s, cb, stop, i + 1, next).outcome
    ensures var built := Durable(s, i + 1) || StopHere(s, stop, i + 1);
            && (built ==> next == BuiltAt(s, reports, i + 1, current.epoch))
            && next.epoch == if built then Epoch(reports(i)).GetOr(current.epoch) else current.epoch
  {
    ItemRuns(s, cb, reports, stop, i, current);
    next := RunItem(s, cb, stop, i, current).next;
    assert SoundReport(reports(i));
    MaterialisedValid(s, s.(epoch := current.epoch), i + 1, reports(i));
  }

  /** Uninterrupted, a run ends in the state its last item builds. */
  lemma RunsThrough(s: State, cb: Callbacks, reports: Reports)
    requires Valid(s) && Answers(cb, reports) && s.next < s.total
    ensures Go(s, cb, None, s.next, s).outcome == Ok((FinalState(s, reports), Complete))
  {
    var last := Reaches(s, cb, reports, None, s.next, s, s.total - 1);
    LastTurn(s, cb, reports, last);
  }

  lemma LastTurn(s: State, cb: Callbacks, reports: Reports, current: State)
    requires Valid(s) && Answers(cb, reports) && s.next < s.total && Valid(current)
    requires current.epoch == EpochOver(s, reports, s.next, s.total - 1, s.epoch)
    ensures Go(s, cb, None, s.total - 1, current).outcome == Ok((FinalState(s, reports), Complete))
  {
    var next := OneTurn(s, cb, reports, None, s.total - 1, current);
    IsFinal(s, reports, next);
    NothingLeft(s, cb, next);
  }

  lemma IsFinal(s: State, reports: Reports, built: State)
    requires Valid(s) && s.next < s.total
    requires built == BuiltAt(s, reports, s.total, EpochOver(s, reports, s.next, s.total - 1, s.epoch))
    ensures built == FinalState(s, reports)
  {
  }

  lemma NothingLeft(s: State, cb: Callbacks, current: State)
    requires Valid(s) && s.next < s.total
    ensures Continue(s, cb, None, s.total, current).outcome == Ok((current, Complete))
  {
  }

  /** Stopped at k, it returns the state the item before k builds. */
  lemma StopsAt(s: State, cb: Callbacks, reports: Reports, k: int)
    requires Valid(s) && Answers(cb, reports) && s.next < k < s.total
    ensures Go(s, cb, Some(k - s.next), s.next, s).outcome == Ok((StoppedState(s, reports, k), StoppedAtBoundary))
  {
    var last := Reaches(s, cb, reports, Some(k - s.next), s.next, s, k - 1);
    StopsNow(s, cb, reports, k, last);
  }

  /** The turns before a stop. */
  lemma {:induction false} Reaches(s: State, cb: Callbacks, reports: Reports, stop: Option<int>, i: int, current: State, j: int)
    returns (last: State)
    requires Valid(s) && Answers(cb, reports) && s.next <= i <= j < s.total && Valid(current)
    requires stop.None? || stop.value > j - s.next
    ensures Valid(last) && SameEnd(s, cb, stop, i, current, j, last)
    ensures last.epoch == EpochOver(s, reports, i, j, current.epoch)
    decreases j - i
  {
    if i == j {
      last := current;
    } else {
      var next := GoesOn(s, cb, reports, stop, i, current, j);
      last := Reaches(s, cb, reports, stop, i + 1, next, j);
      SameEndChains(s, cb, stop, i, current, i + 1, next, j, last);
    }
  }

  /** Going on from i and from j ends the same. */
  predicate SameEnd(s: State, cb: Callbacks, stop: Option<int>, i: int, a: State, j: int, b: State)
    requires Valid(s) && s.next <= i <= s.total && s.next <= j <= s.total
  {
    Go(s, cb, stop, i, a).outcome == Go(s, cb, stop, j, b).outcome
  }

  lemma SameEndChains(s: State, cb: Callbacks, stop: Option<int>, i: int, a: State, j: int, b: State, k: int, c: State)
    requires Valid(s) && s.next <= i <= s.total && s.next <= j <= s.total && s.next <= k <= s.total
    requires SameEnd(s, cb, stop, i, a, j, b) && SameEnd(s, cb, stop, j, b, k, c)
    ensures SameEnd(s, cb, stop, i, a, k, c)
  {
  }

  lemma StopsNow(s: State, cb: Callbacks, reports: Reports, k: int, current: State)
    requires Valid(s) && Answers(cb, reports) && s.next < k < s.total && Valid(current)
    requires current.epoch == EpochBefore(s, reports, k)
    ensures Go(s, cb, Some(k - s.next), k - 1, current).outcome == Ok((StoppedState(s, reports, k), StoppedAtBoundary))
  {
    var next := OneTurn(s, cb, reports, Some(k - s.next), k - 1, current);
    assert Continue(s, cb, Some(k - s.next), k, next).outcome == Ok((next, StoppedAtBoundary));
  }

  /** Before the stop a turn is followed by the next. */
  lemma GoesOn(s: State, cb: Callbacks, reports: Reports, stop: Option<int>, i: int, current: State, j: int)
    returns (next: State)
    requires Valid(s) && Answers(cb, reports) && s.next <= i < j < s.total && Valid(current)
    requires stop.None? || stop.value > j - s.next
    ensures Valid(next) && SameEnd(s, cb, stop, i, current, i + 1, next)
    ensures EpochOver(s, reports, i, j, current.epoch) == EpochOver(s, reports, i + 1, j, next.epoch)
  {
    next := OneTurn(s, cb, reports, stop, i, current);
    NotYet(s, cb, stop, i + 1, next);
  }

  lemma NotYet(s: State, cb: Callbacks, stop: Option<int>, j: int, current: State)
    requires Valid(s) && s.next < j <= s.total && (!StopHere(s, stop, j) || j == s.total)
    ensures Continue(s, cb, stop, j, current) == Go(s, cb, stop, j, current)
  {
  }

  // ---- when a stop at k shows ----

  /** The report at the stop keeps a counter of a later state when it equals the default there,
      or when the report that state is built from gives the counter anyway. */
  predicate Kept(report: Option<int>, default: int, later: Option<int>) { later.Some? || report.GetOr(default) == default }

  ghost predicate OptimizerStepKept(s: State, reports: Reports, k: int, m: int) {
    Kept(OptimizerStep(reports(k - 1)), s.optimizerStep + k - s.next, OptimizerStep(reports(m - 1)))
  }

  ghost predicate GlobalStepKept(s: State, reports: Reports, k: int, m: int) {
    Kept(GlobalStep(reports(k - 1)), s.globalStep + k - s.next, GlobalStep(reports(m - 1)))
  }

  ghost predicate RetryCountKept(s: State, reports: Reports, k: int, m: int) {
    Kept(RetryCount(reports(k - 1)), s.retryCount, RetryCount(reports(m - 1)))
  }

  /** The last position in (i, j] where a run with the cadence of s builds a state from a
      report that gives an epoch. */
  function LatestReport(s: State, reports: Reports, i: int, j: int): (m: Option<int>)
    requires s.interval > 0
    ensures m.Some? ==> i < m.value <= j && Durable(s, m.value) && Epoch(reports(m.value - 1)).Some?
    decreases j - i
  {
    if i >= j then None
    else if Durable(s, j) && Epoch(reports(j - 1)).Some? then Some(j)
    else LatestReport(s, reports, i, j - 1)
  }

  /** The epoch reported there, or else the one at the start. */
  function Carried(s: State, reports: Reports, i: int, j: int, epoch: int): int
    requires s.interval > 0
  {
    var m := LatestReport(s, reports, i, j);
    if m.Some? then Epoch(reports(m.value - 1)).value else epoch
  }

  lemma {:induction false} EpochIsCarried(s: State, reports: Reports, i: int, j: int, epoch: int)
    requires s.interval > 0
    ensures EpochOver(s, reports, i, j, epoch) == Carried(s, reports, i, j, epoch)
    decreases j - i
  {
    if i < j {
      EpochIsCarried(s, reports, i, j - 1, epoch);
      EpochLast(s, reports, i, j, epoch);
    }
  }

  /** The epoch of the state built at m survives the stop: the report there gives it, or the
      latest one reported before m, on the cadence of the run and on that of the stopped and
      resumed one, is the same. */
  ghost predicate EpochKept(s: State, reports: Reports, k: int, m: int)
    requires Valid(s) && s.next < k < s.total
  {
    SameEpoch(s, StoppedState(s, reports, k), reports, k, m,
              Epoch(reports(k - 1)).GetOr(Carried(s, reports, s.next, k - 1, s.epoch)))
  }

  /** At m a run from s and one with the cadence of c, at k with this epoch, have the same epoch. */
  ghost predicate SameEpoch(s: State, c: State, reports: Reports, k: int, m: int, epoch: int)
    requires s.interval > 0 && c.interval > 0
  {
    Epoch(reports(m - 1)).Some? || Carried(s, reports, s.next, m - 1, s.epoch) == Carried(c, reports, k, m - 1, epoch)
  }

  /** The optimizer step reported at k falls on the cadence the run already had. */
  ghost predicate CadenceKept(s: State, reports: Reports, k: int)
    requires s.interval > 0
  {
    var default := s.optimizerStep + k - s.next;
    OptimizerStep(reports(k - 1)).GetOr(default) % s.interval == default % s.interval
  }

  /** Some state built strictly between i and the end reports an epoch. */
  ghost predicate EpochReported(s: State, reports: Reports, i: int, j: int)
    requires s.interval > 0
  {
    exists m :: i < m <= j && Durable(s, m) && Epoch(reports(m - 1)).Some?
  }

  /** The epoch before k, as the last built state has it. */
  function EpochBefore(s: State, reports: Reports, k: int): int
    requires s.interval > 0
  {
    EpochOver(s, reports, s.next, k - 1, s.epoch)
  }

  /** Without a change of cadence: the last item reports an epoch, a state built after k does,
      a state is built at k anyway, or the report at k changes nothing. */
  ghost predicate EpochKeptOnCadence(s: State, reports: Reports, k: int)
    requires s.interval > 0
  {
    || Epoch(reports(s.total - 1)).Some?
    || EpochReported(s, reports, k, s.total - 1)
    || Durable(s, k)
    || Epoch(reports(k - 1)).GetOr(EpochBefore(s, reports, k)) == EpochBefore(s, reports, k)
  }

  /** The state a run stopped at k returns. */
  function StoppedState(s: State, reports: Reports, k: int): State
    requires Valid(s) && s.next < k < s.total
  {
    StateBuilt(s, reports, k)
  }

  lemma StoppedValid(s: State, reports: Reports, k: int)
    requires Valid(s) && Sound(reports) && s.next < k < s.total
    ensures Valid(StoppedState(s, reports, k)) && StoppedState(s, reports, k).next == k
  {
    EpochNatural(s, reports, s.next, k - 1, s.epoch);
    assert SoundReport(reports(k - 1));
    MaterialisedValid(s, s.(epoch := EpochBefore(s, reports, k)), k, reports(k - 1));
  }

  lemma {:induction false} EpochNatural(s: State, reports: Reports, i: int, j: int, epoch: int)
    requires s.interval > 0 && Sound(reports) && epoch >= 0
    ensures EpochOver(s, reports, i, j, epoch) >= 0
    decreases j - i
  {
    if i < j {
      assert SoundReport(reports(i));
      EpochNatural(s, reports, i + 1, j, if Durable(s, i + 1) then Epoch(reports(i)).GetOr(epoch) else epoch);
    }
  }

  /** Two epochs carried over the same positions end equal iff they start equal or one is reported on the way. */
  lemma {:induction false} EpochsMeet(s: State, reports: Reports, i: int, j: int, a: int, b: int)
    requires s.interval > 0
    ensures EpochOver(s, reports, i, j, a) == EpochOver(s, reports, i, j, b) <==> a == b || EpochReported(s, reports, i, j)
    decreases j - i
  {
    if i < j {
      var built, e := Durable(s, i + 1), Epoch(reports(i));
      EpochsMeet(s, reports, i + 1, j, if built then e.GetOr(a) else a, if built then e.GetOr(b) else b);
      if built && e.Some? {
        assert Durable(s, i + 1) && Epoch(reports(i + 1 - 1)).Some?;
      }
      if m :| i < m <= j && Durable(s, m) && Epoch(reports(m - 1)).Some? {
        if m > i + 1 { assert EpochReported(s, reports, i + 1, j); }
      }
    }
  }

  lemma {:induction false} EpochSplit(s: State, reports: Reports, i: int, k: int, j: int, epoch: int)
    requires s.interval > 0 && i <= k <= j
    ensures EpochOver(s, reports, i, j, epoch) == EpochOver(s, reports, k, j, EpochOver(s, reports, i, k, epoch))
    decreases k - i
  {
    if i < k {
      EpochSplit(s, reports, i + 1, k, j, if Durable(s, i + 1) then Epoch(reports(i)).GetOr(epoch) else epoch);
    }
  }

  lemma {:induction false} EpochLast(s: State, reports: Reports, i: int, k: int, epoch: int)
    requires s.interval > 0 && i < k
    ensures var before := EpochOver(s, reports, i, k - 1, epoch);
            EpochOver(s, reports, i, k, epoch) == if Durable(s, k) then Epoch(reports(k - 1)).GetOr(before) else before
  {
    EpochSplit(s, reports, i, k - 1, k, epoch);
  }

  /** Runs with the same cadence carry an epoch alike. */
  lemma {:induction false} SameCadence(s: State, c: State, reports: Reports, i: int, j: int, epoch: int)
    requires s.interval > 0 && c.interval > 0 && forall m | i < m <= j :: Durable(s, m) == Durable(c, m)
    ensures EpochOver(s, reports, i, j, epoch) == EpochOver(c, reports, i, j, epoch)
    decreases j - i
  {
    if i < j {
      assert Durable(s, i + 1) == Durable(c, i + 1);
      SameCadence(s, c, reports, i + 1, j, if Durable(s, i + 1) then Epoch(reports(i)).GetOr(epoch) else epoch);
    }
  }

  lemma CadenceGoesOn(s: State, reports: Reports, k: int, m: int)
    requires Valid(s) && s.next < k < s.total && k < m < s.total && CadenceKept(s, reports, k)
    ensures Valid(StoppedState(s, reports, k)) ==> Durable(s, m) == Durable(StoppedState(s, reports, k), m)
  {
    var c := StoppedState(s, reports, k);
    CongruentShift(c.optimizerStep, s.optimizerStep + k - s.next, m - k, s.interval);
    assert c.optimizerStep + m - k == c.optimizerStep + (m - k);
    assert s.optimizerStep + m - s.next == (s.optimizerStep + k - s.next) + (m - k);
  }

  /** How the epochs of the two final states compare when the cadence is kept. */
  lemma EpochExact(s: State, reports: Reports, k: int)
    requires Valid(s) && Sound(reports) && s.next < k < s.total && CadenceKept(s, reports, k)
    ensures Valid(StoppedState(s, reports, k))
    ensures var c := StoppedState(s, reports, k);
            var last := Epoch(reports(s.total - 1));
            var whole, rest := EpochOver(s, reports, s.next, s.total - 1, s.epoch), EpochOver(c, reports, k, s.total - 1, c.epoch);
            last.GetOr(whole) == last.GetOr(rest) <==> EpochKeptOnCadence(s, reports, k)
  {
    StoppedValid(s, reports, k);
    var c := StoppedState(s, reports, k);
    forall m | k < m <= s.total - 1 ensures Durable(s, m) == Durable(c, m) { CadenceGoesOn(s, reports, k, m); }
    SameCadence(s, c, reports, k, s.total - 1, c.epoch);
    EpochSplit(s, reports, s.next, k, s.total - 1, s.epoch);
    EpochLast(s, reports, s.next, k, s.epoch);
    EpochsMeet(s, reports, k, s.total - 1, EpochOver(s, reports, s.next, k, s.epoch), c.epoch);
  }

  /** The states the whole run and the stopped and resumed one build at m are equal exactly if
      the stop keeps all four counters of it. */
  ghost predicate StateKept(s: State, reports: Reports, k: int, m: int)
    requires Valid(s) && s.next < k < s.total
  {
    OptimizerStepKept(s, reports, k, m) && GlobalStepKept(s, reports, k, m) && RetryCountKept(s, reports, k, m) && EpochKept(s, reports, k, m)
  }

  /** How the state a of the whole run and b of the stopped and resumed one, built at m,
      compare: counter by counter, and nothing else can differ. */
  ghost predicate Tells(s: State, reports: Reports, k: int, m: int, a: State, b: State)
    requires Valid(s) && s.next < k < s.total
  {
    && (a.optimizerStep == b.optimizerStep <==> OptimizerStepKept(s, reports, k, m))
    && (a.globalStep == b.globalStep <==> GlobalStepKept(s, reports, k, m))
    && (a.retryCount == b.retryCount <==> RetryCountKept(s, reports, k, m))
    && (a.epoch == b.epoch <==> EpochKept(s, reports, k, m))
    && b == a.(epoch := b.epoch, optimizerStep := b.optimizerStep, globalStep := b.globalStep, retryCount := b.retryCount)
  }

  lemma StatesTell(s: State, reports: Reports, k: int, m: int)
    requires Valid(s) && Sound(reports) && s.next < k < m <= s.total && Valid(StoppedState(s, reports, k))
    ensures var c := StoppedState(s, reports, k);
            c.next == k && c.total == s.total && Tells(s, reports, k, m, StateBuilt(s, reports, m), StateBuilt(c, reports, m))
  {
    CountersTell(s, StoppedState(s, reports, k), reports, k, m);
    EpochsTell(s, reports, k, m);
  }

  lemma CountersTell(s: State, c: State, reports: Reports, k: int, m: int)
    requires Valid(s) && Valid(c) && s.next < k < m <= s.total
    requires var o := reports(k - 1);
             c == s.(completed := c.completed, next := k, epoch := c.epoch,
                     optimizerStep := OptimizerStep(o).GetOr(s.optimizerStep + k - s.next),
                     globalStep := GlobalStep(o).GetOr(s.globalStep + k - s.next), retryCount := RetryCount(o).GetOr(s.retryCount))
    ensures var a, b := StateBuilt(s, reports, m), StateBuilt(c, reports, m);
            && (a.optimizerStep == b.optimizerStep <==> OptimizerStepKept(s, reports, k, m))
            && (a.globalStep == b.globalStep <==> GlobalStepKept(s, reports, k, m))
            && (a.retryCount == b.retryCount <==> RetryCountKept(s, reports, k, m))
            && b == a.(epoch := b.epoch, optimizerStep := b.optimizerStep, globalStep := b.globalStep, retryCount := b.retryCount)
  {
  }

  lemma EpochsTell(s: State, reports: Reports, k: int, m: int)
    requires Valid(s) && s.next < k < m <= s.total && Valid(StoppedState(s, reports, k))
    ensures var c := StoppedState(s, reports, k);
            c.next == k && c.total == s.total &&
            (StateBuilt(s, reports, m).epoch == StateBuilt(c, reports, m).epoch <==> EpochKept(s, reports, k, m))
  {
    var c := StoppedState(s, reports, k);
    EpochKeptFromStop(s, c, reports, k, m);
    EpochsTellFrom(s, c, reports, m);
  }

  lemma EpochKeptFromStop(s: State, c: State, reports: Reports, k: int, m: int)
    requires Valid(s) && s.next < k < s.total && c == StoppedState(s, reports, k)
    ensures c.next == k && c.total == s.total && c.interval == s.interval > 0
    ensures EpochKept(s, reports, k, m) <==> SameEpoch(s, c, reports, c.next, m, c.epoch)
  {
    StoppedFields(s, reports, k);
  }

  lemma StoppedFields(s: State, reports: Reports, k: int)
    requires Valid(s) && s.next < k < s.total
    ensures var c := StoppedState(s, reports, k);
            && c.next == k && c.total == s.total && c.interval == s.interval
            && c.epoch == Epoch(reports(k - 1)).GetOr(Carried(s, reports, s.next, k - 1, s.epoch))
  {
    EpochBuilt(s, reports, k);
    EpochIsCarried(s, reports, s.next, k - 1, s.epoch);
  }

  lemma EpochsTellFrom(s: State, c: State, reports: Reports, m: int)
    requires Valid(s) && Valid(c) && s.next < m <= s.total && c.next < m <= c.total
    ensures StateBuilt(s, reports, m).epoch == StateBuilt(c, reports, m).epoch <==>
            SameEpoch(s, c, reports, c.next, m, c.epoch)
  {
    EpochBuilt(s, reports, m);
    EpochBuilt(c, reports, m);
    EpochIsCarried(s, reports, s.next, m - 1, s.epoch);
    EpochIsCarried(c, reports, c.next, m - 1, c.epoch);
  }

  lemma EpochBuilt(s: State, reports: Reports, m: int)
    requires Valid(s) && s.next < m <= s.total
    ensures StateBuilt(s, reports, m).epoch == Epoch(reports(m - 1)).GetOr(EpochOver(s, reports, s.next, m - 1, s.epoch))
  {
  }

  /** For every run, every stop and every reports: the stopped and resumed run and the
      uninterrupted one both complete, and each counter ends the same if and only if the stop
      keeps it. Nothing else can differ. */
  lemma StopShowsExactly(s: State, cb: Callbacks, reports: Reports, k: int)
    requires Valid(s) && Answers(cb, reports) && s.next < k < s.total
    ensures Valid(StoppedState(s, reports, k))
    ensures Go(s, cb, Some(k - s.next), s.next, s).outcome == Ok((StoppedState(s, reports, k), StoppedAtBoundary))
    ensures var c := StoppedState(s, reports, k);
            c.next == k && c.total == s.total &&
            var whole, rest := FinalState(s, reports), FinalState(c, reports);
            && Go(s, cb, None, s.next, s).outcome == Ok((whole, Complete))
            && Go(c, cb, None, c.next, c).outcome == Ok((rest, Complete))
            && Tells(s, reports, k, s.total, whole, rest)
  {
    StoppedValid(s, reports, k);
    StopsAt(s, cb, reports, k);
    RunsThrough(s, cb, reports);
    RunsThrough(StoppedState(s, reports, k), cb, reports);
    StatesTell(s, reports, k, s.total);
  }

  /** So a stop is transparent exactly when it keeps all four counters of the last state. */
  lemma TransparentIffKept(s: State, cb: Callbacks, reports: Reports, k: int)
    requires Valid(s) && Answers(cb, reports) && s.next < k < s.total
    ensures Valid(StoppedState(s, reports, k)) && StoppedState(s, reports, k).next == k && StoppedState(s, reports, k).total == s.total
    ensures Go(StoppedState(s, reports, k), cb, None, k, StoppedState(s, reports, k)).outcome == Go(s, cb, None, s.next, s).outcome <==>
            StateKept(s, reports, k, s.total)
  {
    StopShowsExactly(s, cb, reports, k);
  }

  /** When the optimizer step reported at the stop keeps the cadence, the epoch's condition is
      a simple one. */
  lemma EpochKeptSimply(s: State, reports: Reports, k: int)
    requires Valid(s) && Sound(reports) && s.next < k < s.total && CadenceKept(s, reports, k)
    ensures EpochKept(s, reports, k, s.total) <==> EpochKeptOnCadence(s, reports, k)
  {
    EpochExact(s, reports, k);
    StoppedFields(s, reports, k);
    var c := StoppedState(s, reports, k);
    EpochIsCarried(s, reports, s.next, s.total - 1, s.epoch);
    EpochIsCarried(c, reports, k, s.total - 1, c.epoch);
  }

  function OneRetry(k: int, retries: int): Reports { i => if i == k - 1 then Counters(None, None, None, Some(retries)) else Plain }

  /** In every run a stop can show: the item before it alone reports one more retry. */
  lemma StopCanShow(s: State, k: int) returns (reports: Reports, cb: Callbacks)
    requires Valid(s) && s.next < k < s.total
    ensures Answers(cb, reports) && Valid(StoppedState(s, reports, k))
    ensures StoppedState(s, reports, k).next == k && StoppedState(s, reports, k).total == s.total
    ensures Go(StoppedState(s, reports, k), cb, None, k, StoppedState(s, reports, k)).outcome != Go(s, cb, None, s.next, s).outcome
  {
    reports := OneRetry(k, s.retryCount + 1);
    cb := Callbacks((i, id, c) => OneRetry(k, s.retryCount + 1)(i), None);
    StopShowsExactly(s, cb, reports, k);
  }
}
