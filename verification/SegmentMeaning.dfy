/** What a segment of the run loop does, told call by call and position by position, whatever
    the callbacks answer. */
module SegmentMeaning {
  import opened Basics
  import opened Division
  import opened RunState
  import opened Continuation
  import opened ResumeEquivalence

  // ---- the positions saved ----

  ghost predicate Multiple(x: int, n: int) { exists q :: x == q * n }

  lemma MultipleIffNoRemainder(x: int, n: int)
    requires n > 0
    ensures Multiple(x, n) <==> x % n == 0
  {
    assert x == x / n * n + x % n;
    if q :| x == q * n {
      assert x == 0 + n * q;
      ShiftByMultiple(0, q, n);
    }
  }

  lemma {:induction false} DurableMember(s: State, i: int, e: int, m: int)
    requires Valid(s)
    ensures m in DurablePositions(s, i, e) <==> i < m <= e && Durable(s, m)
    decreases e - i
  {
    if i < e { DurableMember(s, i + 1, e, m); }
  }

  lemma {:induction false} DurableAscend(s: State, i: int, e: int)
    requires Valid(s)
    ensures forall a, b | 0 <= a < b < |DurablePositions(s, i, e)| :: DurablePositions(s, i, e)[a] < DurablePositions(s, i, e)[b]
    decreases e - i
  {
    if i < e {
      DurableAscend(s, i + 1, e);
      var more := DurablePositions(s, i + 1, e);
      forall x | x in more ensures x > i + 1 { DurableMember(s, i + 1, e, x); }
      assert forall b | 0 <= b < |more| :: more[b] in more;
    }
  }

  /** A checkpoint is due behind item m when the default optimizer step there is a multiple of
      the interval, or the schedule ends. */
  ghost predicate ShouldSave(s: State, m: int) {
    Multiple(s.optimizerStep + m - s.next, s.interval) || m == |s.scheduled|
  }

  lemma DurableIffShouldSave(s: State, m: int)
    requires Valid(s)
    ensures Durable(s, m) <==> ShouldSave(s, m)
  {
    MultipleIffNoRemainder(s.optimizerStep + m - s.next, s.interval);
  }

  /** The positions saved, ascending, are exactly those behind an executed item at which a
      checkpoint is due and a callback is given; only behind an item that fails may it be missing. */
  lemma SavesExactly(s: State, cb: Callbacks, stop: Option<int>)
    requires Valid(s)
    ensures var g := Go(s, cb, stop, s.next, s);
            var end := s.next + |g.executed|;
            && (forall a, b | 0 <= a < b < |g.saved| :: g.saved[a].next < g.saved[b].next)
            && (forall c | c in g.saved :: s.next < c.next <= end && cb.save.Some? && ShouldSave(s, c.next))
            && (forall m | s.next < m <= end && (m < end || g.outcome.Ok?) && cb.save.Some? && ShouldSave(s, m) ::
                  exists c :: c in g.saved && c.next == m)
  {
    LedgerIsPrefix(s);
    var e := SegmentIsExactlyOnce(s, cb, stop, s.next, s);
    PositionsExactly(s, cb.save.Some?, e, Go(s, cb, stop, s.next, s));
  }

  lemma PositionsExactly(s: State, saves: bool, e: int, g: Segment)
    requires Valid(s) && ExactlyOnce(s, saves, s.next, e, g)
    ensures forall a, b | 0 <= a < b < |g.saved| :: g.saved[a].next < g.saved[b].next
    ensures forall c | c in g.saved :: s.next < c.next <= s.next + |g.executed| && saves && ShouldSave(s, c.next)
    ensures forall m | s.next < m <= s.next + |g.executed| && (m < s.next + |g.executed| || g.outcome.Ok?) && saves && ShouldSave(s, m) ::
              exists c :: c in g.saved && c.next == m
  {
    NextsAscend(s, saves, e, g.saved);
    forall c | c in g.saved ensures s.next < c.next <= s.next + |g.executed| && saves && ShouldSave(s, c.next) {
      SavedIffShould(s, saves, e, g.saved, c.next);
    }
    forall m | s.next < m <= s.next + |g.executed| && (m < s.next + |g.executed| || g.outcome.Ok?) && saves && ShouldSave(s, m)
      ensures exists c :: c in g.saved && c.next == m
    {
      SavedIffShould(s, saves, e, g.saved, m);
    }
  }

  lemma NextsAscend(s: State, saves: bool, e: int, saved: seq<State>)
    requires Valid(s) && Nexts(saved) == (if saves then DurablePositions(s, s.next, e) else [])
    ensures forall a, b | 0 <= a < b < |saved| :: saved[a].next < saved[b].next
  {
    var nexts := Nexts(saved);
    DurableAscend(s, s.next, e);
    forall a, b | 0 <= a < b < |saved| ensures saved[a].next < saved[b].next {
      assert nexts[a] == saved[a].next && nexts[b] == saved[b].next;
    }
  }

  lemma SavedIffShould(s: State, saves: bool, e: int, saved: seq<State>, m: int)
    requires Valid(s) && Nexts(saved) == (if saves then DurablePositions(s, s.next, e) else [])
    ensures (exists c :: c in saved && c.next == m) <==> saves && s.next < m <= e && ShouldSave(s, m)
  {
    var nexts := Nexts(saved);
    if saves {
      DurableMember(s, s.next, e, m);
      DurableIffShouldSave(s, m);
    }
    if c :| c in saved && c.next == m {
      var k :| 0 <= k < |saved| && saved[k] == c;
      assert nexts[k] == m;
    }
    if m in nexts {
      var k :| 0 <= k < |nexts| && nexts[k] == m;
      assert saved[k] in saved && saved[k].next == m;
    }
  }

  // ---- the states handed on, saved and returned ----

  /** The outcome of the item at i, executed with this state. */
  function OutcomeAt(s: State, cb: Callbacks, i: int, given: State): Outcome
    requires 0 <= i < |s.scheduled|
  {
    cb.execute(i, s.scheduled[i], given)
  }

  /** c is the segment's start state moved to m: the items before m are done, each counter is the
      one the outcome reports, or else the epoch of the state given to the item, the start
      state's steps plus the items since, and the start state's retry count. */
  ghost predicate MovedTo(s: State, given: State, m: int, o: Outcome, c: State)
    requires 0 <= m <= |s.scheduled|
  {
    && c.completed == Prefix(s.scheduled, m) && c.next == m
    && c.epoch == (if o.Counters? && o.epoch.Some? then o.epoch.value else given.epoch)
    && c.optimizerStep == (if o.Counters? && o.optimizerStep.Some? then o.optimizerStep.value else s.optimizerStep + (m - s.next))
    && c.globalStep == (if o.Counters? && o.globalStep.Some? then o.globalStep.value else s.globalStep + (m - s.next))
    && c.retryCount == (if o.Counters? && o.retryCount.Some? then o.retryCount.value else s.retryCount)
    && c == s.(completed := c.completed, next := c.next, epoch := c.epoch, optimizerStep := c.optimizerStep,
               globalStep := c.globalStep, retryCount := c.retryCount)
  }

  predicate StopAsked(s: State, stop: Option<int>, m: int) { stop.Some? && m - s.next >= stop.value }

  /** What comes after the item at i, executed with given: a state moved behind it where a
      checkpoint is due or a stop is asked for, otherwise given still. */
  ghost predicate ComesAfter(s: State, cb: Callbacks, stop: Option<int>, i: int, given: State, next: State)
    requires s.next <= i < |s.scheduled| && 0 <= i
  {
    if ShouldSave(s, i + 1) || StopAsked(s, stop, i + 1) then MovedTo(s, given, i + 1, OutcomeAt(s, cb, i, given), next)
    else next == given
  }

  /** A saved state is the one after the item before it. */
  ghost predicate SavedRight(s: State, cb: Callbacks, i: int, executed: seq<(string, State)>, c: State)
    requires 0 <= s.next <= i && i + |executed| <= |s.scheduled|
  {
    && i < c.next <= i + |executed|
    && var given := executed[c.next - 1 - i].1; MovedTo(s, given, c.next, OutcomeAt(s, cb, c.next - 1, given), c)
  }

  /** The identity is what the checkpoint callback returned for this saved state and that outcome. */
  ghost predicate IdentityRight(s: State, cb: Callbacks, i: int, executed: seq<(string, State)>, c: State, identity: string)
    requires 0 <= s.next <= i && i + |executed| <= |s.scheduled|
  {
    && i < c.next <= i + |executed| && cb.save.Some?
    && cb.save.value(c.next, c, OutcomeAt(s, cb, c.next - 1, executed[c.next - 1 - i].1)) == Returned(identity)
    && "sha256:" <= identity
  }

  /** The calls of a segment from position i, the states saved, and the identities collected. */
  ghost predicate Recorded(s: State, cb: Callbacks, stop: Option<int>, i: int, current: State, g: Segment)
    requires 0 <= s.next <= i
  {
    && i + |g.executed| <= |s.scheduled|
    && (g.executed != [] ==> g.executed[0].1 == current)
    && (forall n | 0 <= n < |g.executed| - 1 :: ComesAfter(s, cb, stop, i + n, g.executed[n].1, g.executed[n + 1].1))
    && (forall k | 0 <= k < |g.saved| :: SavedRight(s, cb, i, g.executed, g.saved[k]))
    && |g.identities| <= |g.saved| && (g.outcome.Ok? ==> |g.identities| == |g.saved|)
    && (forall k | 0 <= k < |g.identities| :: IdentityRight(s, cb, i, g.executed, g.saved[k], g.identities[k]))
  }

  /** How it ends: complete behind the last item, stopped behind as many items as asked for,
      in the state after the last call; or in an error. */
  ghost predicate EndsRight(s: State, cb: Callbacks, stop: Option<int>, i: int, current: State, g: Segment)
    requires 0 <= s.next <= i && i + |g.executed| <= |s.scheduled|
  {
    var end := i + |g.executed|;
    && (stop.Some? ==> end - s.next <= stop.value)
    && (g.outcome.Ok? ==>
          && (g.outcome.value.1 == Complete <==> end == |s.scheduled|)
          && (g.outcome.value.1 == StoppedAtBoundary ==> stop == Some(end - s.next))
          && (if g.executed == [] then g.outcome.value.0 == current
              else ComesAfter(s, cb, stop, end - 1, g.executed[|g.executed| - 1].1, g.outcome.value.0)))
    && (g.outcome.Err? ==> g.executed != [])
    && (g.outcome.Err? ==> ErrorRight(s, cb, stop, end - 1, g.executed[|g.executed| - 1].1, g.outcome.error))
    && (forall n | 0 <= n < |g.executed| :: OutcomeAt(s, cb, i + n, g.executed[n].1).Raised? ==>
          n == |g.executed| - 1 && g.outcome == Err(StepRaised))
  }

  /** Why the item at i, executed with given, ended the segment in this error. */
  ghost predicate ErrorRight(s: State, cb: Callbacks, stop: Option<int>, i: int, given: State, e: RunError)
    requires 0 <= s.next <= i < |s.scheduled|
  {
    var o := OutcomeAt(s, cb, i, given);
    match e
    case StepRaised => o.Raised?
    case InvalidState => !o.Raised? && exists c :: ComesAfter(s, cb, stop, i, given, c) && !Valid(c)
    case SaveRaised =>
      && !o.Raised? && cb.save.Some? && ShouldSave(s, i + 1)
      && exists c :: MovedTo(s, given, i + 1, o, c) && Valid(c) && !cb.save.value(i + 1, c, o).Returned?
    case BadIdentity =>
      && !o.Raised? && cb.save.Some? && ShouldSave(s, i + 1)
      && exists c :: MovedTo(s, given, i + 1, o, c) && Valid(c) && cb.save.value(i + 1, c, o).Returned?
                     && !("sha256:" <= cb.save.value(i + 1, c, o).identity)
    case _ => false
  }

  /** What one item does, in these terms. */
  ghost predicate ItemTold(s: State, cb: Callbacks, stop: Option<int>, i: int, given: State, item: Item)
    requires 0 <= s.next <= i < |s.scheduled|
  {
    var o := OutcomeAt(s, cb, i, given);
    match item
    case Failed(e, saved) =>
      && ErrorRight(s, cb, stop, i, given, e) && (o.Raised? ==> e == StepRaised) && |saved| <= 1
      && (forall c | c in saved :: MovedTo(s, given, i + 1, o, c))
    case Ran(next, saved, identities) =>
      && !o.Raised? && ComesAfter(s, cb, stop, i, given, next)
      && |saved| == |identities| <= 1
      && (forall c | c in saved :: MovedTo(s, given, i + 1, o, c))
      && (saved != [] ==> cb.save.Some? && cb.save.value(i + 1, saved[0], o) == Returned(identities[0]) && "sha256:" <= identities[0])
  }

  lemma MaterialisedMoves(s: State, given: State, m: int, o: Outcome)
    requires Valid(s) && s.next < m <= s.total
    ensures MovedTo(s, given, m, o, Materialised(s, given, m, o))
  {
  }

  lemma ItemTells(s: State, cb: Callbacks, stop: Option<int>, i: int, given: State)
    requires Valid(s) && s.next <= i < s.total
    ensures ItemTold(s, cb, stop, i, given, RunItem(s, cb, stop, i, given))
  {
    var o := OutcomeAt(s, cb, i, given);
    MaterialisedMoves(s, given, i + 1, o);
    DurableIffShouldSave(s, i + 1);
    ghost var built := Materialised(s, given, i + 1, o);
    var next := if Durable(s, i + 1) || StopHere(s, stop, i + 1) then built else given;
    assert ComesAfter(s, cb, stop, i, given, next);
    FailureTells(s, cb, stop, i, given, next);
  }

  lemma FailureTells(s: State, cb: Callbacks, stop: Option<int>, i: int, given: State, next: State)
    requires Valid(s) && s.next <= i < s.total && ComesAfter(s, cb, stop, i, given, next)
    requires next == if Durable(s, i + 1) || StopHere(s, stop, i + 1)
                     then Materialised(s, given, i + 1, OutcomeAt(s, cb, i, given)) else given
    ensures RunItem(s, cb, stop, i, given).Failed? ==> ErrorRight(s, cb, stop, i, given, RunItem(s, cb, stop, i, given).error)
  {
    DurableIffShouldSave(s, i + 1);
    MaterialisedMoves(s, given, i + 1, OutcomeAt(s, cb, i, given));
  }

  lemma Shifted(s: State, cb: Callbacks, i: int, call: (string, State), more: seq<(string, State)>, c: State)
    requires 0 <= s.next <= i && i + 1 + |more| <= |s.scheduled| && SavedRight(s, cb, i + 1, more, c)
    ensures SavedRight(s, cb, i, [call] + more, c)
  {
    assert ([call] + more)[c.next - 1 - i] == more[c.next - 1 - (i + 1)];
  }

  lemma ShiftedIdentity(s: State, cb: Callbacks, i: int, call: (string, State), more: seq<(string, State)>, c: State, identity: string)
    requires 0 <= s.next <= i && i + 1 + |more| <= |s.scheduled| && IdentityRight(s, cb, i + 1, more, c, identity)
    ensures IdentityRight(s, cb, i, [call] + more, c, identity)
  {
    assert ([call] + more)[c.next - 1 - i] == more[c.next - 1 - (i + 1)];
  }

  lemma CallsChained(s: State, cb: Callbacks, stop: Option<int>, i: int, given: State, next: State, more: Segment, n: int)
    requires Valid(s) && s.next <= i < |s.scheduled| && Recorded(s, cb, stop, i + 1, next, more)
    requires ComesAfter(s, cb, stop, i, given, next) && 0 <= n < |more.executed|
    ensures var all := [(s.scheduled[i], given)] + more.executed; ComesAfter(s, cb, stop, i + n, all[n].1, all[n + 1].1)
  {
    var all := [(s.scheduled[i], given)] + more.executed;
    assert all[n + 1] == more.executed[n];
    if n > 0 {
      assert all[n] == more.executed[n - 1];
      assert ComesAfter(s, cb, stop, i + 1 + (n - 1), more.executed[n - 1].1, more.executed[n].1);
    }
  }

  lemma ChainRecorded(s: State, cb: Callbacks, stop: Option<int>, i: int, given: State, item: Item, more: Segment)
    requires Valid(s) && s.next <= i < |s.scheduled| && item.Ran? && ItemTold(s, cb, stop, i, given, item)
    requires Recorded(s, cb, stop, i + 1, item.next, more)
    ensures Recorded(s, cb, stop, i, given, Prepend([(s.scheduled[i], given)], item.saved, item.identities, more))
  {
    var call := (s.scheduled[i], given);
    var g := Prepend([call], item.saved, item.identities, more);
    forall n | 0 <= n < |g.executed| - 1 ensures ComesAfter(s, cb, stop, i + n, g.executed[n].1, g.executed[n + 1].1) {
      CallsChained(s, cb, stop, i, given, item.next, more, n);
    }
    forall k | 0 <= k < |g.saved| ensures SavedRight(s, cb, i, g.executed, g.saved[k]) {
      SavedChained(s, cb, stop, i, given, item, more, k);
    }
    forall k | 0 <= k < |g.identities| ensures IdentityRight(s, cb, i, g.executed, g.saved[k], g.identities[k]) {
      IdentitiesChained(s, cb, stop, i, given, item, more, k);
    }
  }

  lemma SavedChained(s: State, cb: Callbacks, stop: Option<int>, i: int, given: State, item: Item, more: Segment, k: int)
    requires Valid(s) && s.next <= i < |s.scheduled| && item.Ran? && ItemTold(s, cb, stop, i, given, item)
    requires Recorded(s, cb, stop, i + 1, item.next, more) && 0 <= k < |item.saved| + |more.saved|
    ensures SavedRight(s, cb, i, [(s.scheduled[i], given)] + more.executed, (item.saved + more.saved)[k])
  {
    if k < |item.saved| {
      assert item.saved[k] in item.saved;
    } else {
      Shifted(s, cb, i, (s.scheduled[i], given), more.executed, more.saved[k - |item.saved|]);
    }
  }

  lemma IdentitiesChained(s: State, cb: Callbacks, stop: Option<int>, i: int, given: State, item: Item, more: Segment, k: int)
    requires Valid(s) && s.next <= i < |s.scheduled| && item.Ran? && ItemTold(s, cb, stop, i, given, item)
    requires Recorded(s, cb, stop, i + 1, item.next, more) && 0 <= k < |item.identities| + |more.identities|
    ensures IdentityRight(s, cb, i, [(s.scheduled[i], given)] + more.executed,
                          (item.saved + more.saved)[k], (item.identities + more.identities)[k])
  {
    if k < |item.saved| {
      assert item.saved[k] in item.saved;
    } else {
      ShiftedIdentity(s, cb, i, (s.scheduled[i], given), more.executed, more.saved[k - |item.saved|], more.identities[k - |item.saved|]);
    }
  }

  lemma ChainEnds(s: State, cb: Callbacks, stop: Option<int>, i: int, given: State, item: Item, more: Segment)
    requires Valid(s) && s.next <= i < |s.scheduled| && item.Ran? && ItemTold(s, cb, stop, i, given, item)
    requires i + 1 + |more.executed| <= |s.scheduled| && EndsRight(s, cb, stop, i + 1, item.next, more)
    ensures EndsRight(s, cb, stop, i, given, Prepend([(s.scheduled[i], given)], item.saved, item.identities, more))
  {
    var g := Prepend([(s.scheduled[i], given)], item.saved, item.identities, more);
    forall n | 0 <= n < |g.executed| && OutcomeAt(s, cb, i + n, g.executed[n].1).Raised?
      ensures n == |g.executed| - 1 && g.outcome == Err(StepRaised)
    {
      if n > 0 { assert g.executed[n] == more.executed[n - 1] && OutcomeAt(s, cb, i + 1 + (n - 1), more.executed[n - 1].1).Raised?; }
    }
  }

  lemma FailRecorded(s: State, cb: Callbacks, stop: Option<int>, i: int, given: State, item: Item)
    requires Valid(s) && s.next <= i < |s.scheduled| && item.Failed? && ItemTold(s, cb, stop, i, given, item)
    requires stop.Some? ==> i - s.next < stop.value
    ensures var g := Segment(Err(item.error), [(s.scheduled[i], given)], item.saved, []);
            Recorded(s, cb, stop, i, given, g) && EndsRight(s, cb, stop, i, given, g)
  {
    forall k | 0 <= k < |item.saved| ensures SavedRight(s, cb, i, [(s.scheduled[i], given)], item.saved[k]) {
      assert item.saved[k] in item.saved;
    }
  }

  ghost predicate Told(s: State, cb: Callbacks, stop: Option<int>, i: int, given: State, g: Segment)
    requires 0 <= s.next <= i
  {
    Recorded(s, cb, stop, i, given, g) && EndsRight(s, cb, stop, i, given, g)
  }

  lemma {:induction false} SegmentTells(s: State, cb: Callbacks, stop: Option<int>, i: int, given: State)
    requires Valid(s) && s.next <= i <= s.total
    requires stop.Some? ==> i - s.next <= stop.value && (i < s.total ==> i - s.next < stop.value)
    ensures Told(s, cb, stop, i, given, Go(s, cb, stop, i, given))
    decreases s.total - i, 0
  {
    if i < s.total {
      ItemTells(s, cb, stop, i, given);
      var item := RunItem(s, cb, stop, i, given);
      if item.Failed? {
        FailTells(s, cb, stop, i, given);
      } else {
        ContinueTells(s, cb, stop, i + 1, item.next);
        RanTells(s, cb, stop, i, given);
      }
    }
  }

  lemma {:induction false} ContinueTells(s: State, cb: Callbacks, stop: Option<int>, j: int, c: State)
    requires Valid(s) && s.next < j <= s.total && (stop.Some? ==> j - s.next <= stop.value)
    ensures Told(s, cb, stop, j, c, Continue(s, cb, stop, j, c))
    decreases s.total - j, 1
  {
    if j == s.total || !StopHere(s, stop, j) { SegmentTells(s, cb, stop, j, c); }
  }

  lemma FailTells(s: State, cb: Callbacks, stop: Option<int>, i: int, given: State)
    requires Valid(s) && s.next <= i < s.total && RunItem(s, cb, stop, i, given).Failed?
    requires ItemTold(s, cb, stop, i, given, RunItem(s, cb, stop, i, given)) && (stop.Some? ==> i - s.next < stop.value)
    ensures Told(s, cb, stop, i, given, Go(s, cb, stop, i, given))
  {
    FailRecorded(s, cb, stop, i, given, RunItem(s, cb, stop, i, given));
  }

  lemma RanTells(s: State, cb: Callbacks, stop: Option<int>, i: int, given: State)
    requires Valid(s) && s.next <= i < s.total && RunItem(s, cb, stop, i, given).Ran?
    requires ItemTold(s, cb, stop, i, given, RunItem(s, cb, stop, i, given))
    requires var next := RunItem(s, cb, stop, i, given).next; Told(s, cb, stop, i + 1, next, Continue(s, cb, stop, i + 1, next))
    ensures Told(s, cb, stop, i, given, Go(s, cb, stop, i, given))
  {
    var item := RunItem(s, cb, stop, i, given);
    ChainRecorded(s, cb, stop, i, given, item, Continue(s, cb, stop, i + 1, item.next));
    ChainEnds(s, cb, stop, i, given, item, Continue(s, cb, stop, i + 1, item.next));
  }

  /** Every segment, whatever its callbacks answer: each call is given the state after the one
      before, each saved state and the returned one are the states after their items, the
      identities are the callback's answers for them, and it ends where it has to. */
  lemma SegmentExactly(s: State, cb: Callbacks, stop: Option<int>)
    requires Valid(s) && (stop.Some? ==> stop.value >= 1)
    ensures var g := Go(s, cb, stop, s.next, s); Recorded(s, cb, stop, s.next, s, g) && EndsRight(s, cb, stop, s.next, s, g)
  {
    SegmentTells(s, cb, stop, s.next, s);
  }
}
