/** What holds over whole runs: cadence, bounded lag, and resuming after any interruptions. */
module ResumeEquivalence {
  import opened Basics
  import opened Division
  import opened RunState
  import opened Continuation

  // ---- any outcomes ----

  /** The positions in (i, e] at which checkpoints are taken. */
  function DurablePositions(s: State, i: int, e: int): seq<int>
    requires s.interval > 0
    decreases e - i
  {
    if i >= e then [] else (if Durable(s, i + 1) then [i + 1] else []) + DurablePositions(s, i + 1, e)
  }

  /** A state of the same run: valid, with the run's identity and the ledger that its position demands. */
  ghost predicate OfRun(s: State, c: State) {
    Valid(c) && IdentityOf(c) == IdentityOf(s) && Items(c.completed) == s.scheduled[..c.next]
  }

  function Nexts(cs: seq<State>): seq<int> { Map((c: State) => c.next, cs) }

  function Calls(executed: seq<(string, State)>): seq<string> { Map((x: (string, State)) => x.0, executed) }

  /** No position after c up to i was due: c is the last state that had to be built. */
  ghost predicate Behind(s: State, i: int, c: State)
    requires s.interval > 0
  {
    s.next <= c.next <= i && forall m {:trigger Due(s, m)} | c.next < m <= i :: !Due(s, m)
  }

  /** Every call gets a state fewer than interval items back. */
  ghost predicate CallsLag(s: State, i: int, executed: seq<(string, State)>) {
    forall n {:trigger executed[n]} | 0 <= n < |executed| :: Recent(s, i + n, executed[n].1)
  }

  predicate Recent(s: State, i: int, c: State) { c.next <= i < c.next + s.interval }

  /** A window of interval consecutive positions holds a due one. */
  lemma BehindIsRecent(s: State, i: int, c: State)
    requires s.interval > 0 && Behind(s, i, c)
    ensures Recent(s, i, c)
  {
    var x := s.optimizerStep + c.next - s.next;
    var m := c.next + (s.interval - x % s.interval);
    NextMultiple(x, s.interval);
    assert s.optimizerStep + m - s.next == x + (s.interval - x % s.interval);
    assert Due(s, m);
  }

  lemma MaterialisedOfRun(s: State, current: State, i: int, o: Outcome)
    requires Valid(s) && s.next < i <= s.total && Valid(Materialised(s, current, i, o))
    ensures OfRun(s, Materialised(s, current, i, o)) && Materialised(s, current, i, o).next == i
  {
    LedgerIsPrefix(Materialised(s, current, i, o));
  }

  /** A segment from position i that got to e: items executed once each in schedule order with
      recent states, checkpoints at exactly the durable positions in (i, e], all states of the run. */
  ghost predicate ExactlyOnce(s: State, saves: bool, i: int, e: int, g: Segment)
    requires Valid(s)
  {
    && s.next <= i <= e <= s.total
    && (forall c | c in g.saved :: OfRun(s, c))
    && Nexts(g.saved) == (if saves then DurablePositions(s, i, e) else [])
    && i + |g.executed| <= s.total && Calls(g.executed) == s.scheduled[i..i + |g.executed|]
    && CallsLag(s, i, g.executed) && e <= i + |g.executed| <= e + 1
    && (g.outcome.Ok? ==>
          && OfRun(s, g.outcome.value.0) && e == i + |g.executed|
          && (e > i ==> g.outcome.value.0.next == e)
          && (g.outcome.value.1 == Complete <==> e == s.total))
  }

  lemma NextMaterialised(s: State, cb: Callbacks, stop: Option<int>, i: int, current: State)
    requires Valid(s) && s.next <= i < s.total && OfRun(s, current) && Behind(s, i, current)
    ensures ItemOfRun(s, cb.save.Some?, stop, i, RunItem(s, cb, stop, i, current))
  {
    var o := cb.execute(i, s.scheduled[i], current);
    var next := if Durable(s, i + 1) || StopHere(s, stop, i + 1) then Materialised(s, current, i + 1, o) else current;
    NextOfItem(s, cb, stop, i, current, next);
    if Valid(next) { NextAccepted(s, stop, i, current, o, next); }
    NextIsOfRun(s, cb.save.Some?, stop, i, next, RunItem(s, cb, stop, i, current));
  }

  lemma NextAccepted(s: State, stop: Option<int>, i: int, current: State, o: Outcome, next: State)
    requires Valid(s) && s.next <= i < s.total && OfRun(s, current) && Behind(s, i, current) && Valid(next)
    requires next == if Durable(s, i + 1) || StopHere(s, stop, i + 1) then Materialised(s, current, i + 1, o) else current
    ensures OfRun(s, next) && Behind(s, i + 1, next) && (Durable(s, i + 1) || StopHere(s, stop, i + 1) ==> next.next == i + 1)
  {
    if Durable(s, i + 1) || StopHere(s, stop, i + 1) { MaterialisedOfRun(s, current, i + 1, o); }
  }

  /** What an item leaves: the next state is of the run, saved exactly at durable positions,
      where it stands right behind the item. */
  ghost predicate ItemOfRun(s: State, saves: bool, stop: Option<int>, i: int, item: Item)
    requires s.interval > 0
  {
    match item
    case Failed(_, saved) =>
      saved == [] || (saves && Durable(s, i + 1) && |saved| == 1 && OfRun(s, saved[0]) && saved[0].next == i + 1)
    case Ran(next, saved, _) =>
      && OfRun(s, next) && Behind(s, i + 1, next) && (Durable(s, i + 1) || StopHere(s, stop, i + 1) ==> next.next == i + 1)
      && saved == if saves && Durable(s, i + 1) then [next] else []
  }

  /** It hands on next, if that is accepted. */
  ghost predicate HandsOn(s: State, saves: bool, i: int, next: State, item: Item)
    requires s.interval > 0
  {
    match item
    case Failed(_, saved) => saved == [] || (Valid(next) && saves && Durable(s, i + 1) && saved == [next])
    case Ran(ran, saved, _) => Valid(next) && ran == next && saved == if saves && Durable(s, i + 1) then [next] else []
  }

  lemma NextOfItem(s: State, cb: Callbacks, stop: Option<int>, i: int, current: State, next: State)
    requires Valid(s) && s.next <= i < s.total
    requires next == if Durable(s, i + 1) || StopHere(s, stop, i + 1)
                     then Materialised(s, current, i + 1, cb.execute(i, s.scheduled[i], current)) else current
    ensures HandsOn(s, cb.save.Some?, i, next, RunItem(s, cb, stop, i, current))
  {
  }

  lemma NextIsOfRun(s: State, saves: bool, stop: Option<int>, i: int, next: State, item: Item)
    requires s.interval > 0 && HandsOn(s, saves, i, next, item)
    requires Valid(next) ==> OfRun(s, next) && Behind(s, i + 1, next) && (Durable(s, i + 1) || StopHere(s, stop, i + 1) ==> next.next == i + 1)
    ensures ItemOfRun(s, saves, stop, i, item)
  {
  }

  lemma ChainStep(s: State, saves: bool, i: int, e: int, call: (string, State), saved: seq<State>, ids: seq<string>, more: Segment)
    requires Valid(s) && s.next <= i < s.total && ExactlyOnce(s, saves, i + 1, e, more)
    requires call.0 == s.scheduled[i] && Recent(s, i, call.1) && (forall c | c in saved :: OfRun(s, c))
    requires Nexts(saved) == if saves && Durable(s, i + 1) then [i + 1] else []
    requires more.outcome.Ok? && e == i + 1 ==> more.outcome.value.0.next == e
    ensures ExactlyOnce(s, saves, i, e, Prepend([call], saved, ids, more))
  {
    var g := Prepend([call], saved, ids, more);
    NextsConcat(saved, more.saved);
    CallsChain(s.scheduled, i, call, more.executed);
    LagChain(s, i, call, more.executed);
    forall c | c in g.saved ensures OfRun(s, c) { assert c in saved || c in more.saved; }
  }

  lemma LagChain(s: State, i: int, call: (string, State), more: seq<(string, State)>)
    requires Recent(s, i, call.1) && CallsLag(s, i + 1, more)
    ensures CallsLag(s, i, [call] + more)
  {
    var all := [call] + more;
    forall n | 0 <= n < |all| ensures Recent(s, i + n, all[n].1) {
      if n > 0 { assert all[n] == more[n - 1] && Recent(s, i + 1 + (n - 1), more[n - 1].1); }
    }
  }

  lemma CallsChain(scheduled: seq<string>, i: int, call: (string, State), more: seq<(string, State)>)
    requires 0 <= i && i + 1 + |more| <= |scheduled| && call.0 == scheduled[i]
    requires Calls(more) == scheduled[i + 1..i + 1 + |more|]
    ensures Calls([call] + more) == scheduled[i..i + 1 + |more|]
  {
    assert Calls([call] + more) == [call.0] + Calls(more);
    assert scheduled[i..i + 1 + |more|] == [scheduled[i]] + scheduled[i + 1..i + 1 + |more|];
  }

  lemma NextsConcat(a: seq<State>, b: seq<State>)
    ensures Nexts(a + b) == Nexts(a) + Nexts(b)
  {
  }

  lemma FailStep(s: State, saves: bool, i: int, call: (string, State), saved: seq<State>, err: RunError)
    requires Valid(s) && s.next <= i < s.total && call.0 == s.scheduled[i] && Recent(s, i, call.1)
    requires saved == [] || (saves && Durable(s, i + 1) && |saved| == 1 && OfRun(s, saved[0]) && saved[0].next == i + 1)
    ensures ExactlyOnce(s, saves, i, if saved == [] then i else i + 1, Segment(Err(err), [call], saved, []))
  {
    assert Calls([call]) == [s.scheduled[i]] == s.scheduled[i..i + 1];
    assert DurablePositions(s, i + 1, i + 1) == [];
    if saved != [] { assert Nexts(saved) == [i + 1]; }
  }

  /** At position j a segment that ends there names the right position. */
  ghost predicate AtPosition(s: State, j: int, c: State)
    requires s.interval > 0
  {
    OfRun(s, c) && Behind(s, j, c) && (j == s.total && j > s.next ==> c.next == j)
  }

  lemma EndStep(s: State, saves: bool, j: int, c: State, status: Status)
    requires Valid(s) && s.next <= j <= s.total && OfRun(s, c) && (status == Complete <==> j == s.total)
    ensures ExactlyOnce(s, saves, j, j, Segment(Ok((c, status)), [], [], []))
  {
    assert Calls([]) == [] == s.scheduled[j..j];
    assert DurablePositions(s, j, j) == [];
  }

  /** Whatever the callbacks answer, every segment is exactly-once and on cadence. */
  lemma {:induction false} SegmentIsExactlyOnce(s: State, cb: Callbacks, stop: Option<int>, i: int, current: State) returns (e: int)
    requires Valid(s) && s.next <= i <= s.total && AtPosition(s, i, current)
    ensures ExactlyOnce(s, cb.save.Some?, i, e, Go(s, cb, stop, i, current))
    decreases s.total - i, 0
  {
    if i == s.total {
      e := i;
      EndStep(s, cb.save.Some?, i, current, Complete);
    } else {
      NextMaterialised(s, cb, stop, i, current);
      BehindIsRecent(s, i, current);
      match RunItem(s, cb, stop, i, current)
      case Failed(_, saved) =>
        e := if saved == [] then i else i + 1;
        ItemFails(s, cb, stop, i, current);
      case Ran(next, _, _) =>
        e := ContinueIsExactlyOnce(s, cb, stop, i + 1, next);
        ItemChains(s, cb, stop, i, e, current);
    }
  }

  lemma ItemFails(s: State, cb: Callbacks, stop: Option<int>, i: int, current: State)
    requires Valid(s) && s.next <= i < s.total && Recent(s, i, current)
    requires ItemOfRun(s, cb.save.Some?, stop, i, RunItem(s, cb, stop, i, current)) && RunItem(s, cb, stop, i, current).Failed?
    ensures ExactlyOnce(s, cb.save.Some?, i, if RunItem(s, cb, stop, i, current).saved == [] then i else i + 1,
                        Go(s, cb, stop, i, current))
  {
    var item := RunItem(s, cb, stop, i, current);
    FailStep(s, cb.save.Some?, i, (s.scheduled[i], current), item.saved, item.error);
  }

  lemma ItemChains(s: State, cb: Callbacks, stop: Option<int>, i: int, e: int, current: State)
    requires Valid(s) && s.next <= i < s.total && Recent(s, i, current)
    requires ItemOfRun(s, cb.save.Some?, stop, i, RunItem(s, cb, stop, i, current)) && RunItem(s, cb, stop, i, current).Ran?
    requires var more := Continue(s, cb, stop, i + 1, RunItem(s, cb, stop, i, current).next);
             ExactlyOnce(s, cb.save.Some?, i + 1, e, more) && (more.outcome.Ok? && e == i + 1 ==> more.outcome.value.0.next == e)
    ensures ExactlyOnce(s, cb.save.Some?, i, e, Go(s, cb, stop, i, current))
  {
    var item := RunItem(s, cb, stop, i, current);
    assert Nexts(item.saved) == if cb.save.Some? && Durable(s, i + 1) then [i + 1] else [];
    ChainStep(s, cb.save.Some?, i, e, (s.scheduled[i], current), item.saved, item.identities, Continue(s, cb, stop, i + 1, item.next));
  }

  lemma {:induction false} ContinueIsExactlyOnce(s: State, cb: Callbacks, stop: Option<int>, j: int, c: State) returns (e: int)
    requires Valid(s) && s.next < j <= s.total && OfRun(s, c) && Behind(s, j, c)
    requires Durable(s, j) || StopHere(s, stop, j) ==> c.next == j
    ensures ExactlyOnce(s, cb.save.Some?, j, e, Continue(s, cb, stop, j, c))
    ensures var g := Continue(s, cb, stop, j, c); g.outcome.Ok? && e == j ==> g.outcome.value.0.next == e
    decreases s.total - j, 1
  {
    if StopHere(s, stop, j) && j != s.total {
      e := j;
      EndStep(s, cb.save.Some?, j, c, StoppedAtBoundary);
    } else {
      e := SegmentIsExactlyOnce(s, cb, stop, j, c);
      if j < s.total { GoMoves(s, cb, stop, j, c, e); }
    }
  }

  lemma GoMoves(s: State, cb: Callbacks, stop: Option<int>, j: int, c: State, e: int)
    requires Valid(s) && s.next <= j < s.total && ExactlyOnce(s, cb.save.Some?, j, e, Go(s, cb, stop, j, c))
    ensures Go(s, cb, stop, j, c).outcome.Ok? ==> e > j
  {
    assert |Go(s, cb, stop, j, c).executed| >= 1;
  }

  /** Whatever the callbacks answer, each item is executed with a state fewer than interval
      items back, and a segment that ends, however it does, has executed at most interval
      items, one that raised included, since the last state it saved or started from. */
  lemma LagBounded(s: State, cb: Callbacks, stop: Option<int>)
    requires Valid(s)
    ensures var g := Go(s, cb, stop, s.next, s);
            && (forall n | 0 <= n < |g.executed| ::
                  g.executed[n].1.next <= s.next + n < g.executed[n].1.next + s.interval)
            && (cb.save.Some? ==> s.next + |g.executed| - Durably(s, g.saved) <= s.interval)
  {
    LedgerIsPrefix(s);
    var e := SegmentIsExactlyOnce(s, cb, stop, s.next, s);
    OnceIsBounded(s, cb.save.Some?, e, Go(s, cb, stop, s.next, s));
  }

  lemma OnceIsBounded(s: State, saves: bool, e: int, g: Segment)
    requires Valid(s) && ExactlyOnce(s, saves, s.next, e, g)
    ensures forall n | 0 <= n < |g.executed| :: g.executed[n].1.next <= s.next + n < g.executed[n].1.next + s.interval
    ensures saves ==> s.next + |g.executed| - Durably(s, g.saved) <= s.interval
  {
    forall n | 0 <= n < |g.executed| ensures g.executed[n].1.next <= s.next + n < g.executed[n].1.next + s.interval {
      assert Recent(s, s.next + n, g.executed[n].1);
    }
    if saves {
      NoneDueAfter(s, s.next, e);
      assert g.saved != [] ==> Nexts(g.saved)[|g.saved| - 1] == Last(g.saved).next;
      BehindIsRecent(s, e, s.(next := Durably(s, g.saved)));
    }
  }

  /** The position of the last state that was saved, or else the one started from. */
  function Durably(s: State, saved: seq<State>): int { if saved == [] then s.next else Last(saved).next }

  /** No position after the last durable one is due. */
  lemma {:induction false} NoneDueAfter(s: State, i: int, e: int)
    requires s.interval > 0 && i <= e
    ensures var ps := DurablePositions(s, i, e);
            var m := if ps == [] then i else ps[|ps| - 1];
            i <= m <= e && forall j {:trigger Due(s, j)} | m < j <= e :: !Due(s, j)
    decreases e - i
  {
    if i < e {
      NoneDueAfter(s, i + 1, e);
      var first, others := if Durable(s, i + 1) then [i + 1] else [], DurablePositions(s, i + 1, e);
      assert DurablePositions(s, i, e) == first + others;
    }
  }

  // ---- default outcomes ----

  /** No outcome is a mapping: every counter takes its default. Items may raise at any time. */
  ghost predicate DefaultOutcomes(cb: Callbacks) {
    forall i, id, c :: !cb.execute(i, id, c).Counters?
  }

  /** The state at each position when earlier reports equal the defaults and the last item
      reports last. */
  function Expected(s: State, last: Outcome, i: int): State
    requires Valid(s) && s.next <= i <= s.total
  {
    if i == s.total && i > s.next then Materialised(s, s, i, last) else StateAt(s, i)
  }

  /** The last report makes an accepted state. */
  ghost predicate Ready(s: State, last: Outcome) { Valid(s) && Valid(Expected(s, last, s.total)) }

  /** Whenever an item does not raise, its report leaves the counters where they are expected:
      before the last item each counter it reports has its default value. */
  ghost predicate Agrees(s: State, last: Outcome, cb: Callbacks)
    requires Valid(s)
  {
    forall i, id, c | s.next <= i < s.total && !cb.execute(i, id, c).Raised? :: AgreesAt(s, last, i, cb.execute(i, id, c))
  }

  ghost predicate AgreesAt(s: State, last: Outcome, i: int, o: Outcome)
    requires Valid(s) && s.next <= i < s.total
  {
    Materialised(s, s, i + 1, o) == Expected(s, last, i + 1)
  }

  /** Outcomes without counters agree with a last report without counters. */
  lemma DefaultsAgree(s: State, cb: Callbacks)
    requires Valid(s) && DefaultOutcomes(cb)
    ensures Ready(s, Plain) && Agrees(s, Plain, cb)
  {
    StateAtValid(s, s.total);
  }

  lemma ExpectedValid(s: State, last: Outcome, i: int)
    requires Ready(s, last) && s.next <= i <= s.total
    ensures Valid(Expected(s, last, i)) && Expected(s, last, i).next == i && IdentityOf(Expected(s, last, i)) == IdentityOf(s)
  {
    StateAtValid(s, i);
  }

  /** The exact states at the durable positions in (i, e]. */
  function SavedStates(s: State, last: Outcome, i: int, e: int): seq<State>
    requires Valid(s) && s.next <= i <= e <= s.total
    decreases e - i
  {
    if i == e then [] else (if Durable(s, i + 1) then [Expected(s, last, i + 1)] else []) + SavedStates(s, last, i + 1, e)
  }

  /** current is the exact state at k, and no position after k up to i was materialised. */
  ghost predicate Lagging(s: State, last: Outcome, k: int, i: int, current: State)
    requires Valid(s)
  {
    && s.next <= k <= i <= s.total && current == Expected(s, last, k)
    && (forall m {:trigger Due(s, m)} | k < m <= i :: !Due(s, m)) && (i == s.total ==> k == i)
  }

  lemma LaggingIsRecent(s: State, last: Outcome, k: int, i: int, current: State)
    requires Ready(s, last) && Lagging(s, last, k, i, current)
    ensures i - k < s.interval && Valid(current) && current.next == k
  {
    ExpectedValid(s, last, k);
    BehindIsRecent(s, i, current);
  }

  /** Each execute call gets the exact state of a position fewer than interval items back. */
  ghost predicate CallsExpected(s: State, last: Outcome, i: int, executed: seq<(string, State)>)
    requires Valid(s) && s.next <= i && i + |executed| <= s.total
  {
    forall n | 0 <= n < |executed| :: LagsAt(s, last, i + n, executed[n].1)
  }

  ghost predicate LagsAt(s: State, last: Outcome, i: int, c: State)
    requires Valid(s) && s.next <= i <= s.total
  {
    exists k :: s.next <= k <= i && i - k < s.interval && c == Expected(s, last, k)
  }

  /** With default outcomes a segment that got to e has saved exactly the exact states at the
      durable positions, and returns the exact state at e. */
  ghost predicate Exact(s: State, last: Outcome, saves: bool, i: int, e: int, g: Segment)
    requires Valid(s)
  {
    && s.next <= i <= e <= s.total
    && g.saved == (if saves then SavedStates(s, last, i, e) else [])
    && i + |g.executed| <= s.total && CallsExpected(s, last, i, g.executed)
    && (g.outcome.Ok? ==> g.outcome.value.0 == Expected(s, last, e) && (g.outcome.value.1 == Complete <==> e == s.total))
  }

  lemma DefaultItem(s: State, last: Outcome, cb: Callbacks, stop: Option<int>, i: int, k: int, current: State)
    requires Ready(s, last) && s.next <= i < s.total && Lagging(s, last, k, i, current) && Agrees(s, last, cb)
    ensures match RunItem(s, cb, stop, i, current)
            case Failed(_, saved) => saved == [] || (cb.save.Some? && Durable(s, i + 1) && saved == [Expected(s, last, i + 1)])
            case Ran(next, saved, _) =>
              && next == (if Durable(s, i + 1) || StopHere(s, stop, i + 1) then Expected(s, last, i + 1) else current)
              && saved == (if cb.save.Some? && Durable(s, i + 1) then [Expected(s, last, i + 1)] else [])
  {
    ExpectedValid(s, last, k);
    ExpectedValid(s, last, i + 1);
    var o := cb.execute(i, s.scheduled[i], current);
    assert current.epoch == s.epoch;
    if !o.Raised? {
      assert AgreesAt(s, last, i, o);
      assert Materialised(s, current, i + 1, o) == Materialised(s, s, i + 1, o);
    }
  }

  lemma ExactFail(s: State, last: Outcome, saves: bool, i: int, call: (string, State), saved: seq<State>, err: RunError)
    requires Ready(s, last) && s.next <= i < s.total && LagsAt(s, last, i, call.1)
    requires saved == [] || (saves && Durable(s, i + 1) && saved == [Expected(s, last, i + 1)])
    ensures Exact(s, last, saves, i, if saved == [] then i else i + 1, Segment(Err(err), [call], saved, []))
  {
    assert SavedStates(s, last, i, i) == [];
    assert SavedStates(s, last, i + 1, i + 1) == [];
  }

  lemma ExactChain(s: State, last: Outcome, saves: bool, i: int, e: int, call: (string, State), saved: seq<State>, ids: seq<string>, more: Segment)
    requires Ready(s, last) && s.next <= i < s.total && Exact(s, last, saves, i + 1, e, more) && LagsAt(s, last, i, call.1)
    requires saved == if saves && Durable(s, i + 1) then [Expected(s, last, i + 1)] else []
    ensures Exact(s, last, saves, i, e, Prepend([call], saved, ids, more))
  {
    var g := Prepend([call], saved, ids, more);
    forall n | 0 <= n < |g.executed| ensures LagsAt(s, last, i + n, g.executed[n].1) {
      if n > 0 {
        assert g.executed[n] == more.executed[n - 1];
        assert LagsAt(s, last, i + 1 + (n - 1), more.executed[n - 1].1);
      }
    }
  }

  lemma ExactEnd(s: State, last: Outcome, saves: bool, j: int, status: Status)
    requires Ready(s, last) && s.next <= j <= s.total && (status == Complete <==> j == s.total)
    ensures Exact(s, last, saves, j, j, Segment(Ok((Expected(s, last, j), status)), [], [], []))
  {
    assert SavedStates(s, last, j, j) == [];
  }

  lemma {:induction false} SegmentIsExact(s: State, last: Outcome, cb: Callbacks, stop: Option<int>, i: int, k: int, current: State) returns (e: int)
    requires Ready(s, last) && s.next <= i <= s.total && Lagging(s, last, k, i, current) && Agrees(s, last, cb)
    ensures Exact(s, last, cb.save.Some?, i, e, Go(s, cb, stop, i, current))
    decreases s.total - i, 0
  {
    var saves := cb.save.Some?;
    if i == s.total {
      e := i;
      ExactEnd(s, last, saves, i, Complete);
    } else {
      var call := (s.scheduled[i], current);
      LaggingIsRecent(s, last, k, i, current);
      assert LagsAt(s, last, i, current);
      DefaultItem(s, last, cb, stop, i, k, current);
      match RunItem(s, cb, stop, i, current)
      case Failed(err, saved) =>
        e := if saved == [] then i else i + 1;
        ExactFail(s, last, saves, i, call, saved, err);
      case Ran(next, saved, ids) =>
        var k' := if Durable(s, i + 1) || StopHere(s, stop, i + 1) then i + 1 else k;
        StillLagging(s, last, stop, i, k, current, k', next);
        e := ContinueIsExact(s, last, cb, stop, i + 1, k', next);
        ExactChain(s, last, saves, i, e, call, saved, ids, Continue(s, cb, stop, i + 1, next));
    }
  }

  lemma {:induction false} ContinueIsExact(s: State, last: Outcome, cb: Callbacks, stop: Option<int>, j: int, k: int, current: State) returns (e: int)
    requires Ready(s, last) && s.next < j <= s.total && Lagging(s, last, k, j, current) && Agrees(s, last, cb)
    requires StopHere(s, stop, j) ==> k == j
    ensures Exact(s, last, cb.save.Some?, j, e, Continue(s, cb, stop, j, current))
    decreases s.total - j, 1
  {
    if StopHere(s, stop, j) && j != s.total {
      e := j;
      ExactEnd(s, last, cb.save.Some?, e, StoppedAtBoundary);
    } else {
      e := SegmentIsExact(s, last, cb, stop, j, k, current);
    }
  }

  lemma StillLagging(s: State, last: Outcome, stop: Option<int>, i: int, k: int, current: State, k': int, next: State)
    requires Ready(s, last) && s.next <= i < s.total && Lagging(s, last, k, i, current)
    requires next == if Durable(s, i + 1) || StopHere(s, stop, i + 1) then Expected(s, last, i + 1) else current
    requires k' == if Durable(s, i + 1) || StopHere(s, stop, i + 1) then i + 1 else k
    ensures Lagging(s, last, k', i + 1, next)
  {
  }

  // ---- interruptions ----

  /** One interrupted segment: its callbacks, its stop request, whether the next segment
      starts from the returned state when there is one (otherwise from the last saved one),
      and whether that state goes through storage first. */
  datatype Interruption = Interruption(cb: Callbacks, stop: Option<int>, keep: bool, reload: bool)

  function Last<T>(cs: seq<T>): T
    requires cs != []
  {
    cs[|cs| - 1]
  }

  /** Storing and loading, which only changes the ledger representation. */
  ghost function Stored(c: State): State { FromDict(ToDict(c)).GetOr(c) }

  /** Where a run stands: the state to go on from, the last saved state, all states saved so far. */
  datatype Progress = Progress(current: State, lastSaved: State, saved: seq<State>)

  ghost function Interrupt(p: Progress, x: Interruption): Progress
    requires Valid(p.current)
  {
    var g := Go(p.current, x.cb, x.stop, p.current.next, p.current);
    var lastSaved := if g.saved == [] then p.lastSaved else Last(g.saved);
    var next := if x.keep && g.outcome.Ok? then g.outcome.value.0 else lastSaved;
    Progress(if x.reload then Stored(next) else next, lastSaved, p.saved + g.saved)
  }

  /** None if a segment would start from a state the constructor rejects. */
  ghost function Play(p: Progress, history: seq<Interruption>): Option<Progress>
    decreases |history|
  {
    if !Valid(p.current) then None
    else if history == [] then Some(p)
    else Play(Interrupt(p, history[0]), history[1..])
  }

  /** p is where the uninterrupted run would be at k, with its last checkpoint at m. */
  ghost predicate OnTrack(s: State, last: Outcome, p: Progress, k: int, m: int)
    requires Valid(s)
  {
    && s.next <= m <= k <= s.total
    && Valid(p.current) && Same(p.current, Expected(s, last, k))
    && Valid(p.lastSaved) && Same(p.lastSaved, Expected(s, last, m))
    && p.saved == SavedStates(s, last, s.next, k) && SavedStates(s, last, m, k) == []
  }

  lemma {:induction false} SavedSplit(s: State, last: Outcome, a: int, b: int, e: int)
    requires Ready(s, last) && s.next <= a <= b <= e <= s.total
    ensures SavedStates(s, last, a, e) == SavedStates(s, last, a, b) + SavedStates(s, last, b, e)
    decreases b - a
  {
    if a < b { SavedSplit(s, last, a + 1, b, e); }
  }

  /** From an equal state at k the same states follow. */
  lemma {:induction false} SavedFromSame(s: State, last: Outcome, c: State, k: int, i: int, e: int)
    requires Ready(s, last) && Valid(c) && s.next <= k <= i <= e <= s.total && Same(c, Expected(s, last, k))
    ensures c.next == k && c.total == s.total && SavedStates(c, last, i, e) == SavedStates(s, last, i, e)
    decreases e - i
  {
    if i < e {
      ExpectedFromSame(s, last, c, k, i + 1);
      assert Durable(c, i + 1) == Durable(s, i + 1);
      SavedFromSame(s, last, c, k, i + 1, e);
    }
  }

  /** From an equal state at k the same reports are expected. */
  lemma ExpectedFromSame(s: State, last: Outcome, c: State, k: int, i: int)
    requires Ready(s, last) && Valid(c) && s.next <= k < i <= s.total && Same(c, Expected(s, last, k))
    ensures c.next == k && c.total == s.total && Expected(c, last, i) == Expected(s, last, i)
    ensures forall o :: Materialised(c, c, i, o) == Materialised(s, s, i, o)
  {
    assert c.epoch == s.epoch && c.retryCount == s.retryCount && StateAt(c, i) == StateAt(s, i);
  }

  lemma AgreesFromSame(s: State, last: Outcome, cb: Callbacks, c: State, k: int)
    requires Ready(s, last) && Agrees(s, last, cb) && Valid(c) && s.next <= k <= s.total && Same(c, Expected(s, last, k))
    ensures c.next == k && c.total == s.total && Ready(c, last) && Agrees(c, last, cb)
  {
    ReadyFromSame(s, last, c, k);
    forall i, id, x | c.next <= i < c.total && !cb.execute(i, id, x).Raised? ensures AgreesAt(c, last, i, cb.execute(i, id, x)) {
      assert AgreesAt(s, last, i, cb.execute(i, id, x));
      AgreesAtFromSame(s, last, c, k, i, cb.execute(i, id, x));
    }
  }

  lemma ReadyFromSame(s: State, last: Outcome, c: State, k: int)
    requires Ready(s, last) && Valid(c) && s.next <= k <= s.total && Same(c, Expected(s, last, k))
    ensures c.next == k && c.total == s.total && Ready(c, last)
  {
    if k < s.total { ExpectedFromSame(s, last, c, k, s.total); }
  }

  lemma AgreesAtFromSame(s: State, last: Outcome, c: State, k: int, i: int, o: Outcome)
    requires Ready(s, last) && Valid(c) && s.next <= k <= i < s.total && Same(c, Expected(s, last, k))
    ensures c.next == k && c.total == s.total && (AgreesAt(s, last, i, o) <==> AgreesAt(c, last, i, o))
  {
    ExpectedFromSame(s, last, c, k, i + 1);
  }

  lemma SavedStep(s: State, last: Outcome, a: int, e: int)
    requires Ready(s, last) && s.next <= a < e <= s.total && SavedStates(s, last, a, e) != []
    ensures var others := SavedStates(s, last, a + 1, e);
            if others == [] then Durable(s, a + 1) && Last(SavedStates(s, last, a, e)) == Expected(s, last, a + 1)
            else Last(SavedStates(s, last, a, e)) == Last(others)
  {
  }

  lemma {:induction false} LastSavedPosition(s: State, last: Outcome, a: int, e: int) returns (m: int)
    requires Ready(s, last) && s.next <= a <= e <= s.total && SavedStates(s, last, a, e) != []
    ensures a < m <= e && Last(SavedStates(s, last, a, e)) == Expected(s, last, m) && SavedStates(s, last, m, e) == []
    decreases e - a
  {
    SavedStep(s, last, a, e);
    if SavedStates(s, last, a + 1, e) == [] {
      m := a + 1;
    } else {
      m := LastSavedPosition(s, last, a + 1, e);
    }
  }

  lemma SameStored(c: State, d: State)
    requires Valid(c) && Same(c, d)
    ensures Valid(Stored(c)) && Same(Stored(c), d)
  {
    Reloads(c);
  }

  /** The new last checkpoint after a segment that got to e. */
  lemma LastSavedOnTrack(s: State, last: Outcome, p: Progress, k: int, m: int, e: int, saved: seq<State>) returns (m': int)
    requires Ready(s, last) && OnTrack(s, last, p, k, m) && k <= e <= s.total && saved == SavedStates(s, last, k, e)
    ensures m <= m' <= e && SavedStates(s, last, m', e) == []
    ensures var d := if saved == [] then p.lastSaved else Last(saved);
            Valid(d) && Same(d, Expected(s, last, m'))
    ensures p.saved + saved == SavedStates(s, last, s.next, e) == SavedStates(s, last, s.next, m')
  {
    SavedSplit(s, last, s.next, k, e);
    SavedSplit(s, last, m, k, e);
    m' := m;
    if saved != [] { m' := LastSavedPosition(s, last, k, e); }
    SavedSplit(s, last, s.next, m', e);
    ExpectedValid(s, last, m');
  }

  lemma SegmentOnTrack(s: State, last: Outcome, p: Progress, x: Interruption, k: int, m: int) returns (e: int)
    requires Ready(s, last) && OnTrack(s, last, p, k, m) && Agrees(s, last, x.cb) && x.cb.save.Some?
    ensures var g := Go(p.current, x.cb, x.stop, p.current.next, p.current);
            && k <= e <= s.total && g.saved == SavedStates(s, last, k, e)
            && (g.outcome.Ok? ==> Valid(g.outcome.value.0) && Same(g.outcome.value.0, Expected(s, last, e)))
  {
    var c := p.current;
    AgreesFromSame(s, last, x.cb, c, k);
    assert Lagging(c, last, c.next, c.next, c);
    e := SegmentIsExact(c, last, x.cb, x.stop, c.next, c.next, c);
    SameAhead(s, last, c, k, e);
  }

  lemma SameAhead(s: State, last: Outcome, c: State, k: int, e: int)
    requires Ready(s, last) && Ready(c, last) && s.next <= k <= e <= s.total && Same(c, Expected(s, last, k))
    ensures c.next == k && c.total == s.total && SavedStates(c, last, k, e) == SavedStates(s, last, k, e)
    ensures Valid(Expected(c, last, e)) && Same(Expected(c, last, e), Expected(s, last, e))
  {
    SavedFromSame(s, last, c, k, k, e);
    ExpectedValid(c, last, e);
    if k < e { ExpectedFromSame(s, last, c, k, e); }
  }

  lemma StepOnTrack(s: State, last: Outcome, p: Progress, x: Interruption, k: int, m: int) returns (k': int, m': int)
    requires Ready(s, last) && OnTrack(s, last, p, k, m) && Agrees(s, last, x.cb) && x.cb.save.Some?
    ensures OnTrack(s, last, Interrupt(p, x), k', m')
  {
    var g := Go(p.current, x.cb, x.stop, p.current.next, p.current);
    var e := SegmentOnTrack(s, last, p, x, k, m);
    m' := LastSavedOnTrack(s, last, p, k, m, e, g.saved);
    var resumed := x.keep && g.outcome.Ok?;
    k' := if resumed then e else m';
    var next := if resumed then g.outcome.value.0 else Interrupt(p, x).lastSaved;
    SameStored(next, Expected(s, last, k'));
    assert SavedStates(s, last, m', m') == [];
  }

  lemma {:induction false} PlayOnTrack(s: State, last: Outcome, p: Progress, history: seq<Interruption>, k: int, m: int) returns (k': int, m': int)
    requires Ready(s, last) && OnTrack(s, last, p, k, m)
    requires forall x | x in history :: Agrees(s, last, x.cb) && x.cb.save.Some?
    ensures Play(p, history).Some? && OnTrack(s, last, Play(p, history).value, k', m')
    decreases |history|
  {
    if history == [] {
      k', m' := k, m;
    } else {
      assert history[0] in history;
      var k1, m1 := StepOnTrack(s, last, p, history[0], k, m);
      assert forall x | x in history[1..] :: x in history;
      k', m' := PlayOnTrack(s, last, Interrupt(p, history[0]), history[1..], k1, m1);
    }
  }

  /** Callbacks that never fail. */
  ghost predicate NeverFails(s: State, last: Outcome, cb: Callbacks)
    requires Valid(s)
  {
    && Agrees(s, last, cb) && (forall i, id, c :: !cb.execute(i, id, c).Raised?)
    && cb.save.Some? && forall i, c, o :: cb.save.value(i, c, o).Returned? && IsIdentity(cb.save.value(i, c, o).identity)
  }

  /** Without a stop request such callbacks carry every segment to the end. */
  lemma {:induction false} Completes(s: State, last: Outcome, cb: Callbacks, i: int, k: int, current: State)
    requires Ready(s, last) && s.next <= i <= s.total && Lagging(s, last, k, i, current) && NeverFails(s, last, cb)
    ensures Go(s, cb, None, i, current).outcome == Ok((Expected(s, last, s.total), Complete))
    decreases s.total - i
  {
    if i < s.total {
      ItemRuns(s, last, cb, i, k, current);
      var item := RunItem(s, cb, None, i, current);
      var k' := if Durable(s, i + 1) then i + 1 else k;
      StillLagging(s, last, None, i, k, current, k', item.next);
      Completes(s, last, cb, i + 1, k', item.next);
    }
  }

  lemma ItemRuns(s: State, last: Outcome, cb: Callbacks, i: int, k: int, current: State)
    requires Ready(s, last) && s.next <= i < s.total && Lagging(s, last, k, i, current) && NeverFails(s, last, cb)
    ensures RunItem(s, cb, None, i, current).Ran?
    ensures RunItem(s, cb, None, i, current).next == if Durable(s, i + 1) then Expected(s, last, i + 1) else current
  {
    ExpectedValid(s, last, k);
    ExpectedValid(s, last, i + 1);
    DefaultItem(s, last, cb, None, i, k, current);
  }

  /** Any finite pattern of stops, raised items, failed saves and resumes from the returned
      or the last saved state, through storage or not: finishing afterwards gives the state
      of the uninterrupted run, and the saved states, strung together, are exactly the ones
      the uninterrupted run saves, even where items are executed again. */
  lemma ResumeEquivalent(s: State, last: Outcome, history: seq<Interruption>, cb: Callbacks)
    requires Ready(s, last) && NeverFails(s, last, cb)
    requires forall x | x in history :: Agrees(s, last, x.cb) && x.cb.save.Some?
    ensures var whole := Go(s, cb, None, s.next, s);
            var p := Play(Progress(s, s, []), history);
            && whole.outcome == Ok((Expected(s, last, s.total), Complete))
            && whole.saved == SavedStates(s, last, s.next, s.total)
            && p.Some? && Valid(p.value.current)
            && var rest := Go(p.value.current, cb, None, p.value.current.next, p.value.current);
            && rest.outcome.Ok? && rest.outcome.value.1 == Complete
            && Same(rest.outcome.value.0, whole.outcome.value.0)
            && p.value.saved + rest.saved == whole.saved
  {
    Uninterrupted(s, last, cb);
    LedgerIsPrefix(s);
    assert SavedStates(s, last, s.next, s.next) == [];
    assert OnTrack(s, last, Progress(s, s, []), s.next, s.next);
    var k, m := PlayOnTrack(s, last, Progress(s, s, []), history, s.next, s.next);
    Finish(s, last, Play(Progress(s, s, []), history).value, k, m, cb);
  }

  lemma Uninterrupted(s: State, last: Outcome, cb: Callbacks)
    requires Ready(s, last) && NeverFails(s, last, cb)
    ensures Go(s, cb, None, s.next, s).outcome == Ok((Expected(s, last, s.total), Complete))
    ensures Go(s, cb, None, s.next, s).saved == SavedStates(s, last, s.next, s.total)
  {
    LedgerIsPrefix(s);
    assert Lagging(s, last, s.next, s.next, s);
    Completes(s, last, cb, s.next, s.next, s);
    var e := SegmentIsExact(s, last, cb, None, s.next, s.next, s);
  }

  /** Finishing from anywhere on track. */
  lemma Finish(s: State, last: Outcome, p: Progress, k: int, m: int, cb: Callbacks)
    requires Ready(s, last) && OnTrack(s, last, p, k, m) && NeverFails(s, last, cb)
    ensures var rest := Go(p.current, cb, None, p.current.next, p.current);
            && rest.outcome.Ok? && rest.outcome.value.1 == Complete
            && Same(rest.outcome.value.0, Expected(s, last, s.total))
            && p.saved + rest.saved == SavedStates(s, last, s.next, s.total)
  {
    AgreesFromSame(s, last, cb, p.current, k);
    Uninterrupted(p.current, last, cb);
    Remaining(s, last, p, k, m);
  }

  lemma Remaining(s: State, last: Outcome, p: Progress, k: int, m: int)
    requires Ready(s, last) && OnTrack(s, last, p, k, m) && Ready(p.current, last)
    ensures var c := p.current;
            && Same(Expected(c, last, c.total), Expected(s, last, s.total))
            && p.saved + SavedStates(c, last, c.next, c.total) == SavedStates(s, last, s.next, s.total)
  {
    SameAhead(s, last, p.current, k, s.total);
    SavedSplit(s, last, s.next, k, s.total);
  }
}
