/** The states saved by a run that was stopped and resumed, when outcomes report counters. */
module StoppedSaves {
  import opened Basics
  import opened RunState
  import opened Continuation
  import opened MappingOutcomes

  /** The states saved at the durable positions in (i, j], the epoch carried along. */
  function SavedOver(s: State, reports: Reports, i: int, j: int, epoch: int): seq<State>
    requires Valid(s) && s.next <= i <= j <= s.total
    decreases j - i
  {
    if i == j then []
    else SavedAt(s, reports, i + 1, epoch) + SavedOver(s, reports, i + 1, j, EpochAfter(s, reports, i, epoch))
  }

  function SavedAt(s: State, reports: Reports, i: int, epoch: int): seq<State>
    requires Valid(s) && s.next < i <= s.total
  {
    if Durable(s, i) then [BuiltAt(s, reports, i, epoch)] else []
  }

  function EpochAfter(s: State, reports: Reports, i: int, epoch: int): int
    requires s.interval > 0
  {
    if Durable(s, i + 1) then MappingOutcomes.Epoch(reports(i)).GetOr(epoch) else epoch
  }

  /** One turn: what it saves, and the state it goes on with. */
  lemma TurnSaves(s: State, cb: Callbacks, reports: Reports, stop: Option<int>, i: int, current: State) returns (next: State)
    requires Valid(s) && Answers(cb, reports) && cb.save.Some? && s.next <= i < s.total && Valid(current)
    ensures Valid(next)
    ensures Go(s, cb, stop, i, current).saved == SavedAt(s, reports, i + 1, current.epoch) + Continue(s, cb, stop, i + 1, next).saved
    ensures !StopHere(s, stop, i + 1) ==> next.epoch == EpochAfter(s, reports, i, current.epoch)
  {
    ItemRuns(s, cb, reports, stop, i, current);
    ItemSaves(s, cb, stop, i, current);
    next := RunItem(s, cb, stop, i, current).next;
    assert SoundReport(reports(i));
    MaterialisedValid(s, s.(epoch := current.epoch), i + 1, reports(i));
  }

  lemma ItemSaves(s: State, cb: Callbacks, stop: Option<int>, i: int, current: State)
    requires Valid(s) && s.next <= i < s.total && cb.save.Some? && RunItem(s, cb, stop, i, current).Ran?
    ensures var item := RunItem(s, cb, stop, i, current);
            item.saved == if Durable(s, i + 1) then [item.next] else []
  {
  }

  /** The segment ends at j: at the end of the schedule, or because it is stopped there. */
  predicate EndsAt(s: State, stop: Option<int>, j: int) { if j == s.total then stop.None? else stop == Some(j - s.next) }

  /** A run to the end or to a stop at j saves the states at the durable positions up to there. */
  lemma {:induction false} RunSaves(s: State, cb: Callbacks, reports: Reports, stop: Option<int>, i: int, current: State, j: int)
    requires Valid(s) && Answers(cb, reports) && cb.save.Some? && s.next <= i < j <= s.total && Valid(current)
    requires EndsAt(s, stop, j)
    ensures Saves(s, cb, stop, i, current, SavedOver(s, reports, i, j, current.epoch))
    decreases j - i
  {
    if i + 1 < j {
      var next := GoesOnSaving(s, cb, reports, stop, i, current, j);
      RunSaves(s, cb, reports, stop, i + 1, next, j);
      SavesChain(s, cb, reports, stop, i, current, next, j);
    } else {
      LastSaves(s, cb, reports, stop, i, current, j);
    }
  }

  ghost predicate Saves(s: State, cb: Callbacks, stop: Option<int>, i: int, current: State, saved: seq<State>)
    requires Valid(s) && s.next <= i <= s.total
  {
    Go(s, cb, stop, i, current).saved == saved
  }

  /** A turn before the end: the segment saves at i + 1 and then what it saves from next on. */
  ghost predicate SavesFirst(s: State, cb: Callbacks, reports: Reports, stop: Option<int>, i: int, current: State, next: State)
    requires Valid(s) && s.next <= i < s.total
  {
    Go(s, cb, stop, i, current).saved == SavedAt(s, reports, i + 1, current.epoch) + Go(s, cb, stop, i + 1, next).saved
  }

  lemma GoesOnSaving(s: State, cb: Callbacks, reports: Reports, stop: Option<int>, i: int, current: State, j: int)
    returns (next: State)
    requires Valid(s) && Answers(cb, reports) && cb.save.Some? && s.next <= i && i + 1 < j <= s.total && Valid(current)
    requires EndsAt(s, stop, j)
    ensures Valid(next) && SavesFirst(s, cb, reports, stop, i, current, next)
    ensures next.epoch == EpochAfter(s, reports, i, current.epoch)
  {
    next := TurnSaves(s, cb, reports, stop, i, current);
    NotYet(s, cb, stop, i + 1, next);
  }

  lemma SavesChain(s: State, cb: Callbacks, reports: Reports, stop: Option<int>, i: int, current: State, next: State, j: int)
    requires Valid(s) && s.next <= i < j <= s.total && SavesFirst(s, cb, reports, stop, i, current, next)
    requires next.epoch == EpochAfter(s, reports, i, current.epoch)
    requires Saves(s, cb, stop, i + 1, next, SavedOver(s, reports, i + 1, j, next.epoch))
    ensures Saves(s, cb, stop, i, current, SavedOver(s, reports, i, j, current.epoch))
  {
  }

  lemma LastSaves(s: State, cb: Callbacks, reports: Reports, stop: Option<int>, i: int, current: State, j: int)
    requires Valid(s) && Answers(cb, reports) && cb.save.Some? && s.next <= i && i + 1 == j <= s.total && Valid(current)
    requires EndsAt(s, stop, j)
    ensures Saves(s, cb, stop, i, current, SavedOver(s, reports, i, j, current.epoch))
  {
    var next := TurnSaves(s, cb, reports, stop, i, current);
    SavesNoMore(s, cb, stop, j, next);
    assert SavedOver(s, reports, j, j, EpochAfter(s, reports, i, current.epoch)) == [];
  }

  lemma SavesNoMore(s: State, cb: Callbacks, stop: Option<int>, j: int, current: State)
    requires Valid(s) && s.next < j <= s.total && (j == s.total || StopHere(s, stop, j))
    ensures Continue(s, cb, stop, j, current).saved == []
  {
  }

  lemma {:induction false} SavedSplit(s: State, reports: Reports, i: int, k: int, j: int, epoch: int)
    requires Valid(s) && s.next <= i <= k <= j <= s.total
    ensures SavedOver(s, reports, i, j, epoch) ==
            SavedOver(s, reports, i, k, epoch) + SavedOver(s, reports, k, j, EpochOver(s, reports, i, k, epoch))
    decreases k - i
  {
    if i < k { SavedSplit(s, reports, i + 1, k, j, EpochAfter(s, reports, i, epoch)); }
  }

  /** Both runs, at i with these epochs, save at m or neither does, and they save the same. */
  ghost predicate SavesAlike(s: State, c: State, reports: Reports, i: int, a: int, b: int, m: int)
    requires Valid(s) && Valid(c) && s.next <= i < m <= s.total && c.next <= i < m <= c.total
  {
    SavedAt(s, reports, m, EpochOver(s, reports, i, m - 1, a)) == SavedAt(c, reports, m, EpochOver(c, reports, i, m - 1, b))
  }

  ghost predicate AllAlike(s: State, c: State, reports: Reports, i: int, a: int, b: int)
    requires Valid(s) && Valid(c) && s.next <= i && c.next <= i && s.total == c.total
  {
    forall m | i < m <= s.total :: SavesAlike(s, c, reports, i, a, b, m)
  }

  /** Two runs over the same positions save the same states exactly if they do so at each position. */
  lemma {:induction false} SavedMeet(s: State, c: State, reports: Reports, i: int, a: int, b: int)
    requires Valid(s) && Valid(c) && s.next <= i && c.next <= i <= s.total == c.total
    ensures SavedOver(s, reports, i, s.total, a) == SavedOver(c, reports, i, s.total, b) <==> AllAlike(s, c, reports, i, a, b)
    decreases s.total - i
  {
    if i < s.total {
      SavedMeet(s, c, reports, i + 1, EpochAfter(s, reports, i, a), EpochAfter(c, reports, i, b));
      AlikeStep(s, c, reports, i, a, b);
      MeetStep(s, c, reports, i, a, b);
    }
  }

  lemma AlikeStep(s: State, c: State, reports: Reports, i: int, a: int, b: int)
    requires Valid(s) && Valid(c) && s.next <= i && c.next <= i < s.total == c.total
    ensures AllAlike(s, c, reports, i, a, b) <==>
            SavesAlike(s, c, reports, i, a, b, i + 1) &&
            AllAlike(s, c, reports, i + 1, EpochAfter(s, reports, i, a), EpochAfter(c, reports, i, b))
  {
    if AllAlike(s, c, reports, i, a, b) { AlikeRest(s, c, reports, i, a, b); }
    if SavesAlike(s, c, reports, i, a, b, i + 1) &&
       AllAlike(s, c, reports, i + 1, EpochAfter(s, reports, i, a), EpochAfter(c, reports, i, b))
    {
      AlikeFrom(s, c, reports, i, a, b);
    }
  }

  lemma AlikeRest(s: State, c: State, reports: Reports, i: int, a: int, b: int)
    requires Valid(s) && Valid(c) && s.next <= i && c.next <= i < s.total == c.total && AllAlike(s, c, reports, i, a, b)
    ensures SavesAlike(s, c, reports, i, a, b, i + 1)
    ensures AllAlike(s, c, reports, i + 1, EpochAfter(s, reports, i, a), EpochAfter(c, reports, i, b))
  {
    var j, a', b' := i + 1, EpochAfter(s, reports, i, a), EpochAfter(c, reports, i, b);
    forall m | j < m <= s.total ensures SavesAlike(s, c, reports, j, a', b', m) {
      assert SavesAlike(s, c, reports, i, a, b, m);
      AlikeLater(s, c, reports, i, a, b, m);
    }
  }

  lemma AlikeFrom(s: State, c: State, reports: Reports, i: int, a: int, b: int)
    requires Valid(s) && Valid(c) && s.next <= i && c.next <= i < s.total == c.total
    requires SavesAlike(s, c, reports, i, a, b, i + 1)
    requires AllAlike(s, c, reports, i + 1, EpochAfter(s, reports, i, a), EpochAfter(c, reports, i, b))
    ensures AllAlike(s, c, reports, i, a, b)
  {
    forall m | i < m <= s.total ensures SavesAlike(s, c, reports, i, a, b, m) {
      if m > i + 1 { AlikeLater(s, c, reports, i, a, b, m); }
    }
  }

  lemma AlikeLater(s: State, c: State, reports: Reports, i: int, a: int, b: int, m: int)
    requires Valid(s) && Valid(c) && s.next <= i && c.next <= i && i + 1 < m <= s.total == c.total
    ensures SavesAlike(s, c, reports, i, a, b, m) <==>
            SavesAlike(s, c, reports, i + 1, EpochAfter(s, reports, i, a), EpochAfter(c, reports, i, b), m)
  {
  }

  /** Saving the same over all positions is doing so at the next one and over the rest. */
  lemma MeetStep(s: State, c: State, reports: Reports, i: int, a: int, b: int)
    requires Valid(s) && Valid(c) && s.next <= i && c.next <= i < s.total == c.total
    ensures SavedOver(s, reports, i, s.total, a) == SavedOver(c, reports, i, s.total, b) <==>
            && SavesAlike(s, c, reports, i, a, b, i + 1)
            && SavedOver(s, reports, i + 1, s.total, EpochAfter(s, reports, i, a)) ==
               SavedOver(c, reports, i + 1, s.total, EpochAfter(c, reports, i, b))
  {
    var a', b' := EpochAfter(s, reports, i, a), EpochAfter(c, reports, i, b);
    SavedBeyond(s, reports, i + 1, a');
    SavedBeyond(c, reports, i + 1, b');
    SameHeads(i + 1, SavedAt(s, reports, i + 1, a), SavedOver(s, reports, i + 1, s.total, a'),
              SavedAt(c, reports, i + 1, b), SavedOver(c, reports, i + 1, s.total, b'));
  }

  lemma {:induction false} SavedBeyond(s: State, reports: Reports, i: int, epoch: int)
    requires Valid(s) && s.next <= i <= s.total
    ensures forall d | d in SavedOver(s, reports, i, s.total, epoch) :: d.next > i
    decreases s.total - i
  {
    if i < s.total { SavedBeyond(s, reports, i + 1, EpochAfter(s, reports, i, epoch)); }
  }

  /** Sequences whose parts up to position i are at most one state agree part by part. */
  lemma SameHeads(i: int, x: seq<State>, xs: seq<State>, y: seq<State>, ys: seq<State>)
    requires |x| <= 1 && |y| <= 1 && (forall d | d in x :: d.next == i) && (forall d | d in y :: d.next == i)
    requires (forall d | d in xs :: d.next > i) && (forall d | d in ys :: d.next > i)
    ensures x + xs == y + ys <==> x == y && xs == ys
  {
    if x + xs == y + ys {
      if x != [] { assert (x + xs)[0] == x[0] && (y + ys)[0].next == i; }
      if y != [] { assert (y + ys)[0] == y[0] && (x + xs)[0].next == i; }
      assert |x| == |y|;
      assert x == (x + xs)[..|x|] && y == (y + ys)[..|y|];
      assert xs == (x + xs)[|x|..] && ys == (y + ys)[|y|..];
    }
  }

  /** The resumed run saves at the same positions after the stop, and the states it saves
      there keep their counters. */
  ghost predicate SavesKept(s: State, reports: Reports, k: int)
    requires Valid(s) && s.next < k < s.total && Valid(StoppedState(s, reports, k))
  {
    var c := StoppedState(s, reports, k);
    forall m {:trigger Durable(c, m)} {:trigger StateKept(s, reports, k, m)} | k < m <= s.total ::
      (Durable(s, m) <==> Durable(c, m)) && (Durable(s, m) ==> StateKept(s, reports, k, m))
  }

  lemma AlikeIffKept(s: State, reports: Reports, k: int, m: int)
    requires Valid(s) && Sound(reports) && s.next < k < m <= s.total && Valid(StoppedState(s, reports, k))
    ensures var c := StoppedState(s, reports, k);
            c.next == k && c.total == s.total &&
            (SavesAlike(s, c, reports, k, EpochOver(s, reports, s.next, k, s.epoch), c.epoch, m) <==>
             (Durable(s, m) <==> Durable(c, m)) && (Durable(s, m) ==> StateKept(s, reports, k, m)))
  {
    StoppedFields(s, reports, k);
    var c := StoppedState(s, reports, k);
    var e, f := EpochOver(s, reports, s.next, m - 1, s.epoch), EpochOver(c, reports, k, m - 1, c.epoch);
    AlikeAt(s, c, reports, k, m);
    BuiltIffKept(s, c, reports, k, m, e, f);
    AlikeStates(s, c, reports, m, e, f);
  }

  lemma AlikeAt(s: State, c: State, reports: Reports, k: int, m: int)
    requires Valid(s) && Valid(c) && s.next < k < m <= s.total == c.total && c.next == k
    ensures SavesAlike(s, c, reports, k, EpochOver(s, reports, s.next, k, s.epoch), c.epoch, m) <==>
            SavedAt(s, reports, m, EpochOver(s, reports, s.next, m - 1, s.epoch)) ==
            SavedAt(c, reports, m, EpochOver(c, reports, k, m - 1, c.epoch))
  {
    EpochSplit(s, reports, s.next, k, m - 1, s.epoch);
  }

  lemma BuiltIffKept(s: State, c: State, reports: Reports, k: int, m: int, e: int, f: int)
    requires Valid(s) && Sound(reports) && s.next < k < m <= s.total && Valid(c) && c == StoppedState(s, reports, k)
    requires e == EpochOver(s, reports, s.next, m - 1, s.epoch) && f == EpochOver(c, reports, k, m - 1, c.epoch)
    ensures c.next == k && c.total == s.total
    ensures BuiltAt(s, reports, m, e) == BuiltAt(c, reports, m, f) <==> StateKept(s, reports, k, m)
  {
    StatesTell(s, reports, k, m);
  }

  lemma AlikeStates(s: State, c: State, reports: Reports, m: int, e: int, f: int)
    requires Valid(s) && Valid(c) && s.next < m <= s.total && c.next < m <= c.total
    ensures SavedAt(s, reports, m, e) == SavedAt(c, reports, m, f) <==>
            (Durable(s, m) <==> Durable(c, m)) && (Durable(s, m) ==> BuiltAt(s, reports, m, e) == BuiltAt(c, reports, m, f))
  {
  }

  /** What the stopped and the resumed segment save is, strung together, what the whole run
      saves if and only if the stop keeps every state saved after it. */
  lemma SavesShowExactly(s: State, cb: Callbacks, reports: Reports, k: int)
    requires Valid(s) && Answers(cb, reports) && cb.save.Some? && s.next < k < s.total
    ensures Valid(StoppedState(s, reports, k))
    ensures var c := StoppedState(s, reports, k);
            c.next == k && c.total == s.total &&
            (Go(s, cb, Some(k - s.next), s.next, s).saved + Go(c, cb, None, k, c).saved == Go(s, cb, None, s.next, s).saved
             <==> SavesKept(s, reports, k))
  {
    StoppedValid(s, reports, k);
    var c := StoppedState(s, reports, k);
    StoppedFields(s, reports, k);
    var e := EpochOver(s, reports, s.next, k, s.epoch);
    WholeSaves(s, cb, reports, k);
    RunSaves(s, cb, reports, Some(k - s.next), s.next, s, k);
    RunSaves(c, cb, reports, None, k, c, s.total);
    RestSaves(s, reports, k);
    DropCommon(SavedOver(s, reports, s.next, k, s.epoch), SavedOver(s, reports, k, s.total, e), SavedOver(c, reports, k, s.total, c.epoch));
  }

  lemma WholeSaves(s: State, cb: Callbacks, reports: Reports, k: int)
    requires Valid(s) && Answers(cb, reports) && cb.save.Some? && s.next < k < s.total
    ensures Saves(s, cb, None, s.next, s, SavedOver(s, reports, s.next, k, s.epoch) +
                                          SavedOver(s, reports, k, s.total, EpochOver(s, reports, s.next, k, s.epoch)))
  {
    RunSaves(s, cb, reports, None, s.next, s, s.total);
    SavedSplit(s, reports, s.next, k, s.total, s.epoch);
  }

  lemma RestSaves(s: State, reports: Reports, k: int)
    requires Valid(s) && Sound(reports) && s.next < k < s.total && Valid(StoppedState(s, reports, k))
    ensures var c := StoppedState(s, reports, k);
            c.next == k && c.total == s.total &&
            (SavedOver(s, reports, k, s.total, EpochOver(s, reports, s.next, k, s.epoch)) == SavedOver(c, reports, k, s.total, c.epoch)
             <==> SavesKept(s, reports, k))
  {
    var c := StoppedState(s, reports, k);
    StoppedFields(s, reports, k);
    SavedMeet(s, c, reports, k, EpochOver(s, reports, s.next, k, s.epoch), c.epoch);
    forall m | k < m <= s.total
      ensures SavesAlike(s, c, reports, k, EpochOver(s, reports, s.next, k, s.epoch), c.epoch, m) <==>
              (Durable(s, m) <==> Durable(c, m)) && (Durable(s, m) ==> StateKept(s, reports, k, m))
    {
      AlikeIffKept(s, reports, k, m);
    }
  }
}
