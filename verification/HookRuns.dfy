/** What a dispatch guarantees, and what holds over all the events of a run. */
module HookRuns {
  import opened Basics
  import opened Ordering
  import opened Hooks

  // ---- the order hooks are given in ----

  lemma HookOrder()
    ensures StrictOrder(HookLt)
  {
    TextOrder();
  }

  lemma IdsPermute(a: seq<Hook>, b: seq<Hook>)
    requires multiset(a) == multiset(b)
    ensures Distinct(Ids(a)) <==> Distinct(Ids(b))
    ensures forall h :: h in a <==> h in b
  {
    forall h ensures h in a <==> h in b {
      assert h in a <==> h in multiset(a);
      assert h in b <==> h in multiset(b);
    }
    MapPermutes((h: Hook) => h.id, a, b);
    if Distinct(Ids(a)) { DistinctPermutes(Ids(a), Ids(b)); }
    if Distinct(Ids(b)) { DistinctPermutes(Ids(b), Ids(a)); }
  }

  lemma DistinctIdsConnect(hooks: seq<Hook>)
    requires Distinct(Ids(hooks))
    ensures ConnectedOn(HookLt, hooks)
  {
    TextOrder();
    forall i, j | 0 <= i < |hooks| && 0 <= j < |hooks| && hooks[i] != hooks[j]
      ensures HookLt(hooks[i], hooks[j]) || HookLt(hooks[j], hooks[i])
    {
      assert Ids(hooks)[i] == hooks[i].id && Ids(hooks)[j] == hooks[j].id;
      assert hooks[i].id != hooks[j].id by {
        if i < j { assert Ids(hooks)[i] != Ids(hooks)[j]; }
        if j < i { assert Ids(hooks)[j] != Ids(hooks)[i]; }
      }
    }
  }

  /** The outcome of a dispatch, errors included, does not depend on the order hooks are given in. */
  lemma DispatchForgetsOrder(hooks: seq<Hook>, others: seq<Hook>, policy: Policy, context: Context, answers: Answers, disabled: set<Text>)
    requires multiset(hooks) == multiset(others)
    ensures Dispatch(hooks, policy, context, answers, disabled) == Dispatch(others, policy, context, answers, disabled)
  {
    SameOrder(hooks, others);
  }

  lemma SameOrder(hooks: seq<Hook>, others: seq<Hook>)
    requires multiset(hooks) == multiset(others)
    ensures AllWellFormed(hooks) <==> AllWellFormed(others)
    ensures Distinct(Ids(Sort(HookLt, hooks))) <==> Distinct(Ids(Sort(HookLt, others)))
    ensures Distinct(Ids(Sort(HookLt, hooks))) ==> Sort(HookLt, hooks) == Sort(HookLt, others)
  {
    IdsPermute(hooks, others);
    IdsPermute(hooks, Sort(HookLt, hooks));
    IdsPermute(others, Sort(HookLt, others));
    if Distinct(Ids(hooks)) {
      DistinctIdsConnect(hooks);
      HookOrder();
      SortForgetsOrder(HookLt, hooks, others);
    }
  }

  // ---- one dispatch ----

  function Emitted(receipts: seq<Receipt>): nat {
    if receipts == [] then 0 else receipts[0].metricsEmitted + Emitted(receipts[1..])
  }

  function Callees(receipts: seq<Receipt>): seq<Text> { Map((r: Receipt) => r.hookId, receipts) }

  ghost function Failures(receipts: seq<Receipt>): set<Text> {
    set r | r in receipts && r.status.Fail? :: r.hookId
  }

  /** The hooks in dispatch order that are to be called. */
  function Queue(hooks: seq<Hook>, context: Context, disabled: set<Text>): seq<Hook> {
    if hooks == [] then []
    else (if Called(hooks[0], context, disabled) then [hooks[0]] else []) + Queue(hooks[1..], context, disabled)
  }

  ghost predicate NoneFail(receipts: seq<Receipt>) {
    forall k | 0 <= k < |receipts| :: !receipts[k].status.Fail?
  }

  /** A stopped dispatch has one blocker, which is the last receipt's failure. */
  ghost predicate StoppedBy(e: Effects) {
    && |e.blockers| == 1 && e.receipts != []
    && var last := e.receipts[|e.receipts| - 1];
    && last.status.Fail? && last.failureCode == Some(e.blockers[0].code) && last.metadata == e.blockers[0].details
    && NoneFail(e.receipts[..|e.receipts| - 1])
  }

  lemma {:induction false} RunEmits(hooks: seq<Hook>, policy: Policy, context: Context, answers: Answers, disabled: set<Text>)
    requires Run(hooks, policy, context, answers, disabled).Ok?
    ensures var e := Run(hooks, policy, context, answers, disabled).value; Emitted(e.receipts) == |e.metrics|
  {
    if hooks != [] {
      var h := hooks[0];
      if !Called(h, context, disabled) {
        RunEmits(hooks[1..], policy, context, answers, disabled);
      } else {
        var v := Judge(policy, h.id, answers(h.id, context));
        var after := if v.Failed? && policy.mode.DisableHook? then disabled + {h.id} else disabled;
        if !(v.Failed? && policy.mode.FailFast?) {
          RunEmits(hooks[1..], policy, context, answers, after);
          var more := Run(hooks[1..], policy, context, answers, after).value;
          var e := Run(hooks, policy, context, answers, disabled).value;
          assert e.receipts[1..] == more.receipts;
        }
      }
    }
  }

  lemma {:induction false} RunStops(hooks: seq<Hook>, policy: Policy, context: Context, answers: Answers, disabled: set<Text>)
    requires Run(hooks, policy, context, answers, disabled).Ok?
    ensures var e := Run(hooks, policy, context, answers, disabled).value;
            && (e.blockers != [] ==> policy.mode.FailFast? && StoppedBy(e))
            && (policy.mode.FailFast? && e.blockers == [] ==> NoneFail(e.receipts))
  {
    if hooks != [] {
      var h := hooks[0];
      if !Called(h, context, disabled) {
        RunStops(hooks[1..], policy, context, answers, disabled);
      } else {
        var v := Judge(policy, h.id, answers(h.id, context));
        var after := if v.Failed? && policy.mode.DisableHook? then disabled + {h.id} else disabled;
        if !(v.Failed? && policy.mode.FailFast?) {
          RunStops(hooks[1..], policy, context, answers, after);
          var more := Run(hooks[1..], policy, context, answers, after).value;
          var e := Run(hooks, policy, context, answers, disabled).value;
          assert e.receipts == [e.receipts[0]] + more.receipts && e.blockers == more.blockers;
          if e.blockers != [] {
            assert e.receipts[..|e.receipts| - 1] == [e.receipts[0]] + more.receipts[..|more.receipts| - 1];
          }
        }
      }
    }
  }

  /** A disabled hook id of no later hook does not change the queue. */
  lemma {:induction false} QueueForgets(hooks: seq<Hook>, context: Context, disabled: set<Text>, id: Text)
    requires id !in Ids(hooks)
    ensures Queue(hooks, context, disabled + {id}) == Queue(hooks, context, disabled)
  {
    if hooks != [] {
      assert Ids(hooks)[0] == hooks[0].id;
      assert Ids(hooks)[1..] == Ids(hooks[1..]);
      QueueForgets(hooks[1..], context, disabled, id);
    }
  }

  lemma HeadIdElsewhere(hooks: seq<Hook>)
    requires hooks != [] && Distinct(Ids(hooks))
    ensures hooks[0].id !in Ids(hooks[1..]) && Distinct(Ids(hooks[1..]))
  {
    assert Ids(hooks)[0] == hooks[0].id && Ids(hooks)[1..] == Ids(hooks[1..]);
  }

  /** Every queued hook is called once and in order; only a fail-fast failure cuts this short. */
  lemma {:induction false} RunCalls(hooks: seq<Hook>, policy: Policy, context: Context, answers: Answers, disabled: set<Text>)
    requires Run(hooks, policy, context, answers, disabled).Ok? && Distinct(Ids(hooks))
    ensures var e, queue := Run(hooks, policy, context, answers, disabled).value, Queue(hooks, context, disabled);
            && |e.receipts| <= |queue| && Callees(e.receipts) == Ids(queue[..|e.receipts|])
            && (|e.receipts| < |queue| ==> e.blockers != [])
  {
    if hooks != [] {
      var h, rest := hooks[0], hooks[1..];
      HeadIdElsewhere(hooks);
      if !Called(h, context, disabled) {
        RunCalls(rest, policy, context, answers, disabled);
        assert Queue(hooks, context, disabled) == Queue(rest, context, disabled);
      } else {
        var v := Judge(policy, h.id, answers(h.id, context));
        var after := if v.Failed? && policy.mode.DisableHook? then disabled + {h.id} else disabled;
        if !(v.Failed? && policy.mode.FailFast?) {
          RunCalls(rest, policy, context, answers, after);
          QueueForgets(rest, context, disabled, h.id);
          var more := Run(rest, policy, context, answers, after).value;
          var e := Run(hooks, policy, context, answers, disabled).value;
          assert e.receipts[0].hookId == h.id && e.receipts[1..] == more.receipts;
          FirstCalls(h, Queue(rest, context, disabled), e.receipts, more.receipts);
        }
      }
    }
  }

  lemma FirstCalls(h: Hook, queue: seq<Hook>, receipts: seq<Receipt>, more: seq<Receipt>)
    requires receipts != [] && receipts[0].hookId == h.id && receipts[1..] == more
    requires |more| <= |queue| && Callees(more) == Ids(queue[..|more|])
    ensures Callees(receipts) == Ids(([h] + queue)[..|receipts|])
  {
    assert ([h] + queue)[..|receipts|] == [h] + queue[..|more|];
    assert Callees(receipts) == [h.id] + Callees(more);
  }

  /** The disabled set grows by exactly the hooks that failed, under disable_hook only. */
  lemma {:induction false} RunDisables(hooks: seq<Hook>, policy: Policy, context: Context, answers: Answers, disabled: set<Text>)
    requires Run(hooks, policy, context, answers, disabled).Ok?
    ensures var e := Run(hooks, policy, context, answers, disabled).value;
            e.disabled == disabled + if policy.mode.DisableHook? then Failures(e.receipts) else {}
  {
    if hooks != [] {
      var h := hooks[0];
      if !Called(h, context, disabled) {
        RunDisables(hooks[1..], policy, context, answers, disabled);
      } else {
        var v := Judge(policy, h.id, answers(h.id, context));
        var after := if v.Failed? && policy.mode.DisableHook? then disabled + {h.id} else disabled;
        if !(v.Failed? && policy.mode.FailFast?) {
          RunDisables(hooks[1..], policy, context, answers, after);
          var more := Run(hooks[1..], policy, context, answers, after).value;
          var e := Run(hooks, policy, context, answers, disabled).value;
          assert e.receipts == [e.receipts[0]] + more.receipts;
          assert Failures(e.receipts) == (if v.Failed? then {h.id} else {}) + Failures(more.receipts);
        }
      }
    }
  }

  ghost predicate ValidAnswers(answers: Answers) {
    forall id, c :: answers(id, c).Returned? ==> answers(id, c).result.Valid()
  }

  /** Whatever did not pass leaves a warning or a blocker behind. */
  lemma {:induction false} RunWarns(hooks: seq<Hook>, policy: Policy, context: Context, answers: Answers, disabled: set<Text>)
    requires Run(hooks, policy, context, answers, disabled).Ok? && ValidAnswers(answers)
    ensures var e := Run(hooks, policy, context, answers, disabled).value;
            e.warnings == [] && e.blockers == [] ==> forall r | r in e.receipts :: r.status.Pass?
  {
    if hooks != [] {
      var h := hooks[0];
      if !Called(h, context, disabled) {
        RunWarns(hooks[1..], policy, context, answers, disabled);
      } else {
        var v := Judge(policy, h.id, answers(h.id, context));
        if v.Accepted? {
          RunWarns(hooks[1..], policy, context, answers, disabled);
        }
      }
    }
  }

  /** What makes a call a failure. */
  predicate Fails(policy: Policy, r: Response) {
    r.Returned? ==> r.result.status.Fail? || (r.result.metrics != [] && !policy.allowMetrics)
  }

  /** A receipt tells what its hook answered. */
  ghost predicate Tells(policy: Policy, context: Context, answers: Answers, q: Receipt) {
    var r := answers(q.hookId, context);
    && q.event == context.event && q.sequence == context.sequence
    && (q.status.Fail? <==> Fails(policy, r))
    && (q.status.Fail? ==> q.metricsEmitted == 0 && q.failureCode.Some? && q.disabledAfterFailure == policy.mode.DisableHook?)
    && (!q.status.Fail? ==>
          && q.status == r.result.status && q.metricsEmitted == |r.result.metrics| && q.failureCode.None?
          && q.warningCodes == Codes(r.result.warnings) && Distinct(q.warningCodes) && !q.disabledAfterFailure)
  }

  /** Every receipt tells its hook's answer, and the metrics are those of the accepted answers in order. */
  lemma {:induction false} ReceiptsTell(hooks: seq<Hook>, policy: Policy, context: Context, answers: Answers, disabled: set<Text>)
    requires Run(hooks, policy, context, answers, disabled).Ok?
    ensures var e := Run(hooks, policy, context, answers, disabled).value;
            && (forall q | q in e.receipts :: Tells(policy, context, answers, q))
            && e.metrics == Reported(context, answers, e.receipts)
  {
    if hooks != [] {
      var h := hooks[0];
      if !Called(h, context, disabled) {
        ReceiptsTell(hooks[1..], policy, context, answers, disabled);
      } else {
        var v := Judge(policy, h.id, answers(h.id, context));
        var after := if v.Failed? && policy.mode.DisableHook? then disabled + {h.id} else disabled;
        var e := Run(hooks, policy, context, answers, disabled).value;
        assert Tells(policy, context, answers, e.receipts[0]);
        if !(v.Failed? && policy.mode.FailFast?) {
          ReceiptsTell(hooks[1..], policy, context, answers, after);
          var more := Run(hooks[1..], policy, context, answers, after).value;
          assert e.receipts == [e.receipts[0]] + more.receipts && e.receipts[1..] == more.receipts;
        }
      }
    }
  }

  /** The metrics of the answers whose receipts do not fail. */
  function Reported(context: Context, answers: Answers, receipts: seq<Receipt>): seq<Metric> {
    if receipts == [] then []
    else
      var r := answers(receipts[0].hookId, context);
      (if !receipts[0].status.Fail? && r.Returned? then r.result.metrics else []) + Reported(context, answers, receipts[1..])
  }

  lemma DispatchDisables(hooks: seq<Hook>, policy: Policy, context: Context, answers: Answers, disabled: set<Text>)
    requires Dispatch(hooks, policy, context, answers, disabled).Ok?
    ensures var r := Dispatch(hooks, policy, context, answers, disabled).value;
            r.disabled == disabled + if policy.mode.DisableHook? then Failures(r.receipts) else {}
  {
    RunDisables(Sort(HookLt, hooks), policy, context, answers, disabled);
  }

  /** What every completed dispatch guarantees. */
  lemma DispatchMeaning(hooks: seq<Hook>, policy: Policy, context: Context, answers: Answers, disabled: set<Text>)
    requires Dispatch(hooks, policy, context, answers, disabled).Ok? && ValidAnswers(answers)
    ensures var r, queue := Dispatch(hooks, policy, context, answers, disabled).value, Queue(Sort(HookLt, hooks), context, disabled);
            && Emitted(r.receipts) == |r.metrics|
            && |r.receipts| <= |queue| && Callees(r.receipts) == Ids(queue[..|r.receipts|])
            && (r.blockers == [] ==> |r.receipts| == |queue|)
            && (r.blockers != [] ==> policy.mode.FailFast? && StoppedBy(Effects(r.receipts, r.metrics, r.warnings, r.blockers, r.disabled)))
            && (policy.mode.FailFast? && r.blockers == [] ==> NoneFail(r.receipts))
            && r.disabled == disabled + (if policy.mode.DisableHook? then Failures(r.receipts) else {})
            && (forall q | q in r.receipts :: Tells(policy, context, answers, q))
            && r.metrics == Reported(context, answers, r.receipts)
            && (r.status.Fail? <==> r.blockers != [])
            && (r.status.Pass? ==> r.warnings == [] && forall q | q in r.receipts :: q.status.Pass?)
  {
    var ordered := Sort(HookLt, hooks);
    RunEmits(ordered, policy, context, answers, disabled);
    RunCalls(ordered, policy, context, answers, disabled);
    RunStops(ordered, policy, context, answers, disabled);
    RunDisables(ordered, policy, context, answers, disabled);
    RunWarns(ordered, policy, context, answers, disabled);
    ReceiptsTell(ordered, policy, context, answers, disabled);
  }

  lemma {:induction false} NamesNonempty(hooks: seq<Hook>, policy: Policy, context: Context, answers: Answers, disabled: set<Text>)
    requires Run(hooks, policy, context, answers, disabled).Ok? && AllWellFormed(hooks)
    ensures [] in Run(hooks, policy, context, answers, disabled).value.disabled <==> [] in disabled
    decreases |hooks|
  {
    if hooks != [] {
      var h := hooks[0];
      assert h in hooks;
      var v := Judge(policy, h.id, answers(h.id, context));
      if !Called(h, context, disabled) {
        NamesNonempty(hooks[1..], policy, context, answers, disabled);
      } else if !(v.Failed? && policy.mode.FailFast?) {
        var after := if v.Failed? && policy.mode.DisableHook? then disabled + {h.id} else disabled;
        NamesNonempty(hooks[1..], policy, context, answers, after);
      }
    }
  }

  /** The result constructor rejects exactly when the caller passed an empty disabled id: the
      status always fits the warnings and blockers. */
  lemma ResultAccepted(hooks: seq<Hook>, policy: Policy, context: Context, answers: Answers, disabled: set<Text>)
    requires AllWellFormed(hooks) && Distinct(Ids(Sort(HookLt, hooks)))
    requires Run(Sort(HookLt, hooks), policy, context, answers, disabled).Ok?
    ensures Dispatch(hooks, policy, context, answers, disabled) == Err(ResultInvalid) <==> [] in disabled
  {
    IdsPermute(hooks, Sort(HookLt, hooks));
    NamesNonempty(Sort(HookLt, hooks), policy, context, answers, disabled);
  }

  // ---- a run of events ----

  /** The results of a run: each event's dispatch starts from the disabled set the one before left. */
  ghost predicate Threads(hooks: seq<Hook>, policy: Policy, answers: Answers, disabled: set<Text>,
                          contexts: seq<Context>, results: seq<DispatchResult>)
  {
    && |contexts| == |results|
    && forall k | 0 <= k < |results| :: Follows(hooks, policy, answers, contexts[k], DisabledBefore(disabled, results, k), results[k])
  }

  ghost predicate Follows(hooks: seq<Hook>, policy: Policy, answers: Answers, context: Context, disabled: set<Text>, r: DispatchResult) {
    Dispatch(hooks, policy, context, answers, disabled) == Ok(r)
  }

  ghost function DisabledBefore(disabled: set<Text>, results: seq<DispatchResult>, k: nat): set<Text>
    requires k <= |results|
  {
    if k == 0 then disabled else results[k - 1].disabled
  }

  lemma ThreadsOn(hooks: seq<Hook>, policy: Policy, answers: Answers, disabled: set<Text>,
                  contexts: seq<Context>, results: seq<DispatchResult>, context: Context, r: DispatchResult)
    requires Threads(hooks, policy, answers, disabled, contexts, results)
    requires Follows(hooks, policy, answers, context, DisabledBefore(disabled, results, |results|), r)
    ensures Threads(hooks, policy, answers, disabled, contexts + [context], results + [r])
    ensures DisabledBefore(disabled, results + [r], |results| + 1) == r.disabled
  {
    var all, cs := results + [r], contexts + [context];
    forall k | 0 <= k < |all| ensures Follows(hooks, policy, answers, cs[k], DisabledBefore(disabled, all, k), all[k]) {
      StillFollows(hooks, policy, answers, disabled, contexts, results, context, r, k);
    }
  }

  lemma StillFollows(hooks: seq<Hook>, policy: Policy, answers: Answers, disabled: set<Text>,
                     contexts: seq<Context>, results: seq<DispatchResult>, context: Context, r: DispatchResult, k: nat)
    requires Threads(hooks, policy, answers, disabled, contexts, results) && k <= |results|
    requires Follows(hooks, policy, answers, context, DisabledBefore(disabled, results, |results|), r)
    ensures Follows(hooks, policy, answers, (contexts + [context])[k], DisabledBefore(disabled, results + [r], k), (results + [r])[k])
  {
    BeforeUnchanged(disabled, results, r, k);
    if k < |results| {
      assert Follows(hooks, policy, answers, contexts[k], DisabledBefore(disabled, results, k), results[k]);
    }
  }

  lemma BeforeUnchanged(disabled: set<Text>, results: seq<DispatchResult>, r: DispatchResult, k: nat)
    requires k <= |results|
    ensures DisabledBefore(disabled, results + [r], k) == DisabledBefore(disabled, results, k)
    ensures k < |results| ==> (results + [r])[k] == results[k]
  {
  }

  ghost function FailuresUpTo(results: seq<DispatchResult>, k: nat): set<Text>
    requires k <= |results|
  {
    if k == 0 then {} else FailuresUpTo(results, k - 1) + Failures(results[k - 1].receipts)
  }

  /** Every result leaves the disabled set it started from and, under disable_hook, its failures. */
  ghost predicate Grows(policy: Policy, disabled: set<Text>, results: seq<DispatchResult>) {
    forall k | 0 <= k < |results| ::
      results[k].disabled ==
      DisabledBefore(disabled, results, k) + if policy.mode.DisableHook? then Failures(results[k].receipts) else {}
  }

  lemma ThreadsGrow(hooks: seq<Hook>, policy: Policy, answers: Answers, disabled: set<Text>,
                    contexts: seq<Context>, results: seq<DispatchResult>)
    requires Threads(hooks, policy, answers, disabled, contexts, results)
    ensures Grows(policy, disabled, results)
  {
    forall k | 0 <= k < |results|
      ensures results[k].disabled ==
              DisabledBefore(disabled, results, k) + if policy.mode.DisableHook? then Failures(results[k].receipts) else {}
    {
      FollowsDisables(hooks, policy, answers, contexts[k], DisabledBefore(disabled, results, k), results[k]);
    }
  }

  lemma {:induction false} GrownIsFailures(policy: Policy, disabled: set<Text>, results: seq<DispatchResult>, k: nat)
    requires Grows(policy, disabled, results) && k <= |results|
    ensures DisabledBefore(disabled, results, k) == disabled + if policy.mode.DisableHook? then FailuresUpTo(results, k) else {}
  {
    if k > 0 { GrownIsFailures(policy, disabled, results, k - 1); }
  }

  lemma FollowsDisables(hooks: seq<Hook>, policy: Policy, answers: Answers, context: Context, disabled: set<Text>, r: DispatchResult)
    requires Follows(hooks, policy, answers, context, disabled, r)
    ensures r.disabled == disabled + if policy.mode.DisableHook? then Failures(r.receipts) else {}
  {
    DispatchDisables(hooks, policy, context, answers, disabled);
  }

  /** The disabled set is, at every point, the initial one and the hooks that have failed so far. */
  lemma DisabledIsFailures(hooks: seq<Hook>, policy: Policy, answers: Answers, disabled: set<Text>,
                                              contexts: seq<Context>, results: seq<DispatchResult>, k: nat)
    requires Threads(hooks, policy, answers, disabled, contexts, results) && k <= |results|
    ensures DisabledBefore(disabled, results, k) == disabled + if policy.mode.DisableHook? then FailuresUpTo(results, k) else {}
  {
    ThreadsGrow(hooks, policy, answers, disabled, contexts, results);
    GrownIsFailures(policy, disabled, results, k);
  }

  lemma {:induction false} FailuresStay(results: seq<DispatchResult>, i: nat, k: nat)
    requires i < k <= |results|
    ensures Failures(results[i].receipts) <= FailuresUpTo(results, k)
    decreases k
  {
    if i < k - 1 { FailuresStay(results, i, k - 1); }
  }

  lemma {:induction false} QueueAvoids(hooks: seq<Hook>, context: Context, disabled: set<Text>, id: Text)
    requires id in disabled
    ensures id !in Ids(Queue(hooks, context, disabled))
  {
    if hooks != [] {
      QueueAvoids(hooks[1..], context, disabled, id);
      var q := Queue(hooks, context, disabled);
      if Called(hooks[0], context, disabled) {
        assert Ids(q) == [hooks[0].id] + Ids(Queue(hooks[1..], context, disabled));
      }
    }
  }

  lemma DisabledNotCalled(hooks: seq<Hook>, policy: Policy, context: Context, answers: Answers, disabled: set<Text>, id: Text)
    requires Dispatch(hooks, policy, context, answers, disabled).Ok? && ValidAnswers(answers) && id in disabled
    ensures forall q | q in Dispatch(hooks, policy, context, answers, disabled).value.receipts :: q.hookId != id
  {
    var receipts := Dispatch(hooks, policy, context, answers, disabled).value.receipts;
    var queue := Queue(Sort(HookLt, hooks), context, disabled);
    DispatchMeaning(hooks, policy, context, answers, disabled);
    QueueAvoids(Sort(HookLt, hooks), context, disabled, id);
    forall q | q in receipts ensures q.hookId != id {
      var k :| 0 <= k < |receipts| && receipts[k] == q;
      assert Callees(receipts)[k] == q.hookId;
      assert Ids(queue[..|receipts|])[k] == queue[k].id && Ids(queue)[k] == queue[k].id;
    }
  }

  /** Under disable_hook a hook that fails at one event of a run is called at no later event;
      a hook disabled at the start is never called. */
  lemma NeverCalledAgain(hooks: seq<Hook>, policy: Policy, answers: Answers, disabled: set<Text>,
                         contexts: seq<Context>, results: seq<DispatchResult>)
    requires Threads(hooks, policy, answers, disabled, contexts, results) && ValidAnswers(answers)
    ensures policy.mode.DisableHook? ==>
              forall i, k, r, q | 0 <= i < k < |results| && r in results[i].receipts && r.status.Fail? && q in results[k].receipts ::
                q.hookId != r.hookId
    ensures forall k, q | 0 <= k < |results| && q in results[k].receipts :: q.hookId !in disabled
  {
    forall i, k, r, q | policy.mode.DisableHook? && 0 <= i < k < |results| && r in results[i].receipts && r.status.Fail? && q in results[k].receipts
      ensures q.hookId != r.hookId
    {
      DisabledIsFailures(hooks, policy, answers, disabled, contexts, results, k);
      FailuresStay(results, i, k);
      DisabledNotCalled(hooks, policy, contexts[k], answers, DisabledBefore(disabled, results, k), r.hookId);
    }
    forall k, q | 0 <= k < |results| && q in results[k].receipts ensures q.hookId !in disabled {
      DisabledIsFailures(hooks, policy, answers, disabled, contexts, results, k);
      if q.hookId in disabled {
        DisabledNotCalled(hooks, policy, contexts[k], answers, DisabledBefore(disabled, results, k), q.hookId);
      }
    }
  }

  /** The learning loop's observer: it threads the disabled set and collects what hooks emit. */
  class Observer {
    const hooks: seq<Hook>
    const policy: Policy
    const answers: Answers
    var disabled: set<Text>
    var sequence: nat
    var metrics: seq<Metric>
    var warnings: seq<Issue>
    var events: seq<Event>
    ghost var contexts: seq<Context>
    ghost var results: seq<DispatchResult>

    /** The run so far is one threaded run from the empty disabled set. */
    ghost predicate Valid()
      reads this
    {
      && Threads(hooks, policy, answers, {}, contexts, results)
      && disabled == DisabledBefore({}, results, |results|)
      && sequence == |events|
    }

    constructor (hooks: seq<Hook>, policy: Policy, answers: Answers)
      ensures Valid() && this.hooks == hooks && this.policy == policy && this.answers == answers
      ensures disabled == {} && sequence == 0 && metrics == [] && warnings == [] && events == [] && results == []
    {
      this.hooks, this.policy, this.answers := hooks, policy, answers;
      disabled, sequence, metrics, warnings, events := {}, 0, [], [], [];
      contexts, results := [], [];
    }

    /** observe: a dispatch that raises leaves only the event and its number behind. */
    method Observe(event: Event, runId: Text, step: nat, metadata: Details) returns (r: Result<DispatchResult, HookError>)
      requires Valid()
      modifies this
      ensures Valid()
      ensures sequence == old(sequence) + 1 && events == old(events) + [event]
      ensures r == Dispatch(hooks, policy, Context(runId, event, sequence, step, old(metrics), metadata), answers, old(disabled))
      ensures r.Ok? ==>
                && disabled == r.value.disabled && metrics == old(metrics) + r.value.metrics
                && warnings == old(warnings) + r.value.warnings && results == old(results) + [r.value]
      ensures r.Err? ==>
                disabled == old(disabled) && metrics == old(metrics) && warnings == old(warnings) && results == old(results)
    {
      sequence := sequence + 1;
      events := events + [event];
      var context := Context(runId, event, sequence, step, metrics, metadata);
      r := DispatchHooks(hooks, policy, context, answers, disabled);
      if r.Ok? {
        ThreadsOn(hooks, policy, answers, {}, contexts, results, context, r.value);
        disabled := r.value.disabled;
        metrics := metrics + r.value.metrics;
        warnings := warnings + r.value.warnings;
        contexts := contexts + [context];
        results := results + [r.value];
      }
    }

    /** The metrics of a completed step join the run's. */
    method Record(emitted: seq<Metric>)
      requires Valid()
      modifies this`metrics
      ensures Valid() && metrics == old(metrics) + emitted
    {
      metrics := metrics + emitted;
    }
  }
}
