/** What a dispatch calls, in which order, and what it reports, told from the hooks given and
    their answers. */
module HookMeaning {
  import opened Basics
  import opened Ordering
  import opened Hooks
  import opened HookRuns

  // ---- the order of calls ----

  /** a is called before b: the smaller priority first, and for equal ones the bytewise smaller ID. */
  ghost predicate CalledBefore(a: Hook, b: Hook) {
    a.priority < b.priority || (a.priority == b.priority && BytesBefore(a.id, b.id))
  }

  lemma OrderIsCallOrder(a: Hook, b: Hook)
    ensures HookLt(a, b) <==> CalledBefore(a, b)
  {
    TextOrderIsBytes(a.id, b.id);
  }

  /** A hook is called for an event it supports, unless it is disabled. */
  predicate Eligible(h: Hook, context: Context, disabled: set<Text>) { h.id !in disabled && context.event in h.events }

  lemma {:induction false} QueueHas(hooks: seq<Hook>, context: Context, disabled: set<Text>, h: Hook)
    ensures h in Queue(hooks, context, disabled) <==> h in hooks && Eligible(h, context, disabled)
  {
    if hooks != [] {
      assert hooks == [hooks[0]] + hooks[1..];
      QueueHas(hooks[1..], context, disabled, h);
    }
  }

  lemma {:induction false} QueueAscends(hooks: seq<Hook>, context: Context, disabled: set<Text>)
    requires StrictlySorted(HookLt, hooks)
    ensures StrictlySorted(HookLt, Queue(hooks, context, disabled))
  {
    if hooks != [] {
      QueueAscends(hooks[1..], context, disabled);
      var more := Queue(hooks[1..], context, disabled);
      forall k | 0 <= k < |more| ensures HookLt(hooks[0], more[k]) {
        QueueHas(hooks[1..], context, disabled, more[k]);
        var j :| 0 <= j < |hooks[1..]| && hooks[1..][j] == more[k];
        assert hooks[j + 1] == more[k];
      }
    }
  }

  lemma SortedStrictly(hooks: seq<Hook>)
    requires Distinct(Ids(Sort(HookLt, hooks)))
    ensures StrictlySorted(HookLt, Sort(HookLt, hooks)) && forall h :: h in Sort(HookLt, hooks) <==> h in hooks
  {
    var ordered := Sort(HookLt, hooks);
    IdsPermute(hooks, ordered);
    HookOrder();
    DistinctIdsConnect(hooks);
    SortSorted(HookLt, hooks);
    DistinctIdsConnect(ordered);
    forall i, j | 0 <= i < j < |ordered| ensures HookLt(ordered[i], ordered[j]) {
      assert Ids(ordered)[i] == ordered[i].id && Ids(ordered)[j] == ordered[j].id;
    }
  }

  /** The hooks called, in order: each an eligible one of the hooks given, before all that are
      called after it; and every eligible hook is called unless it comes after the last one. */
  ghost predicate CallsInOrder(hooks: seq<Hook>, context: Context, disabled: set<Text>, called: seq<Hook>, receipts: seq<Receipt>) {
    && |called| == |receipts|
    && (forall k | 0 <= k < |called| :: called[k] in hooks && Eligible(called[k], context, disabled) && receipts[k].hookId == called[k].id)
    && (forall i, j | 0 <= i < j < |called| :: CalledBefore(called[i], called[j]))
    && (forall h | h in hooks && Eligible(h, context, disabled) ::
          h in called || forall k | 0 <= k < |called| :: CalledBefore(called[k], h))
  }

  lemma InitialCalls(queue: seq<Hook>, n: nat, h: Hook)
    requires StrictlySorted(HookLt, queue) && n <= |queue| && h in queue
    ensures h in queue[..n] || forall k | 0 <= k < n :: CalledBefore(queue[k], h)
  {
    var j :| 0 <= j < |queue| && queue[j] == h;
    if j < n {
      assert queue[..n][j] == h;
    } else {
      forall k | 0 <= k < n ensures CalledBefore(queue[k], h) { OrderIsCallOrder(queue[k], h); }
    }
  }

  lemma QueueCalls(hooks: seq<Hook>, ordered: seq<Hook>, context: Context, disabled: set<Text>, n: nat, receipts: seq<Receipt>)
    requires StrictlySorted(HookLt, ordered) && forall h :: h in ordered <==> h in hooks
    requires n == |receipts| && n <= |Queue(ordered, context, disabled)|
    requires Callees(receipts) == Ids(Queue(ordered, context, disabled)[..n])
    ensures CallsInOrder(hooks, context, disabled, Queue(ordered, context, disabled)[..n], receipts)
  {
    var queue := Queue(ordered, context, disabled);
    var called := queue[..n];
    QueueAscends(ordered, context, disabled);
    forall k | 0 <= k < |called|
      ensures called[k] in hooks && Eligible(called[k], context, disabled) && receipts[k].hookId == called[k].id
    {
      assert called[k] == queue[k] && queue[k] in queue;
      QueueHas(ordered, context, disabled, called[k]);
      assert Callees(receipts)[k] == Ids(called)[k];
    }
    forall i, j | 0 <= i < j < |called| ensures CalledBefore(called[i], called[j]) { OrderIsCallOrder(queue[i], queue[j]); }
    forall h | h in hooks && Eligible(h, context, disabled)
      ensures h in called || forall k | 0 <= k < |called| :: CalledBefore(called[k], h)
    {
      QueueHas(ordered, context, disabled, h);
      InitialCalls(queue, n, h);
    }
  }

  /** Every completed dispatch calls the eligible hooks in order; without a blocker, all of them. */
  lemma DispatchCalls(hooks: seq<Hook>, policy: Policy, context: Context, answers: Answers, disabled: set<Text>)
    returns (called: seq<Hook>)
    requires Dispatch(hooks, policy, context, answers, disabled).Ok?
    ensures var r := Dispatch(hooks, policy, context, answers, disabled).value;
            && CallsInOrder(hooks, context, disabled, called, r.receipts)
            && (r.blockers == [] ==> forall h | h in hooks && Eligible(h, context, disabled) :: h in called)
  {
    var ordered := Sort(HookLt, hooks);
    var r := Dispatch(hooks, policy, context, answers, disabled).value;
    SortedStrictly(hooks);
    RunCalls(ordered, policy, context, answers, disabled);
    called := Queue(ordered, context, disabled)[..|r.receipts|];
    QueueCalls(hooks, ordered, context, disabled, |r.receipts|, r.receipts);
    if r.blockers == [] {
      forall h | h in hooks && Eligible(h, context, disabled) ensures h in called { QueueHas(ordered, context, disabled, h); }
    }
  }

  // ---- what each call leaves in the report ----

  /** The call counts as a failure: it raised, returned something else than a result, returned
      a failing result, or metrics that the policy does not allow. */
  predicate CallFails(policy: Policy, r: Response) {
    match r
    case Raised(_) => true
    case Foreign(_) => true
    case Returned(x) => x.status.Fail? || (x.metrics != [] && !policy.allowMetrics)
  }

  function FailureCode(r: Response): string {
    match r
    case Raised(_) => "learning_hook_failed"
    case Foreign(_) => "learning_hook_result_invalid"
    case Returned(x) => if x.status.Fail? then "learning_hook_failed" else "learning_hook_metric_policy_violation"
  }

  function FailureDetails(id: Text, r: Response): Details {
    match r
    case Raised(exception) => map["hook_id" := id, "exception_type" := exception]
    case Foreign(typeName) => map["hook_id" := id, "returned_type" := typeName]
    case Returned(x) => if x.status.Fail? then map["hook_id" := id] + x.metadata else map["hook_id" := id]
  }

  /** The receipt of a call. */
  function ReceiptFor(policy: Policy, context: Context, id: Text, r: Response): Receipt {
    if CallFails(policy, r) then
      Receipt(id, context.event, context.sequence, Fail, 0, [], policy.mode == DisableHook, Some(FailureCode(r)), FailureDetails(id, r))
    else
      assert r.Returned?;
      Receipt(id, context.event, context.sequence, r.result.status, |r.result.metrics|,
              Map((w: Issue) => w.code, r.result.warnings), false, None, map[])
  }

  /** The warnings a call leaves: those of its result, and for a failure that does not stop the
      dispatch one that says so, and one more when the hook is disabled. */
  function WarningsFor(policy: Policy, id: Text, r: Response): seq<Issue> {
    (if r.Returned? && (r.result.status.Fail? || !CallFails(policy, r)) then r.result.warnings else [])
    + (if CallFails(policy, r) && policy.mode != FailFast
       then [Issue(if FailureCode(r) == "learning_hook_failed" then "learning_hook_failed_continue" else FailureCode(r),
                   "hook dispatch failure", FailureDetails(id, r))]
       else [])
    + (if CallFails(policy, r) && policy.mode == DisableHook
       then [Issue("learning_hook_disabled", "hook dispatch failure", FailureDetails(id, r))] else [])
  }

  function MetricsFor(policy: Policy, r: Response): seq<Metric> { if CallFails(policy, r) || !r.Returned? then [] else r.result.metrics }

  function BlockersFor(policy: Policy, id: Text, r: Response): seq<Issue> {
    if CallFails(policy, r) && policy.mode == FailFast then [Issue(FailureCode(r), "hook dispatch failure", FailureDetails(id, r))] else []
  }

  /** The lists of the report are those of the calls, one after another. */
  ghost predicate Told(policy: Policy, context: Context, answers: Answers, ids: seq<Text>, e: Effects) {
    if ids == [] then e.receipts == [] && e.metrics == [] && e.warnings == [] && e.blockers == []
    else
      var r := answers(ids[0], context);
      exists more: Effects ::
        && Told(policy, context, answers, ids[1..], more)
        && e.receipts == [ReceiptFor(policy, context, ids[0], r)] + more.receipts
        && e.metrics == MetricsFor(policy, r) + more.metrics
        && e.warnings == WarningsFor(policy, ids[0], r) + more.warnings
        && e.blockers == BlockersFor(policy, ids[0], r) + more.blockers
  }

  lemma OneCall(policy: Policy, context: Context, id: Text, r: Response)
    ensures var v := Judge(policy, id, r);
            && (v.Failed? <==> CallFails(policy, r))
            && (v.Failed? ==>
                  && FailReceipt(policy, id, context, v) == ReceiptFor(policy, context, id, r) && MetricsFor(policy, r) == []
                  && (policy.mode.FailFast? ==> v.kept == WarningsFor(policy, id, r)
                                                && [Issue(v.code, MESSAGE, v.details)] == BlockersFor(policy, id, r))
                  && (!policy.mode.FailFast? ==> FailureWarnings(policy, v) == WarningsFor(policy, id, r) && BlockersFor(policy, id, r) == []))
            && (v.Accepted? ==>
                  && OkReceipt(id, context, v.result) == ReceiptFor(policy, context, id, r)
                  && v.result.metrics == MetricsFor(policy, r) && v.result.warnings == WarningsFor(policy, id, r)
                  && BlockersFor(policy, id, r) == [])
  {
    var v := Judge(policy, id, r);
    if v.Accepted? { assert Codes(v.result.warnings) == Map((w: Issue) => w.code, r.result.warnings); }
  }

  lemma ToldStep(policy: Policy, context: Context, answers: Answers, id: Text, ids: seq<Text>, e: Effects, more: Effects)
    requires Told(policy, context, answers, ids, more)
    requires var r := answers(id, context);
             && e.receipts == [ReceiptFor(policy, context, id, r)] + more.receipts
             && e.metrics == MetricsFor(policy, r) + more.metrics
             && e.warnings == WarningsFor(policy, id, r) + more.warnings
             && e.blockers == BlockersFor(policy, id, r) + more.blockers
    ensures Told(policy, context, answers, [id] + ids, e)
  {
    assert ([id] + ids)[1..] == ids;
  }

  lemma {:induction false} RunTells(hooks: seq<Hook>, policy: Policy, context: Context, answers: Answers, disabled: set<Text>)
    requires Run(hooks, policy, context, answers, disabled).Ok?
    ensures var e := Run(hooks, policy, context, answers, disabled).value; Told(policy, context, answers, Callees(e.receipts), e)
  {
    if hooks != [] {
      var h := hooks[0];
      if !Called(h, context, disabled) {
        RunTells(hooks[1..], policy, context, answers, disabled);
      } else {
        var r := answers(h.id, context);
        var v := Judge(policy, h.id, r);
        if v.Failed? && policy.mode.FailFast? {
          StopTells(hooks, policy, context, answers, disabled);
        } else {
          var after := if v.Failed? && policy.mode.DisableHook? then disabled + {h.id} else disabled;
          RunTells(hooks[1..], policy, context, answers, after);
          CallTells(hooks, policy, context, answers, disabled, after);
        }
      }
    }
  }

  lemma StopTells(hooks: seq<Hook>, policy: Policy, context: Context, answers: Answers, disabled: set<Text>)
    requires hooks != [] && Called(hooks[0], context, disabled) && policy.mode.FailFast?
    requires Judge(policy, hooks[0].id, answers(hooks[0].id, context)).Failed?
    ensures Run(hooks, policy, context, answers, disabled).Ok?
    ensures var e := Run(hooks, policy, context, answers, disabled).value; Told(policy, context, answers, Callees(e.receipts), e)
  {
    var id, e := hooks[0].id, Run(hooks, policy, context, answers, disabled).value;
    OneCall(policy, context, id, answers(id, context));
    ToldStep(policy, context, answers, id, [], e, Effects([], [], [], [], disabled));
    assert Callees(e.receipts) == [id] + [];
  }

  lemma CallTells(hooks: seq<Hook>, policy: Policy, context: Context, answers: Answers, disabled: set<Text>, after: set<Text>)
    requires hooks != [] && Called(hooks[0], context, disabled) && Run(hooks, policy, context, answers, disabled).Ok?
    requires var v := Judge(policy, hooks[0].id, answers(hooks[0].id, context));
             && !(v.Failed? && policy.mode.FailFast?)
             && after == if v.Failed? && policy.mode.DisableHook? then disabled + {hooks[0].id} else disabled
    requires Run(hooks[1..], policy, context, answers, after).Ok?
    requires var more := Run(hooks[1..], policy, context, answers, after).value;
             Told(policy, context, answers, Callees(more.receipts), more)
    ensures var e := Run(hooks, policy, context, answers, disabled).value; Told(policy, context, answers, Callees(e.receipts), e)
  {
    var id, e := hooks[0].id, Run(hooks, policy, context, answers, disabled).value;
    var more := Run(hooks[1..], policy, context, answers, after).value;
    OneCall(policy, context, id, answers(id, context));
    ToldStep(policy, context, answers, id, Callees(more.receipts), e, more);
    assert Callees(e.receipts) == [id] + Callees(more.receipts);
  }

  /** The report of every completed dispatch is what its calls leave, in the order called, and
      its status fits. */
  lemma DispatchTells(hooks: seq<Hook>, policy: Policy, context: Context, answers: Answers, disabled: set<Text>)
    requires Dispatch(hooks, policy, context, answers, disabled).Ok?
    ensures var r := Dispatch(hooks, policy, context, answers, disabled).value;
            && Told(policy, context, answers, Map((q: Receipt) => q.hookId, r.receipts),
                    Effects(r.receipts, r.metrics, r.warnings, r.blockers, r.disabled))
            && r.status == (if r.blockers != [] then Fail else if r.warnings != [] then Warn else Pass)
  {
    RunTells(Sort(HookLt, hooks), policy, context, answers, disabled);
    var r := Dispatch(hooks, policy, context, answers, disabled).value;
    assert Callees(r.receipts) == Map((q: Receipt) => q.hookId, r.receipts);
  }
}
