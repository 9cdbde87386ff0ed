/** Lifecycle hooks: dispatch in a deterministic order with failure modes, and a growing set of
    disabled hooks threaded through a run's events. */
module Hooks {
  import opened Basics
  import opened Ordering

  datatype Event = LoopStart | BatchReceived | StepStart | StepEnd | Checkpoint | LoopEnd | Failure

  datatype Status = Pass | Warn | Fail

  datatype FailureMode = FailFast | WarnAndContinue | DisableHook

  datatype Metric = Metric(name: string, value: real)

  type Details = map<string, Text>

  datatype Issue = Issue(code: string, message: string, details: Details)

  datatype Policy = Policy(mode: FailureMode, allowMetrics: bool)

  datatype Context = Context(runId: Text, event: Event, sequence: nat, step: nat, metrics: seq<Metric>, metadata: Details)

  datatype HookResult = HookResult(status: Status, metrics: seq<Metric>, warnings: seq<Issue>, metadata: Details) {
    /** What the constructor of a result insists on. */
    predicate Valid() { status.Warn? ==> warnings != [] }
  }

  /** What calling on_event comes to. */
  datatype Response = Raised(exception: Text) | Foreign(typeName: Text) | Returned(result: HookResult)

  datatype Hook = Hook(id: Text, priority: int, events: seq<Event>)

  /** The answers of all hooks to all contexts; each hook is called at most once a context. */
  type Answers = (Text, Context) -> Response

  datatype Receipt = Receipt(hookId: Text, event: Event, sequence: nat, status: Status, metricsEmitted: nat,
                             warningCodes: seq<string>, disabledAfterFailure: bool, failureCode: Option<string>, metadata: Details)

  datatype DispatchResult = DispatchResult(
    status: Status, receipts: seq<Receipt>, metrics: seq<Metric>, warnings: seq<Issue>, blockers: seq<Issue>, disabled: set<Text>)

  datatype HookError = HookInvalid | DuplicateHook | ReceiptInvalid | ResultInvalid

  const MESSAGE := "hook dispatch failure"
  const FAILED := "learning_hook_failed"
  const FOREIGN := "learning_hook_result_invalid"
  const VIOLATION := "learning_hook_metric_policy_violation"
  const CONTINUED := "learning_hook_failed_continue"
  const DISABLED := "learning_hook_disabled"

  function Ids(hooks: seq<Hook>): seq<Text> { Map((h: Hook) => h.id, hooks) }

  function Codes(issues: seq<Issue>): seq<string> { Map((i: Issue) => i.code, issues) }

  predicate WellFormed(h: Hook) { h.id != [] && Distinct(h.events) }

  predicate AllWellFormed(hooks: seq<Hook>) { forall h | h in hooks :: WellFormed(h) }

  predicate HookLt(a: Hook, b: Hook) {
    a.priority < b.priority || (a.priority == b.priority && TextLt(a.id, b.id))
  }

  // ---- one hook ----

  datatype Verdict = Accepted(result: HookResult) | Failed(code: string, details: Details, kept: seq<Issue>)

  function Judge(policy: Policy, id: Text, r: Response): Verdict {
    match r
    case Raised(exception) => Failed(FAILED, map["hook_id" := id, "exception_type" := exception], [])
    case Foreign(typeName) => Failed(FOREIGN, map["hook_id" := id, "returned_type" := typeName], [])
    case Returned(result) =>
      if result.status.Fail? then Failed(FAILED, map["hook_id" := id] + result.metadata, result.warnings)
      else if result.metrics != [] && !policy.allowMetrics then Failed(VIOLATION, map["hook_id" := id], [])
      else Accepted(result)
  }

  function FailureWarnings(policy: Policy, v: Verdict): seq<Issue>
    requires v.Failed?
  {
    v.kept
    + [Issue(if v.code == FAILED then CONTINUED else v.code, MESSAGE, v.details)]
    + if policy.mode.DisableHook? then [Issue(DISABLED, MESSAGE, v.details)] else []
  }

  function FailReceipt(policy: Policy, id: Text, context: Context, v: Verdict): Receipt
    requires v.Failed?
  {
    Receipt(id, context.event, context.sequence, Fail, 0, [], policy.mode.DisableHook?, Some(v.code), v.details)
  }

  function OkReceipt(id: Text, context: Context, r: HookResult): Receipt {
    Receipt(id, context.event, context.sequence, r.status, |r.metrics|, Codes(r.warnings), false, None, map[])
  }

  // ---- the fold over hooks in dispatch order ----

  datatype Effects = Effects(receipts: seq<Receipt>, metrics: seq<Metric>, warnings: seq<Issue>, blockers: seq<Issue>, disabled: set<Text>)

  function Then(a: Effects, more: Result<Effects, HookError>): Result<Effects, HookError> {
    match more
    case Err(e) => Err(e)
    case Ok(b) => Ok(Effects(a.receipts + b.receipts, a.metrics + b.metrics, a.warnings + b.warnings, a.blockers + b.blockers, b.disabled))
  }

  predicate Called(h: Hook, context: Context, disabled: set<Text>) { h.id !in disabled && context.event in h.events }

  function Run(hooks: seq<Hook>, policy: Policy, context: Context, answers: Answers, disabled: set<Text>): Result<Effects, HookError>
  {
    if hooks == [] then Ok(Effects([], [], [], [], disabled))
    else
      var h := hooks[0];
      if !Called(h, context, disabled) then Run(hooks[1..], policy, context, answers, disabled)
      else
        match Judge(policy, h.id, answers(h.id, context))
        case Accepted(r) =>
          if !Distinct(Codes(r.warnings)) then Err(ReceiptInvalid)
          else Then(Effects([OkReceipt(h.id, context, r)], r.metrics, r.warnings, [], disabled),
                    Run(hooks[1..], policy, context, answers, disabled))
        case Failed(code, details, kept) =>
          var v := Failed(code, details, kept);
          var receipt := FailReceipt(policy, h.id, context, v);
          if policy.mode.FailFast? then Ok(Effects([receipt], [], kept, [Issue(code, MESSAGE, details)], disabled))
          else
            var after := if policy.mode.DisableHook? then disabled + {h.id} else disabled;
            Then(Effects([receipt], [], FailureWarnings(policy, v), [], after),
                 Run(hooks[1..], policy, context, answers, after))
  }

  /** The constructor of a dispatch result. */
  function MakeResult(e: Effects): Result<DispatchResult, HookError> {
    var status := if e.blockers != [] then Fail else if e.warnings != [] then Warn else Pass;
    if || (status.Fail? && e.blockers == [])
       || (status.Pass? && (e.blockers != [] || e.warnings != []))
       || (status.Warn? && (e.warnings == [] || e.blockers != []))
       || [] in e.disabled
    then Err(ResultInvalid)
    else Ok(DispatchResult(status, e.receipts, e.metrics, e.warnings, e.blockers, e.disabled))
  }

  /** dispatch_hooks as a function. */
  function Dispatch(hooks: seq<Hook>, policy: Policy, context: Context, answers: Answers, disabled: set<Text>): Result<DispatchResult, HookError>
  {
    if !AllWellFormed(hooks) then Err(HookInvalid)
    else
      var ordered := Sort(HookLt, hooks);
      if !Distinct(Ids(ordered)) then Err(DuplicateHook)
      else
        match Run(ordered, policy, context, answers, disabled)
        case Err(e) => Err(e)
        case Ok(e) => MakeResult(e)
  }

  lemma ThenAssociates(a: Effects, b: Effects, more: Result<Effects, HookError>)
    ensures Then(a, Then(b, more)) ==
            Then(Effects(a.receipts + b.receipts, a.metrics + b.metrics, a.warnings + b.warnings, a.blockers + b.blockers, b.disabled), more)
  {
    if more.Ok? {
      var c := more.value;
      assert a.receipts + (b.receipts + c.receipts) == (a.receipts + b.receipts) + c.receipts;
      assert a.metrics + (b.metrics + c.metrics) == (a.metrics + b.metrics) + c.metrics;
      assert a.warnings + (b.warnings + c.warnings) == (a.warnings + b.warnings) + c.warnings;
      assert a.blockers + (b.blockers + c.blockers) == (a.blockers + b.blockers) + c.blockers;
    }
  }

  lemma ThenNothing(disabled: set<Text>, more: Result<Effects, HookError>)
    ensures Then(Effects([], [], [], [], disabled), more) == more
  {
    if more.Ok? {
      var b := more.value;
      assert [] + b.receipts == b.receipts && [] + b.metrics == b.metrics && [] + b.warnings == b.warnings && [] + b.blockers == b.blockers;
    }
  }

  /** dispatch_hooks: one loop appending to four lists and updating the disabled set. */
  method DispatchHooks(hooks: seq<Hook>, policy: Policy, context: Context, answers: Answers, disabledIds: set<Text>)
    returns (r: Result<DispatchResult, HookError>)
    ensures r == Dispatch(hooks, policy, context, answers, disabledIds)
  {
    for i := 0 to |hooks|
      invariant forall j | 0 <= j < i :: WellFormed(hooks[j])
    {
      if !WellFormed(hooks[i]) {
        assert hooks[i] in hooks;
        return Err(HookInvalid);
      }
    }
    var disabled := disabledIds;
    var ordered := Sort(HookLt, hooks);
    if !Distinct(Ids(ordered)) {
      return Err(DuplicateHook);
    }
    var receipts, metrics, warnings, blockers := [], [], [], [];
    ghost var whole := Run(ordered, policy, context, answers, disabledIds);
    assert ordered[0..] == ordered;
    ThenNothing(disabled, whole);
    for i := 0 to |ordered|
      invariant blockers == []
      invariant whole == Then(Effects(receipts, metrics, warnings, blockers, disabled), Run(ordered[i..], policy, context, answers, disabled))
    {
      var hook := ordered[i];
      assert ordered[i..][0] == hook && ordered[i..][1..] == ordered[i + 1..];
      if hook.id in disabled || context.event !in hook.events {
        continue;
      }
      assert metrics + [] == metrics && blockers + [] == blockers;
      ghost var before := Effects(receipts, metrics, warnings, blockers, disabled);
      var v := Judge(policy, hook.id, answers(hook.id, context));
      if v.Failed? {
        var disable := policy.mode.DisableHook?;
        receipts := receipts + [FailReceipt(policy, hook.id, context, v)];
        if policy.mode.FailFast? {
          warnings := warnings + v.kept;
          blockers := blockers + [Issue(v.code, MESSAGE, v.details)];
          assert whole == Ok(Effects(receipts, metrics, warnings, blockers, disabled));
          break;
        }
        warnings := warnings + FailureWarnings(policy, v);
        disabled := if disable then disabled + {hook.id} else disabled;
        ThenAssociates(before, Effects([FailReceipt(policy, hook.id, context, v)], [], FailureWarnings(policy, v), [], disabled),
                       Run(ordered[i + 1..], policy, context, answers, disabled));
      } else {
        if !Distinct(Codes(v.result.warnings)) {
          return Err(ReceiptInvalid);
        }
        receipts := receipts + [OkReceipt(hook.id, context, v.result)];
        metrics := metrics + v.result.metrics;
        warnings := warnings + v.result.warnings;
        ThenAssociates(before, Effects([OkReceipt(hook.id, context, v.result)], v.result.metrics, v.result.warnings, [], disabled),
                       Run(ordered[i + 1..], policy, context, answers, disabled));
      }
    }
    if blockers == [] {
      assert ordered[|ordered|..] == [];
      assert receipts + [] == receipts && metrics + [] == metrics && warnings + [] == warnings && blockers + [] == blockers;
    }
    assert whole == Ok(Effects(receipts, metrics, warnings, blockers, disabled));
    r := MakeResult(Effects(receipts, metrics, warnings, blockers, disabled));
  }
}
