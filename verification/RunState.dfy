/** Source progress of an interrupted run: the schedule, the completed-prefix ledger and
    the step counters. */
module RunState {
  import opened Basics
  import opened Ordering

  /** The completed ledger: a tuple of identities, or the O(1) view _CompletedPrefix. */
  datatype Ledger = Listed(items: seq<string>) | Prefix(schedule: seq<string>, length: nat)

  /** tuple(ledger); islice stops at the end of the schedule. */
  function Items(l: Ledger): seq<string> {
    match l
    case Listed(items) => items
    case Prefix(schedule, n) => if n <= |schedule| then schedule[..n] else schedule
  }

  /** len(ledger) */
  function Len(l: Ledger): nat {
    match l case Listed(items) => |items| case Prefix(_, n) => n
  }

  /** ledger[index] for an integer index; None where IndexError is raised. */
  function At(l: Ledger, index: int): Option<string> {
    var n := Len(l);
    var i := if index < 0 then index + n else index;
    match l
    case Listed(items) => if 0 <= i < n then Some(items[i]) else None
    case Prefix(schedule, _) => if 0 <= i < n && i < |schedule| then Some(schedule[i]) else None
  }

  /** The view cannot be told from the tuple it stands for. */
  lemma PrefixIsTuple(schedule: seq<string>, n: nat, index: int)
    requires n <= |schedule|
    ensures Len(Prefix(schedule, n)) == Len(Listed(schedule[..n]))
    ensures Items(Prefix(schedule, n)) == Items(Listed(schedule[..n]))
    ensures At(Prefix(schedule, n), index) == At(Listed(schedule[..n]), index)
  {
  }

  const SCHEMA: string := "behavior_run_state.v1"

  datatype State = State(
    runId: string, passId: string, epoch: int, next: int, total: int, batchSize: int, interval: int,
    optimizerStep: int, globalStep: int, retryCount: int, authority: map<string, string>,
    scheduled: seq<string>, completed: Ledger, carryPolicy: string, finalPolicy: string, schema: string)

  /** __post_init__ raises exactly when this is false. */
  predicate Valid(s: State) {
    && s.schema == SCHEMA && s.runId != "" && s.passId != ""
    && s.epoch >= 0 && s.next >= 0 && s.total >= 0
    && s.batchSize == 1 && s.interval > 0
    && s.optimizerStep >= 0 && s.globalStep >= 0 && s.retryCount >= 0
    && s.authority != map[] && (forall k | k in s.authority :: k != "" && s.authority[k] != "")
    && (s.completed.Prefix? ==> s.completed.schedule == s.scheduled)
    && |s.scheduled| == s.total
    && s.next == Len(s.completed) && s.next <= s.total
    && (forall v | v in s.scheduled :: v != "") && (forall v | v in Items(s.completed) :: v != "")
    && (s.completed.Listed? ==> s.scheduled[..Len(s.completed)] == s.completed.items)
  }

  /** Whichever representation it holds, an accepted ledger is the schedule prefix of length next. */
  lemma LedgerIsPrefix(s: State)
    requires Valid(s)
    ensures 0 <= s.next <= |s.scheduled| && Items(s.completed) == s.scheduled[..s.next]
  {
  }

  // ---- identity and serialization ----

  /** The payload hashed into the run identity; the digest is modelled as injective. */
  datatype Identity = Identity(
    runId: string, passId: string, total: int, batchSize: int, interval: int, authority: map<string, string>,
    scheduled: seq<string>, carryPolicy: string, finalPolicy: string, schema: string)

  function IdentityOf(s: State): Identity {
    Identity(s.runId, s.passId, s.total, s.batchSize, s.interval, s.authority, s.scheduled,
             s.carryPolicy, s.finalPolicy, s.schema)
  }

  /** Two states belong to the same run exactly when they agree on all but their progress. */
  lemma SameRun(a: State, b: State)
    ensures IdentityOf(a) == IdentityOf(b) <==>
            && a.runId == b.runId && a.passId == b.passId && a.schema == b.schema
            && a.total == b.total && a.batchSize == b.batchSize && a.interval == b.interval
            && a.authority == b.authority && a.scheduled == b.scheduled
            && a.carryPolicy == b.carryPolicy && a.finalPolicy == b.finalPolicy
  {
  }

  /** The states accepted: of this schema, with nonempty names and authority, counters that are
      not negative, batches of one, and the first `next` items of the schedule as the ledger. */
  lemma AcceptedStates(s: State)
    ensures Valid(s) <==>
            && s.schema == "behavior_run_state.v1" && s.runId != "" && s.passId != ""
            && s.epoch >= 0 && s.optimizerStep >= 0 && s.globalStep >= 0 && s.retryCount >= 0
            && s.batchSize == 1 && s.interval >= 1
            && s.authority != map[] && (forall k | k in s.authority :: k != "" && s.authority[k] != "")
            && s.total == |s.scheduled| && (forall i | 0 <= i < |s.scheduled| :: s.scheduled[i] != "")
            && 0 <= s.next <= |s.scheduled| && Items(s.completed) == s.scheduled[..s.next]
            && (s.completed.Prefix? ==> s.completed == Prefix(s.scheduled, s.next))
  {
    if forall v | v in s.scheduled :: v != "" { LedgerAccepted(s); }
    NamesNonempty(s.scheduled);
  }

  lemma NamesNonempty(names: seq<string>)
    ensures (forall v | v in names :: v != "") <==> forall i | 0 <= i < |names| :: names[i] != ""
  {
    assert forall i | 0 <= i < |names| :: names[i] in names;
    if forall i | 0 <= i < |names| :: names[i] != "" {
      forall v | v in names ensures v != "" { var i :| 0 <= i < |names| && names[i] == v; }
    }
  }

  /** The ledger's own checks come to being that prefix of the schedule. */
  lemma LedgerAccepted(s: State)
    requires forall v | v in s.scheduled :: v != ""
    ensures && (s.completed.Prefix? ==> s.completed.schedule == s.scheduled)
            && 0 <= s.next == Len(s.completed) <= |s.scheduled| && (forall v | v in Items(s.completed) :: v != "")
            && (s.completed.Listed? ==> s.scheduled[..Len(s.completed)] == s.completed.items)
            <==>
            && 0 <= s.next <= |s.scheduled| && Items(s.completed) == s.scheduled[..s.next]
            && (s.completed.Prefix? ==> s.completed == Prefix(s.scheduled, s.next))
  {
    if 0 <= s.next <= |s.scheduled| { assert forall v | v in s.scheduled[..s.next] :: v in s.scheduled; }
  }

  datatype Field =
    | SchemaVersion | RunId | PassId | Epoch | NextItemIndex | TotalItems | SourceBatchSize | CheckpointIntervalSteps
    | OptimizerStep | GlobalStep | RetryCount | Authority | Scheduled | Completed | CarryPolicyId | FinalPolicyId
    | Unknown(name: string)

  /** A JSON value. An object has what its keys hold, and the order they stand in. */
  datatype Json = Str(text: string) | Num(number: int) | List(items: seq<string>) | Obj(entries: map<string, string>, keys: seq<string>)

  /** A JSON object for a run state. identity is the field of that name, a digest being what it
      hashes; it is None where the field is missing or is no such digest. */
  datatype Payload = Payload(fields: map<Field, Json>, identity: Option<Identity>)

  /** Python's ==, for which the order of keys does not matter. */
  predicate Equal(a: Json, b: Json) { if a.Obj? && b.Obj? then a.entries == b.entries else a == b }

  predicate SamePayload(p: Payload, q: Payload) {
    p.identity == q.identity && p.fields.Keys == q.fields.Keys && forall f | f in p.fields :: Equal(p.fields[f], q.fields[f])
  }

  const REQUIRED: set<Field> := {
    SchemaVersion, RunId, PassId, Epoch, NextItemIndex, TotalItems, SourceBatchSize, CheckpointIntervalSteps,
    OptimizerStep, GlobalStep, RetryCount, Authority, Scheduled, Completed, CarryPolicyId, FinalPolicyId
  }

  /** What to_dict writes into a field: the authority by ascending key, the ledger as a list. */
  ghost function Written(s: State, f: Field): Json
    requires f in REQUIRED
  {
    match f
    case SchemaVersion => Str(s.schema)
    case RunId => Str(s.runId)
    case PassId => Str(s.passId)
    case Epoch => Num(s.epoch)
    case NextItemIndex => Num(s.next)
    case TotalItems => Num(s.total)
    case SourceBatchSize => Num(s.batchSize)
    case CheckpointIntervalSteps => Num(s.interval)
    case OptimizerStep => Num(s.optimizerStep)
    case GlobalStep => Num(s.globalStep)
    case RetryCount => Num(s.retryCount)
    case Authority => Obj(s.authority, SortedKeys(s.authority.Keys))
    case Scheduled => List(s.scheduled)
    case Completed => List(Items(s.completed))
    case CarryPolicyId => Str(s.carryPolicy)
    case FinalPolicyId => Str(s.finalPolicy)
    case _ => assert false; Num(0)
  }

  ghost function SortedKeys(keys: set<string>): seq<string> {
    StringOrder();
    Ascending(StringLt, keys)
  }

  ghost function ToDict(s: State): Payload {
    Payload(map f | f in REQUIRED :: Written(s, f), Some(IdentityOf(s)))
  }

  function Text(p: Payload, f: Field): string { if f in p.fields && p.fields[f].Str? then p.fields[f].text else "" }

  function Number(p: Payload, f: Field): int { if f in p.fields && p.fields[f].Num? then p.fields[f].number else 0 }

  /** tuple(value): the items of a list, the characters of a text, the keys of an object. */
  function Tuple(j: Json): seq<string> {
    match j
    case List(items) => items
    case Str(text) => Map((c: char) => [c], text)
    case Obj(_, keys) => keys
    case Num(_) => []
  }

  function Texts(p: Payload, f: Field): seq<string> { if f in p.fields then Tuple(p.fields[f]) else [] }

  /** What each field must be for the constructor to get to its checks: a number is no tuple. */
  predicate ShapedAt(f: Field, j: Json) {
    match f
    case SchemaVersion | RunId | PassId | CarryPolicyId | FinalPolicyId => j.Str?
    case Authority => j.Obj?
    case Scheduled | Completed => !j.Num?
    case _ => j.Num?
  }

  predicate Shaped(p: Payload) { forall f | f in REQUIRED :: f in p.fields && ShapedAt(f, p.fields[f]) }

  function Decoded(p: Payload): State {
    State(Text(p, RunId), Text(p, PassId), Number(p, Epoch), Number(p, NextItemIndex), Number(p, TotalItems),
          Number(p, SourceBatchSize), Number(p, CheckpointIntervalSteps), Number(p, OptimizerStep), Number(p, GlobalStep),
          Number(p, RetryCount), if Authority in p.fields && p.fields[Authority].Obj? then p.fields[Authority].entries else map[],
          Texts(p, Scheduled), Listed(Texts(p, Completed)), Text(p, CarryPolicyId), Text(p, FinalPolicyId), Text(p, SchemaVersion))
  }

  /** from_dict: no field missing or unknown, an accepted state, and the identity it claims. */
  function FromDict(p: Payload): Option<State> {
    if p.fields.Keys != REQUIRED || !Shaped(p) then None
    else
      var s := Decoded(p);
      if Valid(s) && p.identity == Some(IdentityOf(s)) then Some(s) else None
  }

  /** Equality of run states: ledgers compare by their items. */
  predicate Same(a: State, b: State) {
    Items(a.completed) == Items(b.completed) && a.(completed := b.completed) == b
  }

  lemma WrittenShaped(s: State)
    ensures Shaped(ToDict(s)) && ToDict(s).fields.Keys == REQUIRED
  {
    forall f | f in REQUIRED ensures f in ToDict(s).fields && ShapedAt(f, ToDict(s).fields[f]) {
      WrittenShapedAt(s, f);
    }
  }

  lemma WrittenShapedAt(s: State, f: Field)
    requires f in REQUIRED
    ensures ShapedAt(f, Written(s, f))
  {
  }

  lemma ReadsWritten(s: State, f: Field)
    requires f in REQUIRED
    ensures Written(s, f).Str? ==> Text(ToDict(s), f) == Written(s, f).text
    ensures Written(s, f).Num? ==> Number(ToDict(s), f) == Written(s, f).number
    ensures Written(s, f).List? ==> Texts(ToDict(s), f) == Written(s, f).items
    ensures f in ToDict(s).fields && ToDict(s).fields[f] == Written(s, f)
  {
  }

  lemma DecodesWritten(s: State)
    ensures Decoded(ToDict(s)) == s.(completed := Listed(Items(s.completed)))
  {
    DecodesNames(s);
    DecodesPolicies(s);
    DecodesPosition(s);
    DecodesCounters(s);
    FieldByField(s, ToDict(s));
  }

  lemma DecodesNames(s: State)
    ensures var p := ToDict(s);
            && Text(p, SchemaVersion) == s.schema && Text(p, RunId) == s.runId && Text(p, PassId) == s.passId
            && Texts(p, Scheduled) == s.scheduled && Texts(p, Completed) == Items(s.completed)
  {
    ReadsWritten(s, SchemaVersion);
    ReadsWritten(s, RunId);
    ReadsWritten(s, PassId);
    ReadsWritten(s, Scheduled);
    ReadsWritten(s, Completed);
  }

  lemma DecodesPolicies(s: State)
    ensures var p := ToDict(s);
            && Text(p, CarryPolicyId) == s.carryPolicy && Text(p, FinalPolicyId) == s.finalPolicy
            && Authority in p.fields && p.fields[Authority].Obj? && p.fields[Authority].entries == s.authority
  {
    ReadsWritten(s, CarryPolicyId);
    ReadsWritten(s, FinalPolicyId);
    ReadsWritten(s, Authority);
  }

  lemma DecodesPosition(s: State)
    ensures var p := ToDict(s);
            && Number(p, Epoch) == s.epoch && Number(p, NextItemIndex) == s.next && Number(p, TotalItems) == s.total
            && Number(p, SourceBatchSize) == s.batchSize && Number(p, CheckpointIntervalSteps) == s.interval
  {
    ReadsWritten(s, Epoch);
    ReadsWritten(s, NextItemIndex);
    ReadsWritten(s, TotalItems);
    ReadsWritten(s, SourceBatchSize);
    ReadsWritten(s, CheckpointIntervalSteps);
  }

  lemma DecodesCounters(s: State)
    ensures var p := ToDict(s);
            && Number(p, OptimizerStep) == s.optimizerStep && Number(p, GlobalStep) == s.globalStep
            && Number(p, RetryCount) == s.retryCount
  {
    ReadsWritten(s, OptimizerStep);
    ReadsWritten(s, GlobalStep);
    ReadsWritten(s, RetryCount);
  }

  lemma FieldByField(s: State, p: Payload)
    requires Text(p, SchemaVersion) == s.schema && Text(p, RunId) == s.runId && Text(p, PassId) == s.passId
    requires Text(p, CarryPolicyId) == s.carryPolicy && Text(p, FinalPolicyId) == s.finalPolicy
    requires Texts(p, Scheduled) == s.scheduled && Texts(p, Completed) == Items(s.completed)
    requires Authority in p.fields && p.fields[Authority].Obj? && p.fields[Authority].entries == s.authority
    requires Number(p, Epoch) == s.epoch && Number(p, NextItemIndex) == s.next && Number(p, TotalItems) == s.total
    requires Number(p, SourceBatchSize) == s.batchSize && Number(p, CheckpointIntervalSteps) == s.interval
    requires Number(p, OptimizerStep) == s.optimizerStep && Number(p, GlobalStep) == s.globalStep
    requires Number(p, RetryCount) == s.retryCount
    ensures Decoded(p) == s.(completed := Listed(Items(s.completed)))
  {
  }

  lemma Loads(p: Payload, s: State)
    requires p.fields.Keys == REQUIRED && Shaped(p) && Decoded(p) == s && Valid(s) && p.identity == Some(IdentityOf(s))
    ensures FromDict(p) == Some(s)
  {
  }

  lemma ListedValid(s: State)
    requires Valid(s)
    ensures var r := s.(completed := Listed(Items(s.completed)));
            Valid(r) && IdentityOf(r) == IdentityOf(s) && Same(r, s)
  {
    LedgerIsPrefix(s);
    assert forall v | v in Items(s.completed) :: v in s.scheduled;
  }

  /** A stored and reloaded state equals the one saved. */
  lemma Reloads(s: State)
    requires Valid(s)
    ensures FromDict(ToDict(s)).Some? && Same(FromDict(ToDict(s)).value, s)
  {
    WrittenShaped(s);
    DecodesWritten(s);
    ListedValid(s);
    Loads(ToDict(s), s.(completed := Listed(Items(s.completed))));
  }

  /** A payload that loads is what the loaded state would store if and only if the schedule
      and the ledger are lists in it: a text there is split, an object gives its keys. */
  lemma StoredBackIffLists(p: Payload)
    requires FromDict(p).Some?
    ensures Scheduled in p.fields && Completed in p.fields
    ensures SamePayload(ToDict(FromDict(p).value), p) <==> p.fields[Scheduled].List? && p.fields[Completed].List?
  {
    Loaded(p);
    StoredBackFrom(p);
  }

  lemma Loaded(p: Payload)
    requires FromDict(p).Some?
    ensures p.fields.Keys == REQUIRED && Shaped(p) && FromDict(p).value == Decoded(p) && p.identity == Some(IdentityOf(Decoded(p)))
  {
  }

  lemma StoredBackFrom(p: Payload)
    requires p.fields.Keys == REQUIRED && Shaped(p) && p.identity == Some(IdentityOf(Decoded(p)))
    ensures Scheduled in p.fields && Completed in p.fields
    ensures SamePayload(ToDict(Decoded(p)), p) <==> p.fields[Scheduled].List? && p.fields[Completed].List?
  {
    var q := ToDict(Decoded(p));
    assert Scheduled in REQUIRED && Completed in REQUIRED;
    forall f | f in REQUIRED ensures f in q.fields && (Equal(q.fields[f], p.fields[f]) <==> !Splits(f) || p.fields[f].List?) {
      assert ShapedAt(f, p.fields[f]);
      WritesLoaded(p, f);
    }
    SameIffLists(q, p);
  }

  lemma SameIffLists(q: Payload, p: Payload)
    requires p.fields.Keys == q.fields.Keys == REQUIRED && q.identity == p.identity
    requires forall f | f in REQUIRED :: Equal(q.fields[f], p.fields[f]) <==> !Splits(f) || p.fields[f].List?
    ensures Scheduled in p.fields && Completed in p.fields
    ensures SamePayload(q, p) <==> p.fields[Scheduled].List? && p.fields[Completed].List?
  {
    assert Scheduled in REQUIRED && Completed in REQUIRED;
  }

  /** The fields read with tuple(...). */
  predicate Splits(f: Field) { f.Scheduled? || f.Completed? }

  lemma WritesLoaded(p: Payload, f: Field)
    requires f in REQUIRED && f in p.fields && ShapedAt(f, p.fields[f])
    ensures Equal(Written(Decoded(p), f), p.fields[f]) <==> !Splits(f) || p.fields[f].List?
  {
  }

  /** The fields of p as tuple(...) and the constructor see them. */
  predicate Alike(p: Payload, q: Payload, f: Field) {
    && f in p.fields && f in q.fields
    && if Splits(f) then !p.fields[f].Num? && Tuple(p.fields[f]) == Tuple(q.fields[f]) else p.fields[f] == q.fields[f]
  }

  /** Loading sees only the items: whatever gives the same tuples loads as the same run. */
  lemma LoadsAlike(s: State, p: Payload)
    requires Valid(s) && p.identity == Some(IdentityOf(s)) && p.fields.Keys == REQUIRED
    requires forall f | f in REQUIRED :: Alike(p, ToDict(s), f)
    ensures FromDict(p) == Some(s.(completed := Listed(Items(s.completed))))
  {
    WrittenShaped(s);
    DecodesWritten(s);
    DecodedAlike(p, ToDict(s));
    ListedValid(s);
    forall f | f in REQUIRED ensures ShapedAt(f, p.fields[f]) { assert Alike(p, ToDict(s), f); }
    Loads(p, s.(completed := Listed(Items(s.completed))));
  }

  lemma DecodedAlike(p: Payload, q: Payload)
    requires forall f | f in REQUIRED :: Alike(p, q, f)
    ensures Decoded(p) == Decoded(q)
  {
    forall f | f in REQUIRED && !Splits(f) ensures Text(p, f) == Text(q, f) && Number(p, f) == Number(q, f) { assert Alike(p, q, f); }
    assert Alike(p, q, Scheduled) && Alike(p, q, Completed) && Alike(p, q, Authority);
  }

  /** What s stores, with other values for the schedule and the ledger. */
  ghost function Restated(s: State, schedule: Json, ledger: Json): Payload {
    Payload(ToDict(s).fields[Scheduled := schedule][Completed := ledger], Some(IdentityOf(s)))
  }

  lemma RestatedLoads(s: State, schedule: Json, ledger: Json)
    requires Valid(s) && !schedule.Num? && !ledger.Num?
    requires Tuple(schedule) == s.scheduled && Tuple(ledger) == Items(s.completed)
    ensures FromDict(Restated(s, schedule, ledger)) == Some(s.(completed := Listed(Items(s.completed))))
  {
    forall f | f in REQUIRED ensures Alike(Restated(s, schedule, ledger), ToDict(s), f) { RestatedAt(s, schedule, ledger, f); }
    RestatedKeys(s, schedule, ledger);
    LoadsAlike(s, Restated(s, schedule, ledger));
  }

  lemma RestatedKeys(s: State, schedule: Json, ledger: Json)
    ensures Restated(s, schedule, ledger).fields.Keys == REQUIRED
  {
    WrittenShaped(s);
  }

  lemma RestatedAt(s: State, schedule: Json, ledger: Json, f: Field)
    requires f in REQUIRED && !schedule.Num? && !ledger.Num?
    requires Tuple(schedule) == s.scheduled && Tuple(ledger) == Items(s.completed)
    ensures Alike(Restated(s, schedule, ledger), ToDict(s), f)
  {
    ReadsWritten(s, f);
  }

  /** A run of two items that has not begun. */
  function TwoItems(): State {
    State("run", "pass", 0, 0, 2, 1, 1, 0, 0, 0, map["source" := "unit"], ["a", "b"], Listed([]), "carry", "final", SCHEMA)
  }

  lemma TwoItemsValid()
    ensures Valid(TwoItems())
  {
    assert "source" in TwoItems().authority;
  }

  /** With its schedule and ledger given as texts it loads as the same run, and is stored differently. */
  lemma TextIsSplit()
    ensures var p := Restated(TwoItems(), Str("ab"), Str(""));
            FromDict(p) == Some(TwoItems()) && !SamePayload(ToDict(TwoItems()), p)
  {
    TwoItemsValid();
    assert Tuple(Str("ab")) == ["a", "b"] && Tuple(Str("")) == [];
    RestatedLoads(TwoItems(), Str("ab"), Str(""));
    StoredBackIffLists(Restated(TwoItems(), Str("ab"), Str("")));
  }

  // ---- advance ----

  /** advance(identity, optimizer_step=..., global_step=...) with the other counters kept. */
  function Advance(s: State, identity: string, optimizerStep: int, globalStep: int): Option<State>
    requires Valid(s)
  {
    if s.next >= s.total || identity != s.scheduled[s.next] then None
    else
      var r := s.(completed := Prefix(s.scheduled, s.next + 1), next := s.next + 1,
                  optimizerStep := optimizerStep, globalStep := globalStep);
      if Valid(r) then Some(r) else None
  }

  /** The state reached from s when the counters took their defaults up to position i. */
  function StateAt(s: State, i: int): State
    requires Valid(s) && s.next <= i <= s.total
  {
    if i == s.next then s
    else s.(completed := Prefix(s.scheduled, i), next := i,
            optimizerStep := s.optimizerStep + (i - s.next), globalStep := s.globalStep + (i - s.next))
  }

  /** advance called once per scheduled item, each counter incremented by one. */
  function Fold(s: State, i: int): Option<State>
    requires Valid(s) && s.next <= i <= s.total
    ensures Fold(s, i).Some? ==> Valid(Fold(s, i).value)
    decreases i - s.next
  {
    if i == s.next then Some(s)
    else match Fold(s, i - 1)
      case None => None
      case Some(c) => Advance(c, s.scheduled[i - 1], c.optimizerStep + 1, c.globalStep + 1)
  }

  lemma StateAtValid(s: State, i: int)
    requires Valid(s) && s.next <= i <= s.total
    ensures Valid(StateAt(s, i)) && StateAt(s, i).next == i && IdentityOf(StateAt(s, i)) == IdentityOf(s)
  {
    assert forall v | v in s.scheduled[..i] :: v in s.scheduled;
  }

  lemma AdvanceFrom(s: State, i: int)
    requires Valid(s) && s.next < i <= s.total && Valid(StateAt(s, i - 1))
    ensures var c := StateAt(s, i - 1);
            Advance(c, s.scheduled[i - 1], c.optimizerStep + 1, c.globalStep + 1) == Some(StateAt(s, i))
  {
    var c, r := StateAt(s, i - 1), StateAt(s, i);
    StateAtValid(s, i);
    assert r == c.(completed := Prefix(c.scheduled, c.next + 1), next := c.next + 1,
                   optimizerStep := c.optimizerStep + 1, globalStep := c.globalStep + 1);
  }

  lemma {:induction false} FoldIsStateAt(s: State, i: int)
    requires Valid(s) && s.next <= i <= s.total
    ensures Fold(s, i) == Some(StateAt(s, i))
    decreases i - s.next
  {
    if i > s.next {
      FoldIsStateAt(s, i - 1);
      AdvanceFrom(s, i);
    }
  }

  /** Going on from an intermediate position is going on from the start. */
  lemma StateAtTwice(s: State, k: int, i: int)
    requires Valid(s) && s.next <= k <= i <= s.total
    ensures Valid(StateAt(s, k))
    ensures StateAt(StateAt(s, k), i) == StateAt(s, i)
  {
    StateAtValid(s, k);
  }
}
