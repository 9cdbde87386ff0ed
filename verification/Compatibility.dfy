/** Compatibility of an artifact's run defaults with a Student capability profile: checks that
    append findings to shared lists, and the scan of the training plan. */
module Compatibility {
  import opened Basics
  import opened Ordering

  type Name = string

  datatype Version = Numbered(number: int) | Named(name: Name)

  datatype Facts = Facts(
    contractFamily: Name, contractStatus: Name, producerStatus: Name, tomeVersion: Option<int>, coverPageVersion: Version,
    tokenizerId: Option<Name>, sequenceLength: Option<int>, vocabSize: Option<int>)

  /** target_scope's entry "kind": absent, null, or a value's text. */
  datatype ScopeEntry = Absent | Null | Kind(text: Name)

  datatype Surface = Surface(id: Name, kind: Name, schema: Name, known: bool, scope: ScopeEntry)

  datatype TrainingPass = TrainingPass(passId: Name, surfaceId: Name, checkpointAfter: bool, prerequisites: seq<Name>)

  datatype Defaults = Defaults(
    facts: Facts, surfaces: seq<Surface>, requiredCapabilities: seq<Name>, plan: seq<TrainingPass>, warnings: seq<Name>)

  datatype Profile = Profile(
    contractFamilies: seq<Name>, tomeVersions: seq<int>, coverPageVersions: seq<Version>,
    surfaceKinds: seq<Name>, surfaceSchemas: seq<(Name, Name)>, capabilities: seq<Name>, targetScopes: seq<Name>,
    maxSequenceLength: Option<int>, maxVocabSize: Option<int>, tokenizerIds: Option<seq<Name>>,
    orderedPasses: bool, checkpointBoundaries: bool, passPrerequisites: bool, producerStatuses: seq<Name>)

  datatype Dimension = SequenceLength | VocabSize

  datatype Feature = OrderedPasses | CheckpointBoundaries | PassPrerequisites

  /** One constructor per code and message; the fields are the details. */
  datatype Finding =
    | DefaultsArtifactMismatch(viewFamily: Name, defaultsFamily: Name)
    | ContractValidationFailed(status: Name)
    | ProducerValidationFailed(status: Name)
    | UnsupportedContractFamily(family: Name)
    | UnsupportedTomeVersion(tome: Option<int>)
    | UnsupportedCoverPageVersion(cover: Version)
    | MissingRequiredCapability(capability: Name)
    | DeclarationNotExecutionProof(capabilities: seq<Name>)
    | UnknownSurface(required: bool, id: Name, kind: Name)
    | UnsupportedSurfaceKind(id: Name, kind: Name, schema: Name)
    | UnsupportedSurfaceSchema(id: Name, kind: Name, schema: Name)
    | UnsupportedTargetScope(id: Name, scopeKind: Name)
    | DimensionUnevaluated(dimension: Dimension, artifactValue: Option<int>, profileLimit: Option<int>)
    | DimensionExceeds(dimension: Dimension, value: int, limit: int)
    | TokenizerBindingDeferred(tokenizer: Option<Name>)
    | UnsupportedTokenizer(tokenizer: Option<Name>)
    | UnsupportedPlanFeature(feature: Feature)
    | UnavailablePassSurface(passId: Name, surfaceId: Name)
    | PrerequisitesOutOfOrder(passId: Name, missing: seq<Name>)
    | DefaultsWarning(text: Name)
    | ArchitectureNotEvaluated
    | SpecialTokensNotEvaluated

  datatype CheckStatus = Passed | Failed | Unevaluated | NotPresent

  datatype ScopeReport = ScopeReport(surfaceId: Name, scopeKind: Name, required: bool, status: CheckStatus)

  datatype DimensionReport = DimensionReport(status: CheckStatus, value: Option<int>, limit: Option<int>)

  datatype PlanReport = PlanReport(status: CheckStatus, passCount: nat, ordered: bool, checkpoints: bool, prerequisites: bool)

  datatype Report = Report(
    pass: bool, required: seq<Name>, supported: seq<Name>, missing: seq<Name>,
    supportedSurfaces: seq<Name>, unsupportedSurfaces: seq<Name>,
    sequenceLength: DimensionReport, vocabSize: DimensionReport, scopes: seq<ScopeReport>, plan: PlanReport,
    blockers: seq<Finding>, warnings: seq<Finding>)

  /** A list of findings that the checks share and append to. */
  class Findings {
    var items: seq<Finding>

    constructor ()
      ensures items == []
    {
      items := [];
    }

    method Append(x: Finding)
      modifies this
      ensures items == old(items) + [x]
    {
      items := items + [x];
    }
  }

  lemma Appended(base: seq<Finding>, found: seq<Finding>, more: seq<Finding>)
    ensures (base + found) + more == base + (found + more)
    ensures base + [] == base
  {
  }

  function When(failing: bool, x: Finding): seq<Finding> { if failing then [x] else [] }

  // ---- identity ----

  function ValidationBlockers(view: Name, f: Facts, p: Profile): seq<Finding> {
    When(f.contractFamily != view, DefaultsArtifactMismatch(view, f.contractFamily))
    + When(f.contractStatus != "pass", ContractValidationFailed(f.contractStatus))
    + When(f.producerStatus !in p.producerStatuses, ProducerValidationFailed(f.producerStatus))
  }

  function VersionBlockers(f: Facts, p: Profile): seq<Finding> {
    When(f.contractFamily !in p.contractFamilies, UnsupportedContractFamily(f.contractFamily))
    + When(f.tomeVersion.None? || f.tomeVersion.value !in p.tomeVersions, UnsupportedTomeVersion(f.tomeVersion))
    + When(f.coverPageVersion !in p.coverPageVersions, UnsupportedCoverPageVersion(f.coverPageVersion))
  }

  function IdentityBlockers(view: Name, f: Facts, p: Profile): seq<Finding> {
    ValidationBlockers(view, f, p) + VersionBlockers(f, p)
  }

  method CheckValidation(view: Name, f: Facts, p: Profile, blockers: Findings)
    modifies blockers
    ensures blockers.items == old(blockers.items) + ValidationBlockers(view, f, p)
  {
    if f.contractFamily != view {
      blockers.Append(DefaultsArtifactMismatch(view, f.contractFamily));
    }
    if f.contractStatus != "pass" {
      blockers.Append(ContractValidationFailed(f.contractStatus));
    }
    if f.producerStatus !in p.producerStatuses {
      blockers.Append(ProducerValidationFailed(f.producerStatus));
    }
  }

  method CheckVersions(f: Facts, p: Profile, blockers: Findings)
    modifies blockers
    ensures blockers.items == old(blockers.items) + VersionBlockers(f, p)
  {
    if f.contractFamily !in p.contractFamilies {
      blockers.Append(UnsupportedContractFamily(f.contractFamily));
    }
    if f.tomeVersion.None? || f.tomeVersion.value !in p.tomeVersions {
      blockers.Append(UnsupportedTomeVersion(f.tomeVersion));
    }
    if f.coverPageVersion !in p.coverPageVersions {
      blockers.Append(UnsupportedCoverPageVersion(f.coverPageVersion));
    }
  }

  /** _check_identity */
  method CheckIdentity(view: Name, f: Facts, p: Profile, blockers: Findings)
    modifies blockers
    ensures blockers.items == old(blockers.items) + IdentityBlockers(view, f, p)
  {
    Appended(blockers.items, ValidationBlockers(view, f, p), VersionBlockers(f, p));
    CheckValidation(view, f, p, blockers);
    CheckVersions(f, p, blockers);
  }

  // ---- surfaces ----

  function ScopeKind(s: Surface): Name {
    match s.scope case Kind(text) => text case _ => "unspecified"
  }

  predicate Supports(p: Profile, s: Surface) {
    && s.known && s.kind in p.surfaceKinds && (s.kind, s.schema) in p.surfaceSchemas && ScopeKind(s) in p.targetScopes
  }

  function Problems(s: Surface, required: bool, p: Profile): seq<Finding> {
    if !s.known then [UnknownSurface(required, s.id, s.kind)]
    else
      When(s.kind !in p.surfaceKinds, UnsupportedSurfaceKind(s.id, s.kind, s.schema))
      + When((s.kind, s.schema) !in p.surfaceSchemas, UnsupportedSurfaceSchema(s.id, s.kind, s.schema))
      + When(ScopeKind(s) !in p.targetScopes, UnsupportedTargetScope(s.id, ScopeKind(s)))
  }

  function ScopeOf(s: Surface, required: bool, p: Profile): ScopeReport {
    ScopeReport(s.id, ScopeKind(s), required,
                if !s.known then Unevaluated
                else if ScopeKind(s) in p.targetScopes then Passed
                else if required then Failed else Unevaluated)
  }

  /** The findings of the surfaces that are (or are not) required, in order. */
  function SurfaceFindings(surfaces: seq<Surface>, requiredIds: set<Name>, required: bool, p: Profile): seq<Finding> {
    if surfaces == [] then []
    else
      var s := surfaces[|surfaces| - 1];
      SurfaceFindings(surfaces[..|surfaces| - 1], requiredIds, required, p)
      + if (s.id in requiredIds) == required then Problems(s, required, p) else []
  }

  function SurfaceIds(surfaces: seq<Surface>, supported: bool, p: Profile): seq<Name> {
    if surfaces == [] then []
    else
      var s := surfaces[|surfaces| - 1];
      SurfaceIds(surfaces[..|surfaces| - 1], supported, p) + if Supports(p, s) == supported then [s.id] else []
  }

  function Scopes(surfaces: seq<Surface>, requiredIds: set<Name>, p: Profile): seq<ScopeReport> {
    if surfaces == [] then []
    else
      var s := surfaces[|surfaces| - 1];
      Scopes(surfaces[..|surfaces| - 1], requiredIds, p) + [ScopeOf(s, s.id in requiredIds, p)]
  }

  /** One surface of the loop. */
  method CheckSurface(s: Surface, required: bool, p: Profile, blockers: Findings, warnings: Findings) returns (blocked: bool)
    requires blockers != warnings
    modifies blockers, warnings
    ensures blockers.items == old(blockers.items) + if required then Problems(s, true, p) else []
    ensures warnings.items == old(warnings.items) + if required then [] else Problems(s, false, p)
    ensures blocked <==> !Supports(p, s)
  {
    var list := if required then blockers else warnings;
    if !s.known {
      list.Append(UnknownSurface(required, s.id, s.kind));
      return true;
    }
    blocked := false;
    if s.kind !in p.surfaceKinds {
      blocked := true;
      list.Append(UnsupportedSurfaceKind(s.id, s.kind, s.schema));
    }
    if (s.kind, s.schema) !in p.surfaceSchemas {
      blocked := true;
      list.Append(UnsupportedSurfaceSchema(s.id, s.kind, s.schema));
    }
    if ScopeKind(s) !in p.targetScopes {
      blocked := true;
      list.Append(UnsupportedTargetScope(s.id, ScopeKind(s)));
    }
  }

  method CheckSurfaces(surfaces: seq<Surface>, requiredIds: set<Name>, p: Profile, blockers: Findings, warnings: Findings)
    returns (supported: seq<Name>, unsupported: seq<Name>, scopes: seq<ScopeReport>)
    requires blockers != warnings
    modifies blockers, warnings
    ensures blockers.items == old(blockers.items) + SurfaceFindings(surfaces, requiredIds, true, p)
    ensures warnings.items == old(warnings.items) + SurfaceFindings(surfaces, requiredIds, false, p)
    ensures supported == SurfaceIds(surfaces, true, p) && unsupported == SurfaceIds(surfaces, false, p)
    ensures scopes == Scopes(surfaces, requiredIds, p)
  {
    supported, unsupported, scopes := [], [], [];
    for i := 0 to |surfaces|
      invariant blockers.items == old(blockers.items) + SurfaceFindings(surfaces[..i], requiredIds, true, p)
      invariant warnings.items == old(warnings.items) + SurfaceFindings(surfaces[..i], requiredIds, false, p)
      invariant supported == SurfaceIds(surfaces[..i], true, p) && unsupported == SurfaceIds(surfaces[..i], false, p)
      invariant scopes == Scopes(surfaces[..i], requiredIds, p)
    {
      var s := surfaces[i];
      assert surfaces[..i + 1][..i] == surfaces[..i] && surfaces[..i + 1][i] == s;
      ghost var required := s.id in requiredIds;
      Appended(old(blockers.items), SurfaceFindings(surfaces[..i], requiredIds, true, p), if required then Problems(s, true, p) else []);
      Appended(old(warnings.items), SurfaceFindings(surfaces[..i], requiredIds, false, p), if required then [] else Problems(s, false, p));
      var blocked := CheckSurface(s, s.id in requiredIds, p, blockers, warnings);
      scopes := scopes + [ScopeOf(s, s.id in requiredIds, p)];
      if blocked {
        unsupported := unsupported + [s.id];
      } else {
        supported := supported + [s.id];
      }
    }
    assert surfaces[..|surfaces|] == surfaces;
  }

  // ---- dimensions and tokenizer ----

  predicate Fits(value: Option<int>, limit: Option<int>) {
    value.Some? && limit.Some? && value.value <= limit.value
  }

  function DimensionBlockers(d: Dimension, value: Option<int>, limit: Option<int>): seq<Finding> {
    if value.None? || limit.None? then [DimensionUnevaluated(d, value, limit)]
    else When(value.value > limit.value, DimensionExceeds(d, value.value, limit.value))
  }

  method CheckDimension(d: Dimension, value: Option<int>, limit: Option<int>, blockers: Findings) returns (r: DimensionReport)
    modifies blockers
    ensures blockers.items == old(blockers.items) + DimensionBlockers(d, value, limit)
    ensures r.value == value && r.limit == limit
    ensures (r.status.Passed? <==> Fits(value, limit)) && (r.status.Unevaluated? <==> value.None? || limit.None?) && !r.status.NotPresent?
  {
    if value.None? || limit.None? {
      blockers.Append(DimensionUnevaluated(d, value, limit));
      return DimensionReport(Unevaluated, value, limit);
    }
    if value.value > limit.value {
      blockers.Append(DimensionExceeds(d, value.value, limit.value));
      return DimensionReport(Failed, value, limit);
    }
    return DimensionReport(Passed, value, limit);
  }

  predicate TokenizerAccepted(id: Option<Name>, accepted: Option<seq<Name>>) {
    accepted.None? || (id.Some? && id.value in accepted.value)
  }

  method CheckTokenizer(id: Option<Name>, accepted: Option<seq<Name>>, blockers: Findings, warnings: Findings)
    requires blockers != warnings
    modifies blockers, warnings
    ensures blockers.items == old(blockers.items) + When(!TokenizerAccepted(id, accepted), UnsupportedTokenizer(id))
    ensures warnings.items == old(warnings.items) + When(accepted.None?, TokenizerBindingDeferred(id))
  {
    if accepted.None? {
      warnings.Append(TokenizerBindingDeferred(id));
    } else if !(id.Some? && id.value in accepted.value) {
      blockers.Append(UnsupportedTokenizer(id));
    }
  }

  // ---- the training plan ----

  function PassSurfaces(plan: seq<TrainingPass>): set<Name> { set item | item in plan :: item.surfaceId }

  function AvailableIds(surfaces: seq<Surface>): set<Name> { set s | s in surfaces :: s.id }

  /** sorted(set(prerequisites) - completed) */
  function Outstanding(prerequisites: seq<Name>, completed: set<Name>): seq<Name> {
    UniqueSorted(StringLt, Filter((n: Name) => n !in completed, prerequisites))
  }

  function FeatureBlockers(plan: seq<TrainingPass>, p: Profile): seq<Finding> {
    When(!p.orderedPasses, UnsupportedPlanFeature(OrderedPasses))
    + When((exists item | item in plan :: item.checkpointAfter) && !p.checkpointBoundaries, UnsupportedPlanFeature(CheckpointBoundaries))
    + When((exists item | item in plan :: item.prerequisites != []) && !p.passPrerequisites, UnsupportedPlanFeature(PassPrerequisites))
  }

  function PassProblems(item: TrainingPass, completed: set<Name>, available: set<Name>): seq<Finding> {
    When(item.surfaceId !in available, UnavailablePassSurface(item.passId, item.surfaceId))
    + When(Outstanding(item.prerequisites, completed) != [],
           PrerequisitesOutOfOrder(item.passId, Outstanding(item.prerequisites, completed)))
  }

  function PassBlockers(plan: seq<TrainingPass>, available: set<Name>): seq<Finding> {
    if plan == [] then []
    else
      var earlier := plan[..|plan| - 1];
      PassBlockers(earlier, available) + PassProblems(plan[|plan| - 1], PassSurfaces(earlier), available)
  }

  function PlanBlockers(plan: seq<TrainingPass>, available: set<Name>, p: Profile): seq<Finding> {
    if plan == [] then [] else FeatureBlockers(plan, p) + PassBlockers(plan, available)
  }

  method CheckFeatures(plan: seq<TrainingPass>, p: Profile, blockers: Findings) returns (failed: bool)
    modifies blockers
    ensures blockers.items == old(blockers.items) + FeatureBlockers(plan, p)
    ensures failed <==> FeatureBlockers(plan, p) != []
  {
    failed := false;
    if !p.orderedPasses {
      failed := true;
      blockers.Append(UnsupportedPlanFeature(OrderedPasses));
    }
    if (exists item | item in plan :: item.checkpointAfter) && !p.checkpointBoundaries {
      failed := true;
      blockers.Append(UnsupportedPlanFeature(CheckpointBoundaries));
    }
    if (exists item | item in plan :: item.prerequisites != []) && !p.passPrerequisites {
      failed := true;
      blockers.Append(UnsupportedPlanFeature(PassPrerequisites));
    }
  }

  lemma LastPass(plan: seq<TrainingPass>, k: nat)
    requires k < |plan|
    ensures PassSurfaces(plan[..k + 1]) == PassSurfaces(plan[..k]) + {plan[k].surfaceId}
    ensures plan[..k + 1][..k] == plan[..k]
  {
    assert plan[..k + 1] == plan[..k] + [plan[k]];
  }

  /** One pass of the plan's loop. */
  method CheckPass(item: TrainingPass, completed: set<Name>, available: set<Name>, blockers: Findings) returns (failed: bool)
    modifies blockers
    ensures blockers.items == old(blockers.items) + PassProblems(item, completed, available)
    ensures failed <==> PassProblems(item, completed, available) != []
  {
    failed := false;
    if item.surfaceId !in available {
      failed := true;
      blockers.Append(UnavailablePassSurface(item.passId, item.surfaceId));
    }
    var missing := Outstanding(item.prerequisites, completed);
    if missing != [] {
      failed := true;
      blockers.Append(PrerequisitesOutOfOrder(item.passId, missing));
    }
  }

  /** _check_plan */
  method CheckPlan(plan: seq<TrainingPass>, available: set<Name>, p: Profile, blockers: Findings) returns (r: PlanReport)
    modifies blockers
    ensures blockers.items == old(blockers.items) + PlanBlockers(plan, available, p)
    ensures r.passCount == |plan| && r.ordered == p.orderedPasses
    ensures r.checkpoints == p.checkpointBoundaries && r.prerequisites == p.passPrerequisites
    ensures r.status == if plan == [] then NotPresent else if PlanBlockers(plan, available, p) == [] then Passed else Failed
  {
    if plan == [] {
      return PlanReport(NotPresent, 0, p.orderedPasses, p.checkpointBoundaries, p.passPrerequisites);
    }
    var failed := CheckFeatures(plan, p, blockers);
    var completed: set<Name> := {};
    for i := 0 to |plan|
      invariant completed == PassSurfaces(plan[..i])
      invariant blockers.items == old(blockers.items) + (FeatureBlockers(plan, p) + PassBlockers(plan[..i], available))
      invariant failed <==> FeatureBlockers(plan, p) + PassBlockers(plan[..i], available) != []
    {
      var item := plan[i];
      LastPass(plan, i);
      ghost var features, earlier := FeatureBlockers(plan, p), PassBlockers(plan[..i], available);
      Appended(old(blockers.items), features + earlier, PassProblems(item, completed, available));
      Appended(features, earlier, PassProblems(item, completed, available));
      var failing := CheckPass(item, completed, available, blockers);
      failed := failed || failing;
      completed := completed + {item.surfaceId};
    }
    assert plan[..|plan|] == plan;
    r := PlanReport(if failed then Failed else Passed, |plan|, p.orderedPasses, p.checkpointBoundaries, p.passPrerequisites);
  }

  // ---- findings without repetition ----

  /** The first occurrence of every finding is kept, in order. */
  method Deduplicate(findings: seq<Finding>) returns (result: seq<Finding>)
    ensures result == Unique(findings)
  {
    result := [];
    var seen: set<Finding> := {};
    for i := 0 to |findings|
      invariant result == Unique(findings[..i]) && seen == Elems(result)
    {
      assert findings[..i + 1][..i] == findings[..i];
      if findings[i] !in seen {
        result := result + [findings[i]];
        seen := seen + {findings[i]};
      }
    }
    assert findings[..|findings|] == findings;
  }

  // ---- the whole evaluation ----

  const RESOLVED_PREFIX := "unsupported_required_capability: "

  /** Whether a defaults warning names a capability the profile declares. */
  predicate Resolved(warning: Name, p: Profile) {
    RESOLVED_PREFIX <= warning && warning[|RESOLVED_PREFIX|..] in p.capabilities
  }

  function Required(d: Defaults): seq<Name> { UniqueSorted(StringLt, d.requiredCapabilities) }

  function Declared(d: Defaults, p: Profile): seq<Name> { Filter((c: Name) => c in p.capabilities, Required(d)) }

  function Missing(d: Defaults, p: Profile): seq<Name> { Filter((c: Name) => c !in p.capabilities, Required(d)) }

  function MissingFindings(missing: seq<Name>): seq<Finding> { Map((c: Name) => MissingRequiredCapability(c), missing) }

  function Leftover(warnings: seq<Name>, p: Profile): seq<Finding> {
    Map((w: Name) => DefaultsWarning(w), Filter((w: Name) => !Resolved(w, p), warnings))
  }

  function ArtifactBlockers(view: Name, d: Defaults, p: Profile): seq<Finding> {
    IdentityBlockers(view, d.facts, p)
    + MissingFindings(Missing(d, p))
    + SurfaceFindings(d.surfaces, PassSurfaces(d.plan), true, p)
  }

  function ArtifactWarnings(d: Defaults, p: Profile): seq<Finding> {
    When(Declared(d, p) != [], DeclarationNotExecutionProof(Declared(d, p)))
    + SurfaceFindings(d.surfaces, PassSurfaces(d.plan), false, p)
  }

  function Blockers(view: Name, d: Defaults, p: Profile): seq<Finding> {
    ArtifactBlockers(view, d, p)
    + DimensionBlockers(SequenceLength, d.facts.sequenceLength, p.maxSequenceLength)
    + DimensionBlockers(VocabSize, d.facts.vocabSize, p.maxVocabSize)
    + When(!TokenizerAccepted(d.facts.tokenizerId, p.tokenizerIds), UnsupportedTokenizer(d.facts.tokenizerId))
    + PlanBlockers(d.plan, AvailableIds(d.surfaces), p)
  }

  function Warnings(d: Defaults, p: Profile): seq<Finding> {
    ArtifactWarnings(d, p)
    + When(p.tokenizerIds.None?, TokenizerBindingDeferred(d.facts.tokenizerId))
    + Leftover(d.warnings, p)
    + [ArchitectureNotEvaluated, SpecialTokensNotEvaluated]
  }

  lemma TwoMore(list: seq<Finding>)
    ensures list + [ArchitectureNotEvaluated] + [SpecialTokensNotEvaluated] == list + [ArchitectureNotEvaluated, SpecialTokensNotEvaluated]
  {
  }

  lemma NothingBefore(list: seq<Finding>)
    ensures [] + list == list
  {
  }

  /** The part of the evaluation up to the surfaces. */
  method CheckArtifact(view: Name, d: Defaults, p: Profile, blockers: Findings, warnings: Findings)
    returns (supported: seq<Name>, unsupported: seq<Name>, scopes: seq<ScopeReport>)
    requires blockers != warnings && blockers.items == [] && warnings.items == []
    modifies blockers, warnings
    ensures blockers.items == ArtifactBlockers(view, d, p) && warnings.items == ArtifactWarnings(d, p)
    ensures supported == SurfaceIds(d.surfaces, true, p) && unsupported == SurfaceIds(d.surfaces, false, p)
    ensures scopes == Scopes(d.surfaces, PassSurfaces(d.plan), p)
  {
    CheckIdentity(view, d.facts, p, blockers);
    NothingBefore(IdentityBlockers(view, d.facts, p));
    assert blockers.items == IdentityBlockers(view, d.facts, p);
    blockers.items := blockers.items + MissingFindings(Missing(d, p));
    if Declared(d, p) != [] {
      warnings.Append(DeclarationNotExecutionProof(Declared(d, p)));
    }
    assert warnings.items == When(Declared(d, p) != [], DeclarationNotExecutionProof(Declared(d, p)));
    supported, unsupported, scopes := CheckSurfaces(d.surfaces, PassSurfaces(d.plan), p, blockers, warnings);
  }

  /** evaluate_student_compatibility */
  method Evaluate(view: Name, d: Defaults, p: Profile) returns (r: Report)
    ensures r.blockers == Blockers(view, d, p) && r.warnings == Unique(Warnings(d, p))
    ensures r.pass <==> Blockers(view, d, p) == []
    ensures r.required == Required(d) && r.supported == Declared(d, p) && r.missing == Missing(d, p)
    ensures r.supportedSurfaces == SurfaceIds(d.surfaces, true, p) && r.unsupportedSurfaces == SurfaceIds(d.surfaces, false, p)
    ensures r.scopes == Scopes(d.surfaces, PassSurfaces(d.plan), p)
    ensures r.sequenceLength.status.Passed? <==> Fits(d.facts.sequenceLength, p.maxSequenceLength)
    ensures r.vocabSize.status.Passed? <==> Fits(d.facts.vocabSize, p.maxVocabSize)
    ensures r.plan.status == if d.plan == [] then NotPresent
                             else if PlanBlockers(d.plan, AvailableIds(d.surfaces), p) == [] then Passed else Failed
  {
    var blockers := new Findings();
    var warnings := new Findings();
    var able, unable, scopes := CheckArtifact(view, d, p, blockers, warnings);
    var sequence := CheckDimension(SequenceLength, d.facts.sequenceLength, p.maxSequenceLength, blockers);
    var vocab := CheckDimension(VocabSize, d.facts.vocabSize, p.maxVocabSize, blockers);
    CheckTokenizer(d.facts.tokenizerId, p.tokenizerIds, blockers, warnings);
    var plan := CheckPlan(d.plan, AvailableIds(d.surfaces), p, blockers);
    warnings.items := warnings.items + Leftover(d.warnings, p);
    warnings.Append(ArchitectureNotEvaluated);
    warnings.Append(SpecialTokensNotEvaluated);
    TwoMore(ArtifactWarnings(d, p) + When(p.tokenizerIds.None?, TokenizerBindingDeferred(d.facts.tokenizerId)) + Leftover(d.warnings, p));
    var unrepeated := Deduplicate(warnings.items);
    r := Report(blockers.items == [], Required(d), Declared(d, p), Missing(d, p), able, unable, sequence, vocab, scopes, plan, blockers.items, unrepeated);
  }
}
