/** Every finding of a compatibility report and its cause, in the fields of the artifact's
    defaults and of the profile. */
module CompatibilityFindings {
  import opened Basics
  import opened Ordering
  import opened Compatibility
  import opened CompatibilityMeaning

  // ---- the causes ----

  ghost predicate IdentityCause(view: Name, f: Facts, p: Profile, x: Finding) {
    match x
    case DefaultsArtifactMismatch(v, c) => v == view && c == f.contractFamily && c != view
    case ContractValidationFailed(status) => status == f.contractStatus && status != "pass"
    case ProducerValidationFailed(status) => status == f.producerStatus && status !in p.producerStatuses
    case UnsupportedContractFamily(family) => family == f.contractFamily && family !in p.contractFamilies
    case UnsupportedTomeVersion(tome) => tome == f.tomeVersion && (tome.None? || tome.value !in p.tomeVersions)
    case UnsupportedCoverPageVersion(cover) => cover == f.coverPageVersion && cover !in p.coverPageVersions
    case _ => false
  }

  /** What surface s gives rise to, as a blocker when it is required and as a warning otherwise. */
  ghost predicate SurfaceCause(s: Surface, required: bool, p: Profile, x: Finding) {
    match x
    case UnknownSurface(r, id, kind) => !s.known && r == required && id == s.id && kind == s.kind
    case UnsupportedSurfaceKind(id, kind, schema) =>
      s.known && id == s.id && kind == s.kind && schema == s.schema && kind !in p.surfaceKinds
    case UnsupportedSurfaceSchema(id, kind, schema) =>
      s.known && id == s.id && kind == s.kind && schema == s.schema && (kind, schema) !in p.surfaceSchemas
    case UnsupportedTargetScope(id, scope) => s.known && id == s.id && scope == ScopeName(s) && scope !in p.targetScopes
    case _ => false
  }

  ghost predicate SurfacesCause(d: Defaults, required: bool, p: Profile, x: Finding) {
    exists s :: s in d.surfaces && (Planned(d, s) <==> required) && SurfaceCause(s, required, p, x)
  }

  ghost predicate LimitCause(of: Dimension, value: Option<int>, limit: Option<int>, x: Finding) {
    match x
    case DimensionUnevaluated(dimension, v, l) => dimension == of && v == value && l == limit && (v.None? || l.None?)
    case DimensionExceeds(dimension, v, l) => dimension == of && value == Some(v) && limit == Some(l) && v > l
    case _ => false
  }

  ghost predicate FeatureCause(plan: seq<TrainingPass>, p: Profile, feature: Feature) {
    match feature
    case OrderedPasses => !p.orderedPasses
    case CheckpointBoundaries => !p.checkpointBoundaries && exists item :: item in plan && item.checkpointAfter
    case PassPrerequisites => !p.passPrerequisites && exists item :: item in plan && item.prerequisites != []
  }

  ghost predicate NamesAscend(names: seq<Name>) {
    forall i, j | 0 <= i < j < |names| :: CharsBefore(names[i], names[j])
  }

  lemma NamesAscendSorted(names: seq<Name>)
    ensures NamesAscend(names) <==> StrictlySorted(StringLt, names)
  {
    forall i, j | 0 <= i < j < |names| ensures StringLt(names[i], names[j]) <==> CharsBefore(names[i], names[j]) {
      StringOrderIsChars(names[i], names[j]);
    }
  }

  /** The prerequisites of pass k that no earlier pass covers, once each and ascending. */
  ghost predicate MissingBefore(plan: seq<TrainingPass>, k: nat, missing: seq<Name>)
    requires k < |plan|
  {
    && missing != [] && NamesAscend(missing)
    && forall n :: n in missing <==> n in plan[k].prerequisites && forall j | 0 <= j < k :: plan[j].surfaceId != n
  }

  ghost predicate PlanCause(d: Defaults, p: Profile, x: Finding) {
    match x
    case UnsupportedPlanFeature(feature) => FeatureCause(d.plan, p, feature)
    case UnavailablePassSurface(pass, surface) =>
      && (exists item :: item in d.plan && item.passId == pass && item.surfaceId == surface)
      && (forall s | s in d.surfaces :: s.id != surface)
    case PrerequisitesOutOfOrder(pass, missing) =>
      exists k :: 0 <= k < |d.plan| && d.plan[k].passId == pass && MissingBefore(d.plan, k, missing)
    case _ => false
  }

  /** Exactly the causes of blockers. */
  ghost predicate Blocks(view: Name, d: Defaults, p: Profile, x: Finding) {
    || IdentityCause(view, d.facts, p, x)
    || (x.MissingRequiredCapability? && x.capability in d.requiredCapabilities && x.capability !in p.capabilities)
    || SurfacesCause(d, true, p, x)
    || LimitCause(SequenceLength, d.facts.sequenceLength, p.maxSequenceLength, x)
    || LimitCause(VocabSize, d.facts.vocabSize, p.maxVocabSize, x)
    || (x.UnsupportedTokenizer? && x.tokenizer == d.facts.tokenizerId && p.tokenizerIds.Some?
        && (x.tokenizer.None? || x.tokenizer.value !in p.tokenizerIds.value))
    || (d.plan != [] && PlanCause(d, p, x))
  }

  /** Exactly the causes of warnings. */
  ghost predicate Warns(d: Defaults, p: Profile, x: Finding) {
    || (x.DeclarationNotExecutionProof? && x.capabilities != [] && NamesAscend(x.capabilities)
        && forall c :: c in x.capabilities <==> c in d.requiredCapabilities && c in p.capabilities)
    || SurfacesCause(d, false, p, x)
    || (x.TokenizerBindingDeferred? && x.tokenizer == d.facts.tokenizerId && p.tokenizerIds.None?)
    || (x.DefaultsWarning? && x.text in d.warnings
        && forall c | c in p.capabilities :: x.text != "unsupported_required_capability: " + c)
    || x.ArchitectureNotEvaluated? || x.SpecialTokensNotEvaluated?
  }

  // ---- each check finds exactly its causes ----

  lemma IdentityFinds(view: Name, f: Facts, p: Profile, x: Finding)
    ensures x in IdentityBlockers(view, f, p) <==> IdentityCause(view, f, p, x)
  {
    ValidationFinds(view, f, p, x);
    VersionsFind(f, p, x);
    InEither(ValidationBlockers(view, f, p), VersionBlockers(f, p), x);
  }

  lemma ValidationFinds(view: Name, f: Facts, p: Profile, x: Finding)
    ensures x in ValidationBlockers(view, f, p) <==>
            IdentityCause(view, f, p, x) && (x.DefaultsArtifactMismatch? || x.ContractValidationFailed? || x.ProducerValidationFailed?)
  {
  }

  lemma VersionsFind(f: Facts, p: Profile, x: Finding)
    ensures x in VersionBlockers(f, p) <==>
            IdentityCause("", f, p, x) && (x.UnsupportedContractFamily? || x.UnsupportedTomeVersion? || x.UnsupportedCoverPageVersion?)
  {
  }

  lemma SurfaceFinds(s: Surface, required: bool, p: Profile, x: Finding)
    ensures x in Problems(s, required, p) <==> SurfaceCause(s, required, p, x)
  {
    if s.known {
      InThree(s.kind !in p.surfaceKinds, UnsupportedSurfaceKind(s.id, s.kind, s.schema),
              (s.kind, s.schema) !in p.surfaceSchemas, UnsupportedSurfaceSchema(s.id, s.kind, s.schema),
              ScopeKind(s) !in p.targetScopes, UnsupportedTargetScope(s.id, ScopeKind(s)), x);
    }
  }

  lemma InThree(a: bool, f: Finding, b: bool, g: Finding, c: bool, h: Finding, x: Finding)
    ensures x in When(a, f) + When(b, g) + When(c, h) <==> (a && x == f) || (b && x == g) || (c && x == h)
  {
  }

  lemma {:induction false} SurfacesFind(surfaces: seq<Surface>, requiredIds: set<Name>, required: bool, p: Profile, x: Finding)
    ensures x in SurfaceFindings(surfaces, requiredIds, required, p) <==>
            exists s :: s in surfaces && (s.id in requiredIds) == required && SurfaceCause(s, required, p, x)
  {
    if surfaces != [] {
      var front, last := surfaces[..|surfaces| - 1], surfaces[|surfaces| - 1];
      assert surfaces == front + [last];
      SurfacesFind(front, requiredIds, required, p, x);
      SurfaceFinds(last, required, p, x);
    }
  }

  lemma PlannedSurfacesFind(d: Defaults, required: bool, p: Profile, x: Finding)
    ensures x in SurfaceFindings(d.surfaces, PassSurfaces(d.plan), required, p) <==> SurfacesCause(d, required, p, x)
  {
    SurfacesFind(d.surfaces, PassSurfaces(d.plan), required, p, x);
    forall s: Surface ensures s.id in PassSurfaces(d.plan) <==> Planned(d, s) { PlannedIds(d, s); }
  }

  lemma LimitFinds(of: Dimension, value: Option<int>, limit: Option<int>, x: Finding)
    ensures x in DimensionBlockers(of, value, limit) <==> LimitCause(of, value, limit, x)
  {
  }

  lemma FeaturesFind(plan: seq<TrainingPass>, p: Profile, x: Finding)
    ensures x in FeatureBlockers(plan, p) <==> x.UnsupportedPlanFeature? && FeatureCause(plan, p, x.feature)
  {
  }

  lemma OutstandingAre(prerequisites: seq<Name>, completed: set<Name>)
    ensures StrictlySorted(StringLt, Outstanding(prerequisites, completed))
    ensures forall n :: n in Outstanding(prerequisites, completed) <==> n in prerequisites && n !in completed
  {
    var left := Filter((n: Name) => n !in completed, prerequisites);
    StringOrder();
    UniqueAscends(StringLt, left);
    var r := Outstanding(prerequisites, completed);
    forall n ensures n in r <==> n in left { assert n in Elems(r) <==> n in Elems(left); }
  }

  lemma SameAscending(a: seq<Name>, b: seq<Name>)
    requires StrictlySorted(StringLt, a) && StrictlySorted(StringLt, b) && forall n :: n in a <==> n in b
    ensures a == b
  {
    StringOrder();
    AscendingUnique(StringLt, a);
    AscendingUnique(StringLt, b);
    assert Elems(a) == Elems(b);
  }

  lemma CoveredBefore(plan: seq<TrainingPass>, k: nat, n: Name)
    requires k < |plan|
    ensures n in PassSurfaces(plan[..k]) <==> exists j :: 0 <= j < k && plan[j].surfaceId == n
  {
    if n in PassSurfaces(plan[..k]) {
      var item :| item in plan[..k] && item.surfaceId == n;
      var j :| 0 <= j < k && plan[..k][j] == item;
      assert plan[j].surfaceId == n;
    }
    if j :| 0 <= j < k && plan[j].surfaceId == n { assert plan[..k][j] in plan[..k]; }
  }

  /** What pass k of the plan gives rise to. */
  ghost predicate PassCause(plan: seq<TrainingPass>, k: nat, available: set<Name>, x: Finding)
    requires k < |plan|
  {
    || (x == UnavailablePassSurface(plan[k].passId, plan[k].surfaceId) && plan[k].surfaceId !in available)
    || (x.PrerequisitesOutOfOrder? && x.passId == plan[k].passId && MissingBefore(plan, k, x.missing))
  }

  lemma PassFinds(plan: seq<TrainingPass>, k: nat, available: set<Name>, x: Finding)
    requires k < |plan|
    ensures x in PassProblems(plan[k], PassSurfaces(plan[..k]), available) <==> PassCause(plan, k, available, x)
  {
    var left := Outstanding(plan[k].prerequisites, PassSurfaces(plan[..k]));
    InThree(plan[k].surfaceId !in available, UnavailablePassSurface(plan[k].passId, plan[k].surfaceId),
            left != [], PrerequisitesOutOfOrder(plan[k].passId, left), false, x, x);
    if x.PrerequisitesOutOfOrder? { OutstandingIsMissing(plan, k, x.missing); }
  }

  lemma OutstandingIsMissing(plan: seq<TrainingPass>, k: nat, missing: seq<Name>)
    requires k < |plan|
    ensures MissingBefore(plan, k, missing) <==>
            missing != [] && missing == Outstanding(plan[k].prerequisites, PassSurfaces(plan[..k]))
  {
    NamesAscendSorted(missing);
    var r := Outstanding(plan[k].prerequisites, PassSurfaces(plan[..k]));
    OutstandingAre(plan[k].prerequisites, PassSurfaces(plan[..k]));
    forall n ensures n in r <==> n in plan[k].prerequisites && forall j | 0 <= j < k :: plan[j].surfaceId != n {
      CoveredBefore(plan, k, n);
    }
    if MissingBefore(plan, k, missing) { SameAscending(r, missing); }
  }

  predicate FoundBefore(plan: seq<TrainingPass>, n: nat, available: set<Name>, x: Finding)
    requires n <= |plan|
  {
    x in PassBlockers(plan[..n], available)
  }

  lemma {:induction false} PassesFind(plan: seq<TrainingPass>, n: nat, available: set<Name>, x: Finding)
    requires n <= |plan|
    ensures FoundBefore(plan, n, available, x) <==> SomePassCause(plan, n, available, x)
    decreases n
  {
    if n == 0 {
      NoPassesFind(plan, available, x);
    } else {
      PassesFind(plan, n - 1, available, x);
      OneMorePassFinds(plan, n, n - 1, available, x);
      SomePassStep(plan, n, n - 1, available, x);
    }
  }

  lemma NoPassesFind(plan: seq<TrainingPass>, available: set<Name>, x: Finding)
    ensures !FoundBefore(plan, 0, available, x) && !SomePassCause(plan, 0, available, x)
  {
    assert plan[..0] == [];
  }

  lemma OneMorePassFinds(plan: seq<TrainingPass>, n: nat, k: nat, available: set<Name>, x: Finding)
    requires n <= |plan| && k + 1 == n
    ensures FoundBefore(plan, n, available, x) <==> FoundBefore(plan, k, available, x) || PassCause(plan, k, available, x)
  {
    PassBlockersStep(plan, n, k, available);
    PassFinds(plan, k, available, x);
    InEither(PassBlockers(plan[..k], available), PassProblems(plan[k], PassSurfaces(plan[..k]), available), x);
  }

  lemma InEither(a: seq<Finding>, b: seq<Finding>, x: Finding)
    ensures x in a + b <==> x in a || x in b
  {
  }

  ghost predicate SomePassCause(plan: seq<TrainingPass>, n: nat, available: set<Name>, x: Finding)
    requires n <= |plan|
  {
    exists k :: 0 <= k < n && PassCause(plan, k, available, x)
  }

  lemma SomePassStep(plan: seq<TrainingPass>, n: nat, k: nat, available: set<Name>, x: Finding)
    requires n <= |plan| && k + 1 == n
    ensures SomePassCause(plan, n, available, x) <==> SomePassCause(plan, k, available, x) || PassCause(plan, k, available, x)
  {
  }

  lemma PassBlockersStep(plan: seq<TrainingPass>, n: nat, k: nat, available: set<Name>)
    requires n <= |plan| && k + 1 == n
    ensures PassBlockers(plan[..n], available) ==
            PassBlockers(plan[..k], available) + PassProblems(plan[k], PassSurfaces(plan[..k]), available)
  {
    assert plan[..n][..k] == plan[..k];
  }

  lemma PlanFinds(d: Defaults, p: Profile, x: Finding)
    ensures x in PlanBlockers(d.plan, AvailableIds(d.surfaces), p) <==> d.plan != [] && PlanCause(d, p, x)
  {
    if d.plan != [] {
      FeaturesFind(d.plan, p, x);
      AllPassesFind(d, p, x);
      InEither(FeatureBlockers(d.plan, p), PassBlockers(d.plan, AvailableIds(d.surfaces)), x);
      FeatureIsPlanCause(d, p, x);
    }
  }

  lemma FeatureIsPlanCause(d: Defaults, p: Profile, x: Finding)
    ensures x.UnsupportedPlanFeature? ==> (PlanCause(d, p, x) <==> FeatureCause(d.plan, p, x.feature))
  {
  }

  lemma AllPassesFind(d: Defaults, p: Profile, x: Finding)
    ensures x in PassBlockers(d.plan, AvailableIds(d.surfaces)) <==> !x.UnsupportedPlanFeature? && PlanCause(d, p, x)
  {
    PassesFind(d.plan, |d.plan|, AvailableIds(d.surfaces), x);
    assert d.plan[..|d.plan|] == d.plan;
    if x.UnsupportedPlanFeature? { NoPassCause(d, x); } else { PassCauses(d, p, x); }
  }

  lemma NoPassCause(d: Defaults, x: Finding)
    requires x.UnsupportedPlanFeature?
    ensures !SomePassCause(d.plan, |d.plan|, AvailableIds(d.surfaces), x)
  {
  }

  lemma PassCauses(d: Defaults, p: Profile, x: Finding)
    requires !x.UnsupportedPlanFeature?
    ensures SomePassCause(d.plan, |d.plan|, AvailableIds(d.surfaces), x) <==> PlanCause(d, p, x)
  {
    if PlanCause(d, p, x) && x.UnavailablePassSurface? {
      var item :| item in d.plan && item.passId == x.passId && item.surfaceId == x.surfaceId;
      var k :| 0 <= k < |d.plan| && d.plan[k] == item;
      assert PassCause(d.plan, k, AvailableIds(d.surfaces), x);
    }
    if PlanCause(d, p, x) && x.PrerequisitesOutOfOrder? {
      var k :| 0 <= k < |d.plan| && d.plan[k].passId == x.passId && MissingBefore(d.plan, k, x.missing);
      assert PassCause(d.plan, k, AvailableIds(d.surfaces), x);
    }
    if SomePassCause(d.plan, |d.plan|, AvailableIds(d.surfaces), x) {
      var k :| 0 <= k < |d.plan| && PassCause(d.plan, k, AvailableIds(d.surfaces), x);
      assert d.plan[k] in d.plan;
    }
  }

  lemma CapabilitiesAre(d: Defaults, p: Profile)
    ensures forall c :: c in Missing(d, p) <==> c in d.requiredCapabilities && c !in p.capabilities
    ensures forall c :: c in Declared(d, p) <==> c in d.requiredCapabilities && c in p.capabilities
    ensures StrictlySorted(StringLt, Declared(d, p))
  {
    CapabilitiesSplit(d, p);
    forall c ensures c in Required(d) <==> c in d.requiredCapabilities { assert c in Elems(Required(d)) <==> c in Elems(d.requiredCapabilities); }
  }

  lemma MissingFinds(d: Defaults, p: Profile, x: Finding)
    ensures x in MissingFindings(Missing(d, p)) <==>
            x.MissingRequiredCapability? && x.capability in d.requiredCapabilities && x.capability !in p.capabilities
  {
    CapabilitiesAre(d, p);
    var missing, found := Missing(d, p), MissingFindings(Missing(d, p));
    if x in found {
      var k :| 0 <= k < |found| && found[k] == x;
      assert missing[k] in missing;
    }
    if x.MissingRequiredCapability? && x.capability in missing {
      var k :| 0 <= k < |missing| && missing[k] == x.capability;
      assert found[k] == x;
    }
  }

  /** A blocker is reported exactly when there is its cause. */
  lemma BlockersExact(view: Name, d: Defaults, p: Profile, x: Finding)
    ensures x in Blockers(view, d, p) <==> Blocks(view, d, p, x)
  {
    IdentityFinds(view, d.facts, p, x);
    MissingFinds(d, p, x);
    PlannedSurfacesFind(d, true, p, x);
    LimitFinds(SequenceLength, d.facts.sequenceLength, p.maxSequenceLength, x);
    LimitFinds(VocabSize, d.facts.vocabSize, p.maxVocabSize, x);
    PlanFinds(d, p, x);
    InSeven(IdentityBlockers(view, d.facts, p), MissingFindings(Missing(d, p)), SurfaceFindings(d.surfaces, PassSurfaces(d.plan), true, p),
            DimensionBlockers(SequenceLength, d.facts.sequenceLength, p.maxSequenceLength),
            DimensionBlockers(VocabSize, d.facts.vocabSize, p.maxVocabSize),
            When(!TokenizerAccepted(d.facts.tokenizerId, p.tokenizerIds), UnsupportedTokenizer(d.facts.tokenizerId)),
            PlanBlockers(d.plan, AvailableIds(d.surfaces), p), x);
  }

  lemma InSeven(a: seq<Finding>, b: seq<Finding>, c: seq<Finding>, e: seq<Finding>, f: seq<Finding>, g: seq<Finding>, h: seq<Finding>, x: Finding)
    ensures x in (a + b + c) + e + f + g + h <==> x in a || x in b || x in c || x in e || x in f || x in g || x in h
  {
  }

  lemma WarningKept(w: Name, p: Profile)
    ensures Resolved(w, p) <==> exists c :: c in p.capabilities && w == "unsupported_required_capability: " + c
  {
    if Resolved(w, p) {
      var c := w[|RESOLVED_PREFIX|..];
      assert w == RESOLVED_PREFIX + c;
    }
    if c :| c in p.capabilities && w == "unsupported_required_capability: " + c {
      assert w[|RESOLVED_PREFIX|..] == c && w[..|RESOLVED_PREFIX|] == RESOLVED_PREFIX;
    }
  }

  lemma LeftoverFinds(d: Defaults, p: Profile, x: Finding)
    ensures x in Leftover(d.warnings, p) <==>
            x.DefaultsWarning? && x.text in d.warnings && forall c | c in p.capabilities :: x.text != "unsupported_required_capability: " + c
  {
    var kept := Filter((w: Name) => !Resolved(w, p), d.warnings);
    var found := Leftover(d.warnings, p);
    if x in found {
      var k :| 0 <= k < |found| && found[k] == x;
      assert x == DefaultsWarning(kept[k]) && kept[k] in kept;
      WarningKept(x.text, p);
    }
    if x.DefaultsWarning? && x.text in d.warnings && forall c | c in p.capabilities :: x.text != "unsupported_required_capability: " + c {
      WarningKept(x.text, p);
      var k :| 0 <= k < |kept| && kept[k] == x.text;
      assert found[k] == x;
    }
  }

  lemma DeclarationFinds(d: Defaults, p: Profile, x: Finding)
    ensures x in When(Declared(d, p) != [], DeclarationNotExecutionProof(Declared(d, p))) <==>
            x.DeclarationNotExecutionProof? && x.capabilities != [] && NamesAscend(x.capabilities)
            && forall c :: c in x.capabilities <==> c in d.requiredCapabilities && c in p.capabilities
  {
    CapabilitiesAre(d, p);
    if x.DeclarationNotExecutionProof? { NamesAscendSorted(x.capabilities); }
    if x.DeclarationNotExecutionProof? && NamesAscend(x.capabilities)
       && forall c :: c in x.capabilities <==> c in d.requiredCapabilities && c in p.capabilities
    {
      SameAscending(Declared(d, p), x.capabilities);
    }
  }

  lemma OnceKept(found: seq<Finding>, x: Finding)
    ensures x in Unique(found) <==> x in found
  {
    assert x in Unique(found) <==> x in Elems(Unique(found));
    assert x in found <==> x in Elems(found);
  }

  /** A warning is reported exactly when there is its cause. */
  lemma WarningsExact(d: Defaults, p: Profile, x: Finding)
    ensures x in Unique(Warnings(d, p)) <==> Warns(d, p, x)
  {
    DeclarationFinds(d, p, x);
    PlannedSurfacesFind(d, false, p, x);
    LeftoverFinds(d, p, x);
    OnceKept(Warnings(d, p), x);
    InSeven(When(Declared(d, p) != [], DeclarationNotExecutionProof(Declared(d, p))),
            SurfaceFindings(d.surfaces, PassSurfaces(d.plan), false, p), [],
            When(p.tokenizerIds.None?, TokenizerBindingDeferred(d.facts.tokenizerId)), Leftover(d.warnings, p),
            [ArchitectureNotEvaluated, SpecialTokensNotEvaluated], [], x);
  }
}
