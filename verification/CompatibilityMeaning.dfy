/** What a compatibility verdict means, and why a larger profile never loses it. */
module CompatibilityMeaning {
  import opened Basics
  import opened Ordering
  import opened Compatibility

  // ---- the verdict without lists of findings ----

  ghost predicate IdentityFits(view: Name, f: Facts, p: Profile) {
    && f.contractFamily == view && f.contractStatus == "pass"
    && f.producerStatus in p.producerStatuses && f.contractFamily in p.contractFamilies
    && f.tomeVersion.Some? && f.tomeVersion.value in p.tomeVersions && f.coverPageVersion in p.coverPageVersions
  }

  ghost predicate CapabilitiesDeclared(d: Defaults, p: Profile) {
    forall c | c in d.requiredCapabilities :: c in p.capabilities
  }

  /** The surface's kind is known and listed, its schema is listed for that kind, and its target
      scope is listed, an absent or null one counting as "unspecified". */
  ghost predicate SurfaceFits(s: Surface, p: Profile) {
    && s.known && s.kind in p.surfaceKinds && (s.kind, s.schema) in p.surfaceSchemas && ScopeName(s) in p.targetScopes
  }

  ghost function ScopeName(s: Surface): Name { if s.scope.Kind? then s.scope.text else "unspecified" }

  ghost predicate Planned(d: Defaults, s: Surface) { exists item :: item in d.plan && item.surfaceId == s.id }

  /** Surfaces outside the plan are optional. */
  ghost predicate PlannedSurfacesFit(d: Defaults, p: Profile) {
    forall s | s in d.surfaces && Planned(d, s) :: SurfaceFits(s, p)
  }

  /** Both the value and the limit are declared, and the value is not above. */
  ghost predicate WithinLimit(value: Option<int>, limit: Option<int>) {
    match (value, limit)
    case (Some(v), Some(l)) => v <= l
    case _ => false
  }

  ghost predicate FeaturesSupported(plan: seq<TrainingPass>, p: Profile) {
    && p.orderedPasses
    && (forall item | item in plan :: item.checkpointAfter ==> p.checkpointBoundaries)
    && (forall item | item in plan :: item.prerequisites != [] ==> p.passPrerequisites)
  }

  /** Each pass comes after a pass over every surface it names as a prerequisite. */
  ghost predicate Linearises(plan: seq<TrainingPass>) {
    forall k, n | 0 <= k < |plan| && n in plan[k].prerequisites :: exists j :: 0 <= j < k && plan[j].surfaceId == n
  }

  ghost predicate PlanFits(d: Defaults, p: Profile) {
    && FeaturesSupported(d.plan, p)
    && (forall item | item in d.plan :: exists s :: s in d.surfaces && s.id == item.surfaceId)
    && Linearises(d.plan)
  }

  /** Without a list every tokenizer fits; with one, only those listed. */
  ghost predicate TokenizerFits(id: Option<Name>, listed: Option<seq<Name>>) {
    listed.Some? ==> id.Some? && id.value in listed.value
  }

  ghost predicate Compatible(view: Name, d: Defaults, p: Profile) {
    && IdentityFits(view, d.facts, p)
    && CapabilitiesDeclared(d, p)
    && PlannedSurfacesFit(d, p)
    && WithinLimit(d.facts.sequenceLength, p.maxSequenceLength)
    && WithinLimit(d.facts.vocabSize, p.maxVocabSize)
    && TokenizerFits(d.facts.tokenizerId, p.tokenizerIds)
    && (d.plan != [] ==> PlanFits(d, p))
  }

  // ---- no blockers is exactly that ----

  lemma IdentityExact(view: Name, f: Facts, p: Profile)
    ensures IdentityBlockers(view, f, p) == [] <==> IdentityFits(view, f, p)
  {
    assert IdentityBlockers(view, f, p) == [] <==> ValidationBlockers(view, f, p) == [] && VersionBlockers(f, p) == [];
  }

  lemma MissingExact(d: Defaults, p: Profile)
    ensures MissingFindings(Missing(d, p)) == [] <==> CapabilitiesDeclared(d, p)
  {
    var u := Unique(d.requiredCapabilities);
    assert Elems(u) == Elems(d.requiredCapabilities);
    assert multiset(Required(d)) == multiset(u);
    forall c ensures c in Required(d) <==> c in d.requiredCapabilities {
      assert c in Required(d) <==> c in multiset(Required(d));
      assert c in u <==> c in multiset(u);
      assert c in Elems(u) <==> c in Elems(d.requiredCapabilities);
    }
    if Missing(d, p) != [] {
      assert Missing(d, p)[0] in Missing(d, p);
    }
    if !CapabilitiesDeclared(d, p) {
      var c :| c in d.requiredCapabilities && c !in p.capabilities;
      assert c in Missing(d, p);
    }
  }

  lemma ProblemsExact(s: Surface, required: bool, p: Profile)
    ensures Problems(s, required, p) == [] <==> SurfaceFits(s, p)
  {
  }

  lemma SupportsIsFit(s: Surface, p: Profile)
    ensures Supports(p, s) <==> SurfaceFits(s, p)
  {
  }

  lemma PlannedIds(d: Defaults, s: Surface)
    ensures s.id in PassSurfaces(d.plan) <==> Planned(d, s)
  {
  }

  lemma {:induction false} SurfacesExact(surfaces: seq<Surface>, requiredIds: set<Name>, p: Profile)
    ensures SurfaceFindings(surfaces, requiredIds, true, p) == [] <==>
            forall s | s in surfaces && s.id in requiredIds :: SurfaceFits(s, p)
  {
    if surfaces != [] {
      var front, last := surfaces[..|surfaces| - 1], surfaces[|surfaces| - 1];
      assert surfaces == front + [last];
      SurfacesExact(front, requiredIds, p);
      ProblemsExact(last, true, p);
    }
  }

  lemma OutstandingExact(prerequisites: seq<Name>, completed: set<Name>)
    ensures Outstanding(prerequisites, completed) == [] <==> forall n | n in prerequisites :: n in completed
  {
    var left := Filter((n: Name) => n !in completed, prerequisites);
    var r := Outstanding(prerequisites, completed);
    assert multiset(r) == multiset(Unique(left));
    assert |r| == |multiset(r)| && |Unique(left)| == |multiset(Unique(left))|;
    assert Elems(Unique(left)) == Elems(left);
    if left != [] {
      assert left[0] in Elems(left);
      assert left[0] in Unique(left);
      assert left[0] in left;
    }
    if Unique(left) != [] {
      assert Unique(left)[0] in Elems(left);
    }
  }

  ghost predicate PassesInOrder(plan: seq<TrainingPass>, available: set<Name>) {
    (forall item | item in plan :: item.surfaceId in available) && Linearises(plan)
  }

  lemma LinearisesOneMore(plan: seq<TrainingPass>, last: TrainingPass)
    ensures Linearises(plan + [last]) <==> Linearises(plan) && forall n | n in last.prerequisites :: n in PassSurfaces(plan)
  {
    var all := plan + [last];
    if Linearises(all) {
      forall k, n | 0 <= k < |plan| && n in plan[k].prerequisites ensures exists j :: 0 <= j < k && plan[j].surfaceId == n {
        assert all[k] == plan[k];
        var j :| 0 <= j < k && all[j].surfaceId == n;
        assert plan[j].surfaceId == n;
      }
      forall n | n in last.prerequisites ensures n in PassSurfaces(plan) {
        assert all[|plan|] == last;
        var j :| 0 <= j < |plan| && all[j].surfaceId == n;
        assert plan[j] in plan;
      }
    }
    if Linearises(plan) && forall n | n in last.prerequisites :: n in PassSurfaces(plan) {
      forall k, n | 0 <= k < |all| && n in all[k].prerequisites ensures exists j :: 0 <= j < k && all[j].surfaceId == n {
        if k < |plan| {
          assert all[k] == plan[k];
          var j :| 0 <= j < k && plan[j].surfaceId == n;
          assert all[j].surfaceId == n;
        } else {
          assert n in PassSurfaces(plan);
          var item :| item in plan && item.surfaceId == n;
          var j :| 0 <= j < |plan| && plan[j] == item;
          assert all[j].surfaceId == n;
        }
      }
    }
  }

  lemma {:induction false} PassesExact(plan: seq<TrainingPass>, available: set<Name>)
    ensures PassBlockers(plan, available) == [] <==> PassesInOrder(plan, available)
  {
    if plan != [] {
      var front, last := plan[..|plan| - 1], plan[|plan| - 1];
      assert plan == front + [last];
      PassesExact(front, available);
      InOrderOneMore(front, last, available);
      PassExact(last, PassSurfaces(front), available);
    }
  }

  lemma PassExact(item: TrainingPass, completed: set<Name>, available: set<Name>)
    ensures PassProblems(item, completed, available) == [] <==>
            item.surfaceId in available && forall n | n in item.prerequisites :: n in completed
  {
    OutstandingExact(item.prerequisites, completed);
  }

  lemma InOrderOneMore(front: seq<TrainingPass>, last: TrainingPass, available: set<Name>)
    ensures PassesInOrder(front + [last], available) <==>
            PassesInOrder(front, available) && last.surfaceId in available && forall n | n in last.prerequisites :: n in PassSurfaces(front)
  {
    LinearisesOneMore(front, last);
  }

  /** A nonempty plan passes exactly when its features are supported, its surfaces exist and
      its order is a linearisation of its prerequisites. */
  lemma PlanExact(d: Defaults, p: Profile)
    requires d.plan != []
    ensures PlanBlockers(d.plan, AvailableIds(d.surfaces), p) == [] <==> PlanFits(d, p)
  {
    PassesExact(d.plan, AvailableIds(d.surfaces));
    assert FeatureBlockers(d.plan, p) == [] <==> FeaturesSupported(d.plan, p);
    if forall item | item in d.plan :: item.surfaceId in AvailableIds(d.surfaces) {
      forall item | item in d.plan ensures exists s :: s in d.surfaces && s.id == item.surfaceId {
        assert item.surfaceId in AvailableIds(d.surfaces);
      }
    }
  }

  lemma LateExact(d: Defaults, p: Profile)
    ensures DimensionBlockers(SequenceLength, d.facts.sequenceLength, p.maxSequenceLength) == [] <==>
            WithinLimit(d.facts.sequenceLength, p.maxSequenceLength)
    ensures DimensionBlockers(VocabSize, d.facts.vocabSize, p.maxVocabSize) == [] <==> WithinLimit(d.facts.vocabSize, p.maxVocabSize)
    ensures When(!TokenizerAccepted(d.facts.tokenizerId, p.tokenizerIds), UnsupportedTokenizer(d.facts.tokenizerId)) == [] <==>
            TokenizerFits(d.facts.tokenizerId, p.tokenizerIds)
  {
  }

  lemma NoneOfSeven(a: seq<Finding>, b: seq<Finding>, c: seq<Finding>, e: seq<Finding>, f: seq<Finding>)
    ensures a + b + c + e + f == [] <==> a == [] && b == [] && c == [] && e == [] && f == []
  {
    assert |a + b + c + e + f| == |a| + |b| + |c| + |e| + |f|;
  }

  /** The evaluation passes exactly when the artifact is compatible: optional surfaces and
      warnings never matter. */
  lemma VerdictExact(view: Name, d: Defaults, p: Profile)
    ensures Blockers(view, d, p) == [] <==> Compatible(view, d, p)
  {
    ArtifactExact(view, d, p);
    LateExact(d, p);
    PlanVerdict(d, p);
    NoneOfSeven(ArtifactBlockers(view, d, p),
                DimensionBlockers(SequenceLength, d.facts.sequenceLength, p.maxSequenceLength),
                DimensionBlockers(VocabSize, d.facts.vocabSize, p.maxVocabSize),
                When(!TokenizerAccepted(d.facts.tokenizerId, p.tokenizerIds), UnsupportedTokenizer(d.facts.tokenizerId)),
                PlanBlockers(d.plan, AvailableIds(d.surfaces), p));
  }

  lemma PlanVerdict(d: Defaults, p: Profile)
    ensures PlanBlockers(d.plan, AvailableIds(d.surfaces), p) == [] <==> d.plan == [] || PlanFits(d, p)
  {
    if d.plan != [] { PlanExact(d, p); }
  }

  lemma ArtifactExact(view: Name, d: Defaults, p: Profile)
    ensures ArtifactBlockers(view, d, p) == [] <==>
            IdentityFits(view, d.facts, p) && CapabilitiesDeclared(d, p) && PlannedSurfacesFit(d, p)
  {
    IdentityExact(view, d.facts, p);
    MissingExact(d, p);
    SurfacesExact(d.surfaces, PassSurfaces(d.plan), p);
    forall s: Surface ensures s.id in PassSurfaces(d.plan) <==> Planned(d, s) { PlannedIds(d, s); }
    NoneOfSeven(IdentityBlockers(view, d.facts, p), MissingFindings(Missing(d, p)),
                SurfaceFindings(d.surfaces, PassSurfaces(d.plan), true, p), [], []);
  }

  // ---- larger profiles ----

  ghost predicate Within<T>(a: seq<T>, b: seq<T>) { forall x | x in a :: x in b }

  /** A limit grows by being declared or raised. */
  ghost predicate Raised(a: Option<int>, b: Option<int>) { a.Some? ==> b.Some? && a.value <= b.value }

  /** A tokenizer list grows by gaining entries or being dropped. */
  ghost predicate Widened(a: Option<seq<Name>>, b: Option<seq<Name>>) { b.Some? ==> a.Some? && Within(a.value, b.value) }

  ghost predicate Enlarges(p: Profile, q: Profile) {
    && Within(p.contractFamilies, q.contractFamilies) && Within(p.tomeVersions, q.tomeVersions)
    && Within(p.coverPageVersions, q.coverPageVersions) && Within(p.surfaceKinds, q.surfaceKinds)
    && Within(p.surfaceSchemas, q.surfaceSchemas) && Within(p.capabilities, q.capabilities)
    && Within(p.targetScopes, q.targetScopes) && Within(p.producerStatuses, q.producerStatuses)
    && Raised(p.maxSequenceLength, q.maxSequenceLength) && Raised(p.maxVocabSize, q.maxVocabSize)
    && Widened(p.tokenizerIds, q.tokenizerIds)
    && (p.orderedPasses ==> q.orderedPasses) && (p.checkpointBoundaries ==> q.checkpointBoundaries)
    && (p.passPrerequisites ==> q.passPrerequisites)
  }

  lemma SupportGrows(p: Profile, q: Profile, s: Surface)
    requires Enlarges(p, q) && Supports(p, s)
    ensures Supports(q, s)
  {
  }

  lemma CompatibilityGrows(view: Name, d: Defaults, p: Profile, q: Profile)
    requires Enlarges(p, q) && Compatible(view, d, p)
    ensures Compatible(view, d, q)
  {
    assert IdentityFits(view, d.facts, q);
    assert CapabilitiesDeclared(d, q);
    forall s | s in d.surfaces && Planned(d, s) ensures SurfaceFits(s, q) {
      SupportsIsFit(s, p);
      SupportGrows(p, q, s);
      SupportsIsFit(s, q);
    }
    if d.plan != [] {
      assert FeaturesSupported(d.plan, q);
    }
  }

  /** Enlarging a profile never turns a pass into a failure, and keeps every supported surface. */
  lemma EnlargingKeepsPass(view: Name, d: Defaults, p: Profile, q: Profile)
    requires Enlarges(p, q)
    ensures Blockers(view, d, p) == [] ==> Blockers(view, d, q) == []
    ensures Within(SurfaceIds(d.surfaces, true, p), SurfaceIds(d.surfaces, true, q))
  {
    VerdictExact(view, d, p);
    VerdictExact(view, d, q);
    if Compatible(view, d, p) { CompatibilityGrows(view, d, p, q); }
    SupportedIdsGrow(d.surfaces, p, q);
  }

  lemma {:induction false} SupportedIdsGrow(surfaces: seq<Surface>, p: Profile, q: Profile)
    requires Enlarges(p, q)
    ensures Within(SurfaceIds(surfaces, true, p), SurfaceIds(surfaces, true, q))
  {
    if surfaces != [] {
      SupportedIdsGrow(surfaces[..|surfaces| - 1], p, q);
      if Supports(p, surfaces[|surfaces| - 1]) { SupportGrows(p, q, surfaces[|surfaces| - 1]); }
    }
  }

  /** An undeclared limit fails every artifact: declaring none is not the same as allowing all. */
  lemma UndeclaredLimitFails(view: Name, d: Defaults, p: Profile)
    requires p.maxSequenceLength.None? || p.maxVocabSize.None?
    ensures Blockers(view, d, p) != []
  {
    VerdictExact(view, d, p);
  }

  // ---- surfaces and findings ----

  function AllIds(surfaces: seq<Surface>): seq<Name> { Map((s: Surface) => s.id, surfaces) }

  lemma AllIdsOneMore(front: seq<Surface>, last: Surface)
    ensures AllIds(front + [last]) == AllIds(front) + [last.id]
  {
    var all := AllIds(front + [last]);
    assert all[|front|] == last.id;
    assert all[..|front|] == AllIds(front);
  }

  /** Supported and unsupported surfaces together are the available ones, each listed once as
      often as it occurs. */
  lemma {:induction false} SurfacesPartitioned(surfaces: seq<Surface>, p: Profile)
    ensures multiset(SurfaceIds(surfaces, true, p)) + multiset(SurfaceIds(surfaces, false, p)) == multiset(AllIds(surfaces))
  {
    if surfaces != [] {
      var front, last := surfaces[..|surfaces| - 1], surfaces[|surfaces| - 1];
      assert surfaces == front + [last];
      SurfacesPartitioned(front, p);
      AllIdsOneMore(front, last);
    }
  }

  /** An ID is listed as supported (unsupported) exactly when some surface with it is. */
  lemma {:induction false} ListedAsSupported(surfaces: seq<Surface>, supported: bool, p: Profile, id: Name)
    ensures id in SurfaceIds(surfaces, supported, p) <==> exists s :: s in surfaces && s.id == id && SurfaceFits(s, p) == supported
  {
    if surfaces != [] {
      var front, last := surfaces[..|surfaces| - 1], surfaces[|surfaces| - 1];
      assert surfaces == front + [last];
      ListedAsSupported(front, supported, p, id);
      SupportsIsFit(last, p);
      assert last in surfaces;
    }
  }

  /** Scope reports follow the surfaces; a failed one belongs to a planned surface that blocks,
      and a supported surface's scope passes. */
  lemma {:induction false} ScopesTell(surfaces: seq<Surface>, requiredIds: set<Name>, p: Profile, i: nat)
    requires i < |surfaces|
    ensures |Scopes(surfaces, requiredIds, p)| == |surfaces|
    ensures var s, r := surfaces[i], Scopes(surfaces, requiredIds, p)[i];
            && r.surfaceId == s.id && (r.required <==> s.id in requiredIds)
            && (r.status.Failed? ==> SurfaceFindings(surfaces, requiredIds, true, p) != [])
            && (SurfaceFits(s, p) ==> r.status.Passed?) && r.scopeKind == ScopeName(s)
            && (r.status.Passed? <==> s.known && ScopeName(s) in p.targetScopes)
            && (r.status.Failed? <==> s.known && r.required && ScopeName(s) !in p.targetScopes)
  {
    var front, last := surfaces[..|surfaces| - 1], surfaces[|surfaces| - 1];
    ScopesCount(front, requiredIds, p);
    if i < |front| {
      ScopesTell(front, requiredIds, p, i);
    } else {
      SurfacesExact(surfaces, requiredIds, p);
      assert last in surfaces;
    }
  }

  lemma {:induction false} ScopesCount(surfaces: seq<Surface>, requiredIds: set<Name>, p: Profile)
    ensures |Scopes(surfaces, requiredIds, p)| == |surfaces|
  {
    if surfaces != [] { ScopesCount(surfaces[..|surfaces| - 1], requiredIds, p); }
  }

  /** Deduplicating keeps each finding once, at its first place. */
  lemma {:induction false} FirstOccurrences<T>(s: seq<T>, k: nat)
    requires k < |s|
    ensures s[k] !in s[..k] ==> Unique(s[..k + 1]) == Unique(s[..k]) + [s[k]]
    ensures s[k] in s[..k] ==> Unique(s[..k + 1]) == Unique(s[..k])
  {
    assert s[..k + 1][..k] == s[..k];
    assert s[k] in Unique(s[..k]) <==> s[k] in Elems(Unique(s[..k]));
    assert s[k] in s[..k] <==> s[k] in Elems(s[..k]);
  }

  /** The required capabilities, once each and ascending, split into the declared and the
      missing ones, both ascending. */
  lemma CapabilitiesSplit(d: Defaults, p: Profile)
    ensures StrictlySorted(StringLt, Required(d)) && Elems(Required(d)) == Elems(d.requiredCapabilities)
    ensures multiset(Declared(d, p)) + multiset(Missing(d, p)) == multiset(Required(d))
    ensures StrictlySorted(StringLt, Declared(d, p)) && StrictlySorted(StringLt, Missing(d, p))
    ensures Missing(d, p) == [] <==> CapabilitiesDeclared(d, p)
  {
    StringOrder();
    UniqueAscends(StringLt, d.requiredCapabilities);
    FilterStrictlySorted(StringLt, (c: Name) => c in p.capabilities, Required(d));
    FilterStrictlySorted(StringLt, (c: Name) => c !in p.capabilities, Required(d));
    SplitComplement(Required(d), p);
    MissingExact(d, p);
    assert |MissingFindings(Missing(d, p))| == |Missing(d, p)|;
  }

  lemma SplitComplement(required: seq<Name>, p: Profile)
    ensures multiset(Filter((c: Name) => c in p.capabilities, required)) + multiset(Filter((c: Name) => c !in p.capabilities, required))
            == multiset(required)
  {
    var has := (c: Name) => c in p.capabilities;
    var lacks := (c: Name) => c !in p.capabilities;
    FilterComplement(has, lacks, required);
  }
}
