/** The balanced training / held-out split. */
module SplitPolicy {
  import opened Basics
  import opened Ordering

  datatype Partition = Training | HeldOut

  datatype SplitError = BadIdentity | EmptyId | DuplicateExample | TooFewExemplars | UnknownExemplar

  /** assignments in canonical key order, bound to the source identity. */
  datatype Split = Split(source: string, order: seq<Text>, assignments: map<Text, Partition>)

  predicate LowerHex(c: char) { '0' <= c <= '9' || 'a' <= c <= 'f' }

  /** sha256:[0-9a-f]{64} */
  predicate IsSha256(s: string) {
    |s| == 71 && s[..7] == "sha256:" && forall i :: 7 <= i < 71 ==> LowerHex(s[i])
  }

  /** tuple(sorted(set(values))) */
  function CanonicalIds(s: seq<Text>): seq<Text> { Sort(TextLt, Unique(s)) }

  /** What is checked before anything is assigned. */
  function Checks(source: string, exampleIds: seq<Text>, exemplarIds: seq<Text>): Option<SplitError> {
    if !IsSha256(source) then Some(BadIdentity)
    else if [] in exampleIds then Some(EmptyId)
    else if !Distinct(exampleIds) then Some(DuplicateExample)
    else if [] in exemplarIds then Some(EmptyId)
    else if |CanonicalIds(exemplarIds)| < 2 then Some(TooFewExemplars)
    else if exists x :: x in exemplarIds && x !in exampleIds then Some(UnknownExemplar)
    else None
  }

  /** How many IDs before position i are not pinned. */
  function Rank(examples: seq<Text>, first: Text, last: Text, i: nat): (r: nat)
    requires i <= |examples|
    ensures r <= i
  {
    if i == 0 then 0
    else Rank(examples, first, last, i - 1) + if examples[i - 1] == first || examples[i - 1] == last then 0 else 1
  }

  /** The partition of the ID at position i: the outer exemplars are pinned, the j-th other
      ID goes to training exactly when j is even. */
  function Side(examples: seq<Text>, first: Text, last: Text, i: nat): Partition
    requires i < |examples|
  {
    if examples[i] == first then Training
    else if examples[i] == last then HeldOut
    else if Rank(examples, first, last, i) % 2 == 0 then Training else HeldOut
  }

  /** The assignment that alternates over the canonical order. */
  ghost predicate Alternates(examples: seq<Text>, first: Text, last: Text, a: map<Text, Partition>) {
    a.Keys == Elems(examples) && forall i | 0 <= i < |examples| :: a[examples[i]] == Side(examples, first, last, i)
  }

  lemma NotBefore(s: seq<Text>, i: nat)
    requires Distinct(s) && i < |s|
    ensures s[i] !in Elems(s[..i]) && Elems(s[..i + 1]) == Elems(s[..i]) + {s[i]}
    ensures forall k | 0 <= k < i :: s[k] != s[i]
  {
    assert s[..i + 1] == s[..i] + [s[i]];
  }

  /** The dicts after the first i IDs. */
  ghost predicate SoFar(examples: seq<Text>, first: Text, last: Text, i: nat, a: map<Text, Partition>, training: nat, heldOut: nat)
    requires i <= |examples|
  {
    && a.Keys == Elems(examples[..i]) + {first, last}
    && first in a && a[first] == Training && last in a && a[last] == HeldOut
    && (forall k | 0 <= k < i :: examples[k] in a && a[examples[k]] == Side(examples, first, last, k))
    && training == 1 + (Rank(examples, first, last, i) + 1) / 2
    && heldOut == 1 + Rank(examples, first, last, i) / 2
  }

  lemma SoFarPinned(examples: seq<Text>, first: Text, last: Text, i: nat, a: map<Text, Partition>, training: nat, heldOut: nat)
    requires Distinct(examples) && i < |examples| && SoFar(examples, first, last, i, a, training, heldOut)
    ensures examples[i] in a <==> examples[i] == first || examples[i] == last
    ensures examples[i] in a ==> SoFar(examples, first, last, i + 1, a, training, heldOut)
  {
    NotBefore(examples, i);
    assert examples[i] in a <==> examples[i] == first || examples[i] == last;
    if examples[i] in a { SoFarSkipped(examples, first, last, i, a, training, heldOut); }
  }

  lemma SoFarSkipped(examples: seq<Text>, first: Text, last: Text, i: nat, a: map<Text, Partition>, training: nat, heldOut: nat)
    requires i < |examples| && SoFar(examples, first, last, i, a, training, heldOut)
    requires Elems(examples[..i + 1]) == Elems(examples[..i]) + {examples[i]} && (examples[i] == first || examples[i] == last)
    ensures SoFar(examples, first, last, i + 1, a, training, heldOut)
  {
    assert Rank(examples, first, last, i + 1) == Rank(examples, first, last, i);
    assert a[examples[i]] == Side(examples, first, last, i);
  }

  /** Taking the smaller side, training on a tie, is alternating. */
  lemma SoFarAssigned(examples: seq<Text>, first: Text, last: Text, i: nat, a: map<Text, Partition>, training: nat, heldOut: nat)
    requires Distinct(examples) && i < |examples| && first != last
    requires examples[i] !in a && SoFar(examples, first, last, i, a, training, heldOut)
    ensures training <= heldOut ==> SoFar(examples, first, last, i + 1, a[examples[i] := Training], training + 1, heldOut)
    ensures training > heldOut ==> SoFar(examples, first, last, i + 1, a[examples[i] := HeldOut], training, heldOut + 1)
  {
    NotBefore(examples, i);
    var rank := Rank(examples, first, last, i);
    assert Rank(examples, first, last, i + 1) == rank + 1;
    assert training <= heldOut <==> rank % 2 == 0;
  }

  lemma AllAssigned(examples: seq<Text>, first: Text, last: Text, a: map<Text, Partition>, training: nat, heldOut: nat)
    requires SoFar(examples, first, last, |examples|, a, training, heldOut)
    ensures forall id | id in examples :: id in a
    ensures forall ordered: map<Text, Partition> | ordered.Keys == Elems(examples) && (forall id | id in ordered :: id in a && ordered[id] == a[id]) ::
              Alternates(examples, first, last, ordered)
  {
    assert examples[..|examples|] == examples;
    forall id | id in examples ensures id in a { assert id in Elems(examples); }
    forall ordered: map<Text, Partition> | ordered.Keys == Elems(examples) && (forall id | id in ordered :: id in a && ordered[id] == a[id])
      ensures Alternates(examples, first, last, ordered)
    {
      forall i | 0 <= i < |examples| ensures ordered[examples[i]] == Side(examples, first, last, i) {
        assert examples[i] in Elems(examples);
      }
    }
  }

  /** One turn of the greedy loop: a pinned ID keeps its side, any other takes the smaller
      one, training on a tie. */
  method AssignNext(examples: seq<Text>, first: Text, last: Text, i: nat,
                    a: map<Text, Partition>, inTraining: nat, inHeldOut: nat)
    returns (assignments: map<Text, Partition>, training: nat, heldOut: nat)
    requires Distinct(examples) && first != last && i < |examples|
    requires SoFar(examples, first, last, i, a, inTraining, inHeldOut)
    ensures SoFar(examples, first, last, i + 1, assignments, training, heldOut)
  {
    assignments, training, heldOut := a, inTraining, inHeldOut;
    var id := examples[i];
    if id in assignments {
      SoFarPinned(examples, first, last, i, a, training, heldOut);
    } else {
      SoFarAssigned(examples, first, last, i, a, training, heldOut);
      if training <= heldOut {
        assignments := assignments[id := Training];
        training := training + 1;
      } else {
        assignments := assignments[id := HeldOut];
        heldOut := heldOut + 1;
      }
    }
  }

  /** The greedy loop. */
  method AssignGreedily(examples: seq<Text>, first: Text, last: Text) returns (ordered: map<Text, Partition>)
    requires Distinct(examples) && first in examples && last in examples && first != last
    ensures Alternates(examples, first, last, ordered)
  {
    var assignments: map<Text, Partition> := map[first := Training, last := HeldOut];
    var training, heldOut := 1, 1;
    var i := 0;
    while i < |examples|
      invariant 0 <= i <= |examples|
      invariant SoFar(examples, first, last, i, assignments, training, heldOut)
    {
      assignments, training, heldOut := AssignNext(examples, first, last, i, assignments, training, heldOut);
      i := i + 1;
    }
    AllAssigned(examples, first, last, assignments, training, heldOut);
    ordered := map id | id in examples :: assignments[id];
  }

  method SplitExamples(source: string, exampleIds: seq<Text>, exemplarIds: seq<Text>)
    returns (r: Result<Split, SplitError>)
    ensures Checks(source, exampleIds, exemplarIds).Some? ==> r == Err(Checks(source, exampleIds, exemplarIds).value)
    ensures Checks(source, exampleIds, exemplarIds).None? ==> r.Ok? && IsSplit(source, exampleIds, exemplarIds, r.value)
  {
    var failed := Checks(source, exampleIds, exemplarIds);
    if failed.Some? { return Err(failed.value); }
    var examples := Sort(TextLt, exampleIds);
    var exemplars := CanonicalIds(exemplarIds);
    PinsAreExamples(source, exampleIds, exemplarIds);
    var ordered := AssignGreedily(examples, exemplars[0], exemplars[|exemplars| - 1]);
    r := Ok(Split(source, examples, ordered));
  }

  ghost predicate IsSplit(source: string, exampleIds: seq<Text>, exemplarIds: seq<Text>, s: Split) {
    var exemplars := CanonicalIds(exemplarIds);
    && |exemplars| >= 2 && s.source == source && s.order == Sort(TextLt, exampleIds)
    && Alternates(s.order, exemplars[0], exemplars[|exemplars| - 1], s.assignments)
  }

  lemma SortDistinct(s: seq<Text>)
    requires Distinct(s)
    ensures Distinct(Sort(TextLt, s)) && Elems(Sort(TextLt, s)) == Elems(s) && |Sort(TextLt, s)| == |s|
    ensures StrictlySorted(TextLt, Sort(TextLt, s))
  {
    TextOrder();
    SortIsAscending(TextLt, s);
    StrictlySortedDistinct(TextLt, Sort(TextLt, s));
    assert |multiset(s)| == |s|;
    assert |multiset(Sort(TextLt, s))| == |Sort(TextLt, s)|;
  }

  /** The canonically first and last exemplars are two of the distinct examples. */
  ghost predicate Pinned(exampleIds: seq<Text>, exemplarIds: seq<Text>) {
    var examples, xs := Sort(TextLt, exampleIds), CanonicalIds(exemplarIds);
    && Distinct(examples) && Elems(examples) == Elems(exampleIds) && |examples| == |exampleIds|
    && |xs| >= 2 && xs[0] != xs[|xs| - 1] && xs[0] in examples && xs[|xs| - 1] in examples
    && xs[0] in exemplarIds && xs[|xs| - 1] in exemplarIds
  }

  lemma PinsAreExamples(source: string, exampleIds: seq<Text>, exemplarIds: seq<Text>)
    requires Checks(source, exampleIds, exemplarIds).None?
    ensures Pinned(exampleIds, exemplarIds)
  {
    assert Distinct(exampleIds);
    SortDistinct(exampleIds);
    SortDistinct(Unique(exemplarIds));
    var xs := CanonicalIds(exemplarIds);
    assert xs[0] in Elems(xs) && xs[|xs| - 1] in Elems(xs);
    assert xs[0] in Elems(exemplarIds) && xs[|xs| - 1] in Elems(exemplarIds);
    assert xs[0] in Elems(exampleIds) && xs[|xs| - 1] in Elems(exampleIds);
  }

  // ---- properties of every accepted split ----

  /** training_example_ids or held_out_example_ids. */
  function Members(order: seq<Text>, a: map<Text, Partition>, side: Partition): seq<Text> {
    if order == [] then []
    else Members(order[..|order| - 1], a, side) +
         if order[|order| - 1] in a && a[order[|order| - 1]] == side then [order[|order| - 1]] else []
  }

  lemma MembersSnoc(order: seq<Text>, id: Text, a: map<Text, Partition>, side: Partition)
    requires id in a
    ensures |Members(order + [id], a, side)| == |Members(order, a, side)| + if a[id] == side then 1 else 0
  {
    var all := order + [id];
    assert all[..|all| - 1] == order;
  }

  /** 1 once x has been met among the first i IDs. */
  function Met(examples: seq<Text>, x: Text, i: nat): nat
    requires i <= |examples|
  {
    if x in examples[..i] then 1 else 0
  }

  lemma MetNext(examples: seq<Text>, x: Text, i: nat)
    requires Distinct(examples) && i < |examples|
    ensures Met(examples, x, i + 1) == Met(examples, x, i) + if examples[i] == x then 1 else 0
  {
    NotBefore(examples, i);
    assert examples[..i + 1] == examples[..i] + [examples[i]];
    assert x in examples[..i] <==> x in Elems(examples[..i]);
  }

  /** Among the first i IDs: one more for each pin met, and the rest shared out in turn. */
  ghost predicate Counted(examples: seq<Text>, first: Text, last: Text, a: map<Text, Partition>, i: nat)
    requires i <= |examples|
  {
    var r := Rank(examples, first, last, i);
    && |Members(examples[..i], a, Training)| == (r + 1) / 2 + Met(examples, first, i)
    && |Members(examples[..i], a, HeldOut)| == r / 2 + Met(examples, last, i)
    && i == r + Met(examples, first, i) + Met(examples, last, i)
  }

  lemma CountedNext(examples: seq<Text>, first: Text, last: Text, a: map<Text, Partition>, i: nat)
    requires Distinct(examples) && first != last && i < |examples| && Counted(examples, first, last, a, i)
    requires examples[i] in a && a[examples[i]] == Side(examples, first, last, i)
    ensures Counted(examples, first, last, a, i + 1)
  {
    MetNext(examples, first, i);
    MetNext(examples, last, i);
    MembersNext(examples, a, Training, i);
    MembersNext(examples, a, HeldOut, i);
  }

  lemma MembersNext(examples: seq<Text>, a: map<Text, Partition>, side: Partition, i: nat)
    requires i < |examples| && examples[i] in a
    ensures |Members(examples[..i + 1], a, side)| == |Members(examples[..i], a, side)| + if a[examples[i]] == side then 1 else 0
  {
    assert examples[..i + 1] == examples[..i] + [examples[i]];
    MembersSnoc(examples[..i], examples[i], a, side);
  }

  lemma AlternatesAt(examples: seq<Text>, first: Text, last: Text, a: map<Text, Partition>, i: nat)
    requires Alternates(examples, first, last, a) && i < |examples|
    ensures examples[i] in a && a[examples[i]] == Side(examples, first, last, i)
  {
    assert examples[i] in Elems(examples);
  }

  lemma {:induction false} MembersCount(examples: seq<Text>, first: Text, last: Text, a: map<Text, Partition>, i: nat)
    requires Distinct(examples) && first != last && Alternates(examples, first, last, a) && i <= |examples|
    ensures Counted(examples, first, last, a, i)
  {
    if i == 0 {
      CountedNone(examples, first, last, a);
    } else {
      MembersCount(examples, first, last, a, i - 1);
      CountedStep(examples, first, last, a, i - 1);
    }
  }

  lemma CountedNone(examples: seq<Text>, first: Text, last: Text, a: map<Text, Partition>)
    ensures Counted(examples, first, last, a, 0)
  {
    assert examples[..0] == [];
  }

  lemma CountedStep(examples: seq<Text>, first: Text, last: Text, a: map<Text, Partition>, i: nat)
    requires Distinct(examples) && first != last && Alternates(examples, first, last, a)
    requires i < |examples| && Counted(examples, first, last, a, i)
    ensures Counted(examples, first, last, a, i + 1)
  {
    AlternatesAt(examples, first, last, a, i);
    CountedNext(examples, first, last, a, i);
  }

  /** Every rank below the last one belongs to an ID that is not pinned. */
  lemma {:induction false} RankIsTaken(examples: seq<Text>, first: Text, last: Text, n: nat, r: nat) returns (i: nat)
    requires n <= |examples| && r < Rank(examples, first, last, n)
    ensures i < n && Rank(examples, first, last, i) == r && examples[i] != first && examples[i] != last
  {
    i := n - 1;
    if Rank(examples, first, last, i) > r || examples[i] == first || examples[i] == last {
      i := RankIsTaken(examples, first, last, n - 1, r);
    }
  }

  /** Among five or more examples a held-out one comes before a training one. */
  lemma HeldOutBeforeTraining(examples: seq<Text>, first: Text, last: Text, a: map<Text, Partition>) returns (i: nat, j: nat)
    requires Distinct(examples) && first != last && Alternates(examples, first, last, a) && |examples| >= 5
    ensures i < j < |examples| && examples[i] in a && examples[j] in a
    ensures a[examples[i]] == HeldOut && a[examples[j]] == Training
  {
    MembersCount(examples, first, last, a, |examples|);
    j := RankIsTaken(examples, first, last, |examples|, 2);
    i := RankIsTaken(examples, first, last, j, 1);
    AlternatesAt(examples, first, last, a, i);
    AlternatesAt(examples, first, last, a, j);
  }

  lemma {:induction false} MemberOf(order: seq<Text>, a: map<Text, Partition>, side: Partition, id: Text)
    ensures id in Members(order, a, side) <==> id in order && id in a && a[id] == side
  {
    if order != [] {
      assert order == order[..|order| - 1] + [order[|order| - 1]];
      MemberOf(order[..|order| - 1], a, side, id);
    }
  }

  /** Training holds ceil(n/2) and held-out floor(n/2) of the n examples. */
  lemma SplitBalanced(source: string, exampleIds: seq<Text>, exemplarIds: seq<Text>, s: Split)
    requires Checks(source, exampleIds, exemplarIds).None? && IsSplit(source, exampleIds, exemplarIds, s)
    ensures |Members(s.order, s.assignments, Training)| == (|exampleIds| + 1) / 2
    ensures |Members(s.order, s.assignments, HeldOut)| == |exampleIds| / 2
  {
    var first, last := Pins(source, exampleIds, exemplarIds, s);
    BalancedCounts(s.order, first, last, s.assignments);
  }

  lemma Pins(source: string, exampleIds: seq<Text>, exemplarIds: seq<Text>, s: Split) returns (first: Text, last: Text)
    requires Checks(source, exampleIds, exemplarIds).None? && IsSplit(source, exampleIds, exemplarIds, s)
    ensures |CanonicalIds(exemplarIds)| >= 2
    ensures first == CanonicalIds(exemplarIds)[0] && last == CanonicalIds(exemplarIds)[|CanonicalIds(exemplarIds)| - 1]
    ensures first != last && first in exemplarIds && last in exemplarIds && first in s.order && last in s.order
    ensures Distinct(s.order) && |s.order| == |exampleIds| && Alternates(s.order, first, last, s.assignments)
  {
    PinsAreExamples(source, exampleIds, exemplarIds);
    first, last := PinsOf(source, exampleIds, exemplarIds, s);
  }

  lemma PinsOf(source: string, exampleIds: seq<Text>, exemplarIds: seq<Text>, s: Split) returns (first: Text, last: Text)
    requires Pinned(exampleIds, exemplarIds) && IsSplit(source, exampleIds, exemplarIds, s)
    ensures |CanonicalIds(exemplarIds)| >= 2
    ensures first == CanonicalIds(exemplarIds)[0] && last == CanonicalIds(exemplarIds)[|CanonicalIds(exemplarIds)| - 1]
    ensures first != last && first in exemplarIds && last in exemplarIds && first in s.order && last in s.order
    ensures Distinct(s.order) && |s.order| == |exampleIds| && Alternates(s.order, first, last, s.assignments)
  {
    var xs := CanonicalIds(exemplarIds);
    first, last := xs[0], xs[|xs| - 1];
  }

  lemma BalancedCounts(order: seq<Text>, first: Text, last: Text, a: map<Text, Partition>)
    requires Distinct(order) && first != last && first in order && last in order && Alternates(order, first, last, a)
    ensures |Members(order, a, Training)| == (|order| + 1) / 2 && |Members(order, a, HeldOut)| == |order| / 2
  {
    MembersCount(order, first, last, a, |order|);
    assert order[..|order|] == order;
    assert Met(order, first, |order|) == 1 && Met(order, last, |order|) == 1;
  }

  /** Each example is on exactly one side. */
  lemma SplitAssignsOnce(source: string, exampleIds: seq<Text>, exemplarIds: seq<Text>, s: Split, id: Text)
    requires Checks(source, exampleIds, exemplarIds).None? && IsSplit(source, exampleIds, exemplarIds, s)
    ensures id in s.assignments <==> id in exampleIds
    ensures id in exampleIds ==>
              (id in Members(s.order, s.assignments, Training) <==> id !in Members(s.order, s.assignments, HeldOut))
  {
    PinsAreExamples(source, exampleIds, exemplarIds);
    MemberOf(s.order, s.assignments, Training, id);
    MemberOf(s.order, s.assignments, HeldOut, id);
    assert id in exampleIds <==> id in Elems(exampleIds);
    assert id in s.order <==> id in Elems(s.order);
  }

  /** Each side holds an exemplar-bearing ID: the canonically first and last ones. */
  lemma SplitHasExemplars(source: string, exampleIds: seq<Text>, exemplarIds: seq<Text>, s: Split)
    requires Checks(source, exampleIds, exemplarIds).None? && IsSplit(source, exampleIds, exemplarIds, s)
    ensures var xs := CanonicalIds(exemplarIds);
            && |xs| >= 2 && xs[0] in exemplarIds && xs[|xs| - 1] in exemplarIds
            && xs[0] in Members(s.order, s.assignments, Training)
            && xs[|xs| - 1] in Members(s.order, s.assignments, HeldOut)
  {
    var first, last := Pins(source, exampleIds, exemplarIds, s);
    PinsKeepSides(s.order, first, last, s.assignments);
  }

  lemma PinsKeepSides(order: seq<Text>, first: Text, last: Text, a: map<Text, Partition>)
    requires first != last && first in order && last in order && Alternates(order, first, last, a)
    ensures first in Members(order, a, Training) && last in Members(order, a, HeldOut)
  {
    MemberOf(order, a, Training, first);
    MemberOf(order, a, HeldOut, last);
    var k :| 0 <= k < |order| && order[k] == first;
    AlternatesAt(order, first, last, a, k);
    var m :| 0 <= m < |order| && order[m] == last;
    AlternatesAt(order, first, last, a, m);
  }

  lemma AlternatesOnce(examples: seq<Text>, first: Text, last: Text, a: map<Text, Partition>, b: map<Text, Partition>)
    requires Alternates(examples, first, last, a) && Alternates(examples, first, last, b)
    ensures a == b
  {
    forall id | id in a ensures id in b && a[id] == b[id] {
      assert id in Elems(examples);
      var i :| 0 <= i < |examples| && examples[i] == id;
    }
    assert a.Keys == b.Keys;
  }

  lemma CanonicalIdsForget(x1: seq<Text>, x2: seq<Text>)
    requires Elems(x1) == Elems(x2)
    ensures CanonicalIds(x1) == CanonicalIds(x2)
  {
    TextOrder();
    SortIsAscending(TextLt, Unique(x1));
    SortIsAscending(TextLt, Unique(x2));
  }

  /** The split depends on the examples and the set of exemplar IDs, not on how they are listed. */
  lemma SplitForgetsOrder(source: string, e1: seq<Text>, x1: seq<Text>, e2: seq<Text>, x2: seq<Text>, s1: Split, s2: Split)
    requires multiset(e1) == multiset(e2) && Elems(x1) == Elems(x2)
    requires Checks(source, e1, x1).None? && IsSplit(source, e1, x1, s1)
    ensures Checks(source, e2, x2).None?
    ensures IsSplit(source, e2, x2, s2) ==> s1 == s2
  {
    ChecksForgetOrder(source, e1, x1, e2, x2);
    if IsSplit(source, e2, x2, s2) { SameSplit(source, e1, x1, e2, x2, s1, s2); }
  }

  lemma SameSplit(source: string, e1: seq<Text>, x1: seq<Text>, e2: seq<Text>, x2: seq<Text>, s1: Split, s2: Split)
    requires multiset(e1) == multiset(e2) && Elems(x1) == Elems(x2)
    requires Checks(source, e1, x1).None? && IsSplit(source, e1, x1, s1) && IsSplit(source, e2, x2, s2)
    ensures s1 == s2
  {
    TextOrder();
    SortForgetsOrder(TextLt, e1, e2);
    CanonicalIdsForget(x1, x2);
    var xs := CanonicalIds(x1);
    AlternatesOnce(s1.order, xs[0], xs[|xs| - 1], s1.assignments, s2.assignments);
  }

  lemma ChecksForgetOrder(source: string, e1: seq<Text>, x1: seq<Text>, e2: seq<Text>, x2: seq<Text>)
    requires multiset(e1) == multiset(e2) && Elems(x1) == Elems(x2)
    requires Checks(source, e1, x1).None?
    ensures Checks(source, e2, x2).None?
  {
    CanonicalIdsForget(x1, x2);
    assert Distinct(e1);
    DistinctPermutes(e1, e2);
    SameMembership(e1, x1, e2, x2);
  }

  lemma SameMembership(e1: seq<Text>, x1: seq<Text>, e2: seq<Text>, x2: seq<Text>)
    requires multiset(e1) == multiset(e2) && Elems(x1) == Elems(x2)
    ensures forall x :: (x in x1 <==> x in x2) && (x in e1 <==> x in e2)
  {
    forall x ensures (x in x1 <==> x in x2) && (x in e1 <==> x in e2) {
      assert x in Elems(x1) <==> x in Elems(x2);
      assert x in multiset(e1) <==> x in multiset(e2);
    }
  }

  // ---- which side an example is on ----

  ghost predicate LeastOf(xs: seq<Text>, x: Text) { x in xs && forall y | y in xs :: y == x || TextLt(x, y) }

  ghost predicate GreatestOf(xs: seq<Text>, x: Text) { x in xs && forall y | y in xs :: y == x || TextLt(y, x) }

  /** The examples before this one that are neither the least nor the greatest exemplar. */
  ghost function UnpinnedBefore(exampleIds: seq<Text>, exemplarIds: seq<Text>, id: Text): set<Text> {
    set y | y in exampleIds && TextLt(y, id) && !LeastOf(exemplarIds, y) && !GreatestOf(exemplarIds, y)
  }

  lemma EndsAreExtreme(xs: seq<Text>, ends: seq<Text>, x: Text)
    requires ends != [] && StrictlySorted(TextLt, ends) && forall y :: y in ends <==> y in xs
    ensures LeastOf(xs, x) <==> x == ends[0]
    ensures GreatestOf(xs, x) <==> x == ends[|ends| - 1]
  {
    TextOrder();
    LeastIsFirst(xs, ends, x);
    GreatestIsLast(xs, ends, x);
  }

  lemma LeastIsFirst(xs: seq<Text>, ends: seq<Text>, x: Text)
    requires TotalOrder(TextLt) && ends != [] && StrictlySorted(TextLt, ends) && forall y :: y in ends <==> y in xs
    ensures LeastOf(xs, x) <==> x == ends[0]
  {
    assert ends[0] in ends;
    forall y | y in xs ensures y == ends[0] || TextLt(ends[0], y) { var k :| 0 <= k < |ends| && ends[k] == y; }
  }

  lemma GreatestIsLast(xs: seq<Text>, ends: seq<Text>, x: Text)
    requires TotalOrder(TextLt) && ends != [] && StrictlySorted(TextLt, ends) && forall y :: y in ends <==> y in xs
    ensures GreatestOf(xs, x) <==> x == ends[|ends| - 1]
  {
    assert ends[|ends| - 1] in ends;
    forall y | y in xs ensures y == ends[|ends| - 1] || TextLt(y, ends[|ends| - 1]) { var k :| 0 <= k < |ends| && ends[k] == y; }
  }

  lemma CanonicalAre(xs: seq<Text>)
    ensures StrictlySorted(TextLt, CanonicalIds(xs)) && forall y :: y in CanonicalIds(xs) <==> y in xs
  {
    SortDistinct(Unique(xs));
    forall y ensures y in CanonicalIds(xs) <==> y in xs {
      assert y in CanonicalIds(xs) <==> y in Elems(CanonicalIds(xs));
      assert y in Unique(xs) <==> y in Elems(Unique(xs));
      assert y in xs <==> y in Elems(xs);
    }
  }

  ghost function Unpinned(examples: seq<Text>, first: Text, last: Text): set<Text> {
    set y | y in examples && y != first && y != last
  }

  lemma {:induction false} RankCounts(examples: seq<Text>, first: Text, last: Text, i: nat)
    requires Distinct(examples) && i <= |examples|
    ensures Rank(examples, first, last, i) == |Unpinned(examples[..i], first, last)|
  {
    if i == 0 {
      assert Unpinned(examples[..0], first, last) == {};
    } else {
      RankCounts(examples, first, last, i - 1);
      OneMoreUnpinned(examples, first, last, i - 1);
    }
  }

  lemma OneMoreUnpinned(examples: seq<Text>, first: Text, last: Text, i: nat)
    requires Distinct(examples) && i < |examples|
    ensures |Unpinned(examples[..i + 1], first, last)| ==
            |Unpinned(examples[..i], first, last)| + if examples[i] == first || examples[i] == last then 0 else 1
  {
    NotBefore(examples, i);
    assert examples[..i + 1] == examples[..i] + [examples[i]];
    assert examples[i] in examples[..i] <==> examples[i] in Elems(examples[..i]);
    UnpinnedSnoc(examples[..i], examples[i], first, last);
  }

  lemma UnpinnedSnoc(front: seq<Text>, x: Text, first: Text, last: Text)
    requires x !in front
    ensures |Unpinned(front + [x], first, last)| == |Unpinned(front, first, last)| + if x == first || x == last then 0 else 1
  {
    var more: set<Text> := if x == first || x == last then {} else {x};
    forall y ensures y in Unpinned(front + [x], first, last) <==> y in Unpinned(front, first, last) + more {}
    assert Unpinned(front + [x], first, last) == Unpinned(front, first, last) + more;
  }

  lemma SmallerAreBefore(examples: seq<Text>, i: nat, y: Text)
    requires StrictlySorted(TextLt, examples) && i < |examples|
    ensures y in examples[..i] <==> y in examples && TextLt(y, examples[i])
  {
    TextOrder();
    if y in examples && TextLt(y, examples[i]) {
      var k :| 0 <= k < |examples| && examples[k] == y;
      assert k < i;
      assert examples[..i][k] == y;
    }
  }

  /** The least exemplar trains, the greatest is held out, and any other example trains exactly
      when an even number of such examples come before it. */
  lemma SideSpelledOut(source: string, exampleIds: seq<Text>, exemplarIds: seq<Text>, s: Split, id: Text)
    requires Checks(source, exampleIds, exemplarIds).None? && IsSplit(source, exampleIds, exemplarIds, s) && id in exampleIds
    ensures id in s.assignments
    ensures LeastOf(exemplarIds, id) ==> s.assignments[id] == Training
    ensures GreatestOf(exemplarIds, id) ==> s.assignments[id] == HeldOut
    ensures !LeastOf(exemplarIds, id) && !GreatestOf(exemplarIds, id) ==>
              (s.assignments[id] == Training <==> |UnpinnedBefore(exampleIds, exemplarIds, id)| % 2 == 0)
  {
    var first, last := Pins(source, exampleIds, exemplarIds, s);
    CanonicalAre(exemplarIds);
    forall y ensures (LeastOf(exemplarIds, y) <==> y == first) && (GreatestOf(exemplarIds, y) <==> y == last) {
      EndsAreExtreme(exemplarIds, CanonicalIds(exemplarIds), y);
    }
    OrderHolds(source, exampleIds, exemplarIds, s);
    SideOfRank(exampleIds, exemplarIds, first, last, s, id);
  }

  lemma SideOfRank(exampleIds: seq<Text>, exemplarIds: seq<Text>, first: Text, last: Text, s: Split, id: Text)
    requires first != last && Distinct(s.order) && Alternates(s.order, first, last, s.assignments)
    requires StrictlySorted(TextLt, s.order) && (forall y :: y in s.order <==> y in exampleIds) && id in exampleIds
    requires forall y :: (LeastOf(exemplarIds, y) <==> y == first) && (GreatestOf(exemplarIds, y) <==> y == last)
    ensures id in s.assignments
    ensures id == first ==> s.assignments[id] == Training
    ensures id == last ==> s.assignments[id] == HeldOut
    ensures id != first && id != last ==>
              (s.assignments[id] == Training <==> |UnpinnedBefore(exampleIds, exemplarIds, id)| % 2 == 0)
  {
    var i :| 0 <= i < |s.order| && s.order[i] == id;
    AlternatesAt(s.order, first, last, s.assignments, i);
    RankCounts(s.order, first, last, i);
    SameUnpinned(exampleIds, exemplarIds, first, last, s.order, i);
  }

  lemma SameUnpinned(exampleIds: seq<Text>, exemplarIds: seq<Text>, first: Text, last: Text, order: seq<Text>, i: nat)
    requires i < |order| && StrictlySorted(TextLt, order) && forall y :: y in order <==> y in exampleIds
    requires forall y :: (LeastOf(exemplarIds, y) <==> y == first) && (GreatestOf(exemplarIds, y) <==> y == last)
    ensures Unpinned(order[..i], first, last) == UnpinnedBefore(exampleIds, exemplarIds, order[i])
  {
    forall y ensures y in order[..i] <==> y in exampleIds && TextLt(y, order[i]) { SmallerAreBefore(order, i, y); }
  }

  lemma OrderHolds(source: string, exampleIds: seq<Text>, exemplarIds: seq<Text>, s: Split)
    requires Checks(source, exampleIds, exemplarIds).None? && IsSplit(source, exampleIds, exemplarIds, s)
    ensures StrictlySorted(TextLt, s.order) && forall y :: y in s.order <==> y in exampleIds
  {
    SortDistinct(exampleIds);
    forall y ensures y in s.order <==> y in exampleIds {
      assert y in s.order <==> y in Elems(s.order);
      assert y in exampleIds <==> y in Elems(exampleIds);
    }
  }

  // ---- what is split ----

  /** Exactly these inputs are split: a SHA-256 identity, distinct nonempty example IDs, and
      exemplars among the examples, at least two of them different. */
  lemma SplitsExactly(source: string, exampleIds: seq<Text>, exemplarIds: seq<Text>)
    ensures Checks(source, exampleIds, exemplarIds).None? <==>
            && |source| == 71 && source[..7] == "sha256:"
            && (forall i | 7 <= i < 71 :: '0' <= source[i] <= '9' || 'a' <= source[i] <= 'f')
            && (forall i, j | 0 <= i < j < |exampleIds| :: exampleIds[i] != exampleIds[j])
            && (forall x | x in exampleIds :: x != [])
            && (forall x | x in exemplarIds :: x in exampleIds)
            && exists x, y :: x in exemplarIds && y in exemplarIds && x != y
  {
    SortDistinct(Unique(exemplarIds));
    CanonicalAre(exemplarIds);
    TwoDifferent(exemplarIds, CanonicalIds(exemplarIds));
  }

  lemma TwoDifferent(xs: seq<Text>, ids: seq<Text>)
    requires Distinct(ids) && forall y :: y in ids <==> y in xs
    ensures |ids| >= 2 <==> exists x, y :: x in xs && y in xs && x != y
  {
    if |ids| >= 2 {
      assert ids[0] in ids && ids[1] in ids && ids[0] != ids[1];
    }
    if x, y :| x in xs && y in xs && x != y {
      var i :| 0 <= i < |ids| && ids[i] == x;
      var j :| 0 <= j < |ids| && ids[j] == y;
    }
  }
}
