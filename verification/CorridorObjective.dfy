/** The corridor objective over exact reals: weighted squared distance of five statistics to
    their declared intervals. A softmax output is a probability vector; its entropy is a
    parameter. */
module CorridorObjective {
  import opened Basics
  import opened Ordering
  import opened Materialize
  import opened LookupAgreement
  import opened RealArithmetic
  import opened SplitPolicy
  import opened TopMass

  datatype Statistic = Entropy | Top1Margin | Top8Mass | Top32Mass | TailMass

  const STATISTICS: seq<Statistic> := [Entropy, Top1Margin, Top8Mass, Top32Mass, TailMass]

  /** One value for each statistic. */
  datatype Five<T> = Five(entropy: T, top1Margin: T, top8Mass: T, top32Mass: T, tailMass: T) {
    function At(s: Statistic): T {
      match s
      case Entropy => entropy
      case Top1Margin => top1Margin
      case Top8Mass => top8Mass
      case Top32Mass => top32Mass
      case TailMass => tailMass
    }
  }

  datatype Interval = Interval(minimum: real, maximum: real) {
    predicate Contains(v: real) { minimum <= v <= maximum }
  }

  /** One assignment as the objective sees it: its effective weight, the statistics of its
      token distribution and the declared intervals of its mode. */
  datatype Item = Item(weight: real, values: Five<real>, bounds: Five<Interval>)

  type Policy = Five<real>

  type Declarations = map<int, map<Statistic, Interval>>

  /** softmax(logits): a probability vector for each row and position. */
  type Distributions = seq<seq<seq<real>>>

  datatype ObjectiveError = BadLogits | BadCoordinates | UndeclaredMode | BadWeights | IncompleteStatistics

  datatype Report = Report(
    loss: real, insideRate: map<Statistic, real>, meanSquaredDistance: map<Statistic, real>, allInsideRate: real)

  predicate PositivePolicy(policy: Policy) { forall s: Statistic :: policy.At(s) > 0.0 }

  // ---- the statistics of one distribution ----

  function Statistics(entropy: seq<real> -> real, p: seq<real>): Five<real>
    requires |p| >= 2
  {
    SortLength(p);
    var ordered := Descending(p);
    Five(entropy(p), ordered[0] - ordered[1], Top(p, 8), Top(p, 32), 1.0 - Top(p, 32))
  }

  /** The mass statistics are ordered probabilities, and no mass is left over when the
      vocabulary has at most 32 tokens. */
  lemma StatisticsRange(entropy: seq<real> -> real, p: seq<real>)
    requires Probability(p) && |p| >= 2
    ensures var s := Statistics(entropy, p);
            && 0.0 <= s.top1Margin <= s.top8Mass <= s.top32Mass <= 1.0
            && 0.0 <= s.tailMass && s.top32Mass + s.tailMass == 1.0
            && (|p| <= 32 ==> s.tailMass == 0.0)
            && (|p| <= 8 ==> s.top8Mass == 1.0)
  {
    TopMonotone(p, 8, 32);
    TopMonotone(p, 1, 8);
    TopMonotone(p, 8, 8);
    SortLength(p);
    GreaterOrder();
    SortSorted(Greater, p);
    var d := Descending(p);
    assert !Greater(d[1], d[0]);
    assert d[1] in multiset(d);
    assert d[1] in p;
    assert d[..1] == [d[0]];
    assert Sum([d[0]]) == d[0];
  }

  // ---- the items of a batch ----

  /** The local rows: searchsorted(unique(example_indices), example_indices). */
  function LocalRow(global: seq<nat>, r: Assignment): nat { SearchSorted(global, r.index) }

  /** Arrays are rectangular: every row of ids and mask has the same length. */
  ghost predicate Rectangular(b: CorridorBatch, width: nat) {
    && |b.inputIds| == |b.mask|
    && (forall row | 0 <= row < |b.inputIds| :: |b.inputIds[row]| == width)
    && (forall row | 0 <= row < |b.mask| :: |b.mask[row]| == width)
  }

  predicate LogitsFit(probs: Distributions, b: CorridorBatch, width: nat) {
    && |probs| == |b.inputIds|
    && (forall row | 0 <= row < |probs| :: |probs[row]| == width)
    && (forall row, at | 0 <= row < |probs| && 0 <= at < width && |probs[row]| == width :: |probs[row][at]| >= 2)
  }

  predicate CoordinatesFit(b: CorridorBatch, width: nat) {
    |GlobalRows(b)| <= |b.inputIds| && forall r | r in b.rows :: 0 <= r.position < width
  }

  lemma RankInRange(b: CorridorBatch, r: Assignment)
    requires r in b.rows
    ensures LocalRow(GlobalRows(b), r) < |GlobalRows(b)|
    ensures GlobalRows(b)[LocalRow(GlobalRows(b), r)] == r.index
  {
    var g := GlobalRows(b);
    NatOrder();
    UniqueAscends(NatLt, Indices(b.rows));
    var k :| 0 <= k < |b.rows| && b.rows[k] == r;
    assert Indices(b.rows)[k] == r.index;
    assert r.index in Elems(g);
    var at :| 0 <= at < |g| && g[at] == r.index;
    SearchSortedAt(g, at);
  }

  /** assignment_weights * attention_mask[local_rows, positions] */
  function Effective(mask: seq<Row>, g: seq<nat>, r: Assignment): real {
    var row := LocalRow(g, r);
    if row < |mask| && 0 <= r.position < |mask[row]| then Times(r.weight, mask[row][r.position] as real) else 0.0
  }

  function Weigher(mask: seq<Row>, g: seq<nat>): Assignment -> real {
    (r: Assignment) => Effective(mask, g, r)
  }

  function Weights(b: CorridorBatch): seq<real> { Map(Weigher(b.mask, GlobalRows(b)), b.rows) }

  predicate WeightsFit(b: CorridorBatch) {
    (forall w | w in Weights(b) :: w >= 0.0) && Sum(Weights(b)) > 0.0
  }

  predicate ModesDeclared(b: CorridorBatch, modes: Declarations) {
    forall r | r in b.rows :: r.mode in modes
  }

  predicate StatisticsDeclared(b: CorridorBatch, modes: Declarations) {
    forall r | r in b.rows :: r.mode in modes && forall s: Statistic :: s in modes[r.mode]
  }

  function Bound(d: map<Statistic, Interval>, s: Statistic): Interval {
    if s in d then d[s] else Interval(0.0, 0.0)
  }

  function Bounds(modes: Declarations, mode: int): Five<Interval> {
    var d := if mode in modes then modes[mode] else map[];
    Five(Bound(d, Entropy), Bound(d, Top1Margin), Bound(d, Top8Mass), Bound(d, Top32Mass), Bound(d, TailMass))
  }

  function DistributionAt(probs: Distributions, row: nat, at: int): seq<real> {
    if row < |probs| && 0 <= at < |probs[row]| then probs[row][at] else []
  }

  function Measure(entropy: seq<real> -> real, p: seq<real>): Five<real> {
    if |p| >= 2 then Statistics(entropy, p) else Five(0.0, 0.0, 0.0, 0.0, 0.0)
  }

  function Measurer(entropy: seq<real> -> real, probs: Distributions, modes: Declarations, mask: seq<Row>, g: seq<nat>): Assignment -> Item {
    (r: Assignment) => Item(Effective(mask, g, r), Measure(entropy, DistributionAt(probs, LocalRow(g, r), r.position)), Bounds(modes, r.mode))
  }

  function ItemOf(entropy: seq<real> -> real, probs: Distributions, modes: Declarations, b: CorridorBatch, r: Assignment): Item {
    Measurer(entropy, probs, modes, b.mask, GlobalRows(b))(r)
  }

  function Items(entropy: seq<real> -> real, probs: Distributions, modes: Declarations, b: CorridorBatch): seq<Item> {
    Map(Measurer(entropy, probs, modes, b.mask, GlobalRows(b)), b.rows)
  }

  // ---- the objective over items ----

  function Clip(x: real): real { if x > 0.0 then x else 0.0 }

  function Outside(v: real, i: Interval): real { Clip(i.minimum - v) + Clip(v - i.maximum) }

  function Squared(i: Item, s: Statistic): real {
    Times(Outside(i.values.At(s), i.bounds.At(s)), Outside(i.values.At(s), i.bounds.At(s)))
  }

  predicate Inside(i: Item, s: Statistic) { Squared(i, s) == 0.0 }

  predicate Within(i: Item) { forall s: Statistic :: i.bounds.At(s).Contains(i.values.At(s)) }

  function WeightOf(): Item -> real { (i: Item) => i.weight }

  function SquaredTerm(s: Statistic): Item -> real { (i: Item) => Times(i.weight, Squared(i, s)) }

  function Flagged(p: Item -> bool): Item -> real { (i: Item) => Times(i.weight, if p(i) then 1.0 else 0.0) }

  function InsideOf(s: Statistic): Item -> bool { (i: Item) => Inside(i, s) }

  function WithinAll(): Item -> bool { (i: Item) => Within(i) }

  function Total(items: seq<Item>): real { Sum(Map(WeightOf(), items)) }

  /** The weighted share of the items with a property. */
  function Share(items: seq<Item>, p: Item -> bool): real
    requires Total(items) > 0.0
  {
    Sum(Map(Flagged(p), items)) / Total(items)
  }

  function MeanSquared(items: seq<Item>, s: Statistic): real
    requires Total(items) > 0.0
  {
    Sum(Map(SquaredTerm(s), items)) / Total(items)
  }

  ghost predicate Weighted(items: seq<Item>) {
    (forall i | i in items :: i.weight >= 0.0) && Total(items) > 0.0
  }

  /** One statistic's part of the loss. */
  function Part(policy: Policy, items: seq<Item>, s: Statistic): real
    requires Total(items) > 0.0
  {
    Times(policy.At(s), Sum(Map(SquaredTerm(s), items))) / Total(items)
  }

  function LossOver(policy: Policy, items: seq<Item>, ss: seq<Statistic>): real
    requires Total(items) > 0.0
  {
    if ss == [] then 0.0
    else
      LossOver(policy, items, ss[..|ss| - 1]) + Part(policy, items, ss[|ss| - 1])
  }

  /** What the report must say: means and shares of the items, no accumulators. */
  ghost predicate Reports(policy: Policy, items: seq<Item>, report: Report)
    requires Total(items) > 0.0
  {
    && report.loss == LossOver(policy, items, STATISTICS)
    && (forall s: Statistic :: s in report.insideRate && report.insideRate[s] == Share(items, InsideOf(s)))
    && (forall s: Statistic :: s in report.meanSquaredDistance && report.meanSquaredDistance[s] == MeanSquared(items, s))
    && report.allInsideRate == Share(items, WithinAll())
  }

  /** jnp.sum(weights * flags) */
  function FlagSum(items: seq<Item>, flags: seq<bool>): real
    requires |flags| == |items|
  {
    if items == [] then 0.0
    else Times(items[0].weight, if flags[0] then 1.0 else 0.0) + FlagSum(items[1..], flags[1..])
  }

  lemma {:induction false} FlagSumIsShare(items: seq<Item>, flags: seq<bool>, p: Item -> bool)
    requires |flags| == |items| && forall k | 0 <= k < |items| :: flags[k] == p(items[k])
    ensures FlagSum(items, flags) == Sum(Map(Flagged(p), items))
  {
    if items != [] {
      FlagSumIsShare(items[1..], flags[1..], p);
    }
  }

  lemma InsideIsContained(i: Item, s: Statistic)
    ensures Squared(i, s) >= 0.0
    ensures Inside(i, s) <==> i.bounds.At(s).Contains(i.values.At(s))
  {
    Square(Outside(i.values.At(s), i.bounds.At(s)));
  }

  lemma WithinIsInside(i: Item)
    ensures Within(i) <==> forall k | 0 <= k < 5 :: Inside(i, STATISTICS[k])
  {
    forall s: Statistic ensures Inside(i, s) <==> i.bounds.At(s).Contains(i.values.At(s)) { InsideIsContained(i, s); }
    assert STATISTICS[0] == Entropy && STATISTICS[1] == Top1Margin && STATISTICS[2] == Top8Mass
        && STATISTICS[3] == Top32Mass && STATISTICS[4] == TailMass;
    if forall k | 0 <= k < 5 :: Inside(i, STATISTICS[k]) {
      forall s: Statistic ensures i.bounds.At(s).Contains(i.values.At(s)) {
        match s
        case Entropy => assert Inside(i, STATISTICS[0]);
        case Top1Margin => assert Inside(i, STATISTICS[1]);
        case Top8Mass => assert Inside(i, STATISTICS[2]);
        case Top32Mass => assert Inside(i, STATISTICS[3]);
        case TailMass => assert Inside(i, STATISTICS[4]);
      }
    }
  }

  ghost predicate InsideSoFar(items: seq<Item>, flags: seq<bool>, n: nat)
    requires n <= 5
  {
    |flags| == |items| && forall k | 0 <= k < |items| :: flags[k] <==> forall j | 0 <= j < n :: Inside(items[k], STATISTICS[j])
  }

  /** all_inside = logical_and(all_inside, inside) */
  function AndInside(items: seq<Item>, flags: seq<bool>, s: Statistic): (r: seq<bool>)
    requires |flags| == |items|
    ensures |r| == |items| && forall k | 0 <= k < |items| :: r[k] <==> flags[k] && Inside(items[k], s)
  {
    if items == [] then [] else [flags[0] && Inside(items[0], s)] + AndInside(items[1..], flags[1..], s)
  }

  ghost predicate RatesSoFar(items: seq<Item>, rates: map<Statistic, real>, n: nat)
    requires n <= 5 && Total(items) > 0.0
  {
    forall k | 0 <= k < n :: STATISTICS[k] in rates && rates[STATISTICS[k]] == Share(items, InsideOf(STATISTICS[k]))
  }

  ghost predicate MeansSoFar(items: seq<Item>, means: map<Statistic, real>, n: nat)
    requires n <= 5 && Total(items) > 0.0
  {
    forall k | 0 <= k < n :: STATISTICS[k] in means && means[STATISTICS[k]] == MeanSquared(items, STATISTICS[k])
  }

  function Place(s: Statistic): (k: nat)
    ensures k < 5 && STATISTICS[k] == s
  {
    match s case Entropy => 0 case Top1Margin => 1 case Top8Mass => 2 case Top32Mass => 3 case TailMass => 4
  }

  lemma FlagsStep(items: seq<Item>, flags: seq<bool>, n: nat)
    requires n < 5 && InsideSoFar(items, flags, n)
    ensures InsideSoFar(items, AndInside(items, flags, STATISTICS[n]), n + 1)
  {
  }

  lemma LossAppend(policy: Policy, items: seq<Item>, ss: seq<Statistic>, s: Statistic)
    requires Total(items) > 0.0
    ensures LossOver(policy, items, ss + [s]) == LossOver(policy, items, ss) + Part(policy, items, s)
  {
    assert (ss + [s])[..|ss|] == ss;
  }

  lemma TakeOneMore<T>(s: seq<T>, n: nat)
    requires n < |s|
    ensures s[..n + 1] == s[..n] + [s[n]]
  {
  }

  /** What the accumulators hold after n statistics. */
  ghost predicate Accumulated(policy: Policy, items: seq<Item>, n: nat, loss: real, flags: seq<bool>,
                              rates: map<Statistic, real>, means: map<Statistic, real>)
    requires n <= 5 && Total(items) > 0.0
  {
    && loss == LossOver(policy, items, STATISTICS[..n])
    && InsideSoFar(items, flags, n) && RatesSoFar(items, rates, n) && MeansSoFar(items, means, n)
  }

  lemma AccumulatesOne(policy: Policy, items: seq<Item>, n: nat, loss: real, flags: seq<bool>,
                       rates: map<Statistic, real>, means: map<Statistic, real>)
    requires n < 5 && Total(items) > 0.0 && Accumulated(policy, items, n, loss, flags, rates, means)
    ensures var s := STATISTICS[n];
            Accumulated(policy, items, n + 1, loss + Part(policy, items, s), AndInside(items, flags, s),
                        rates[s := Share(items, InsideOf(s))], means[s := MeanSquared(items, s)])
  {
    var s := STATISTICS[n];
    FlagsStep(items, flags, n);
    TakeOneMore(STATISTICS, n);
    LossAppend(policy, items, STATISTICS[..n], s);
  }

  lemma Finished(policy: Policy, items: seq<Item>, flags: seq<bool>, report: Report)
    requires Total(items) > 0.0
    requires Accumulated(policy, items, 5, report.loss, flags, report.insideRate, report.meanSquaredDistance)
    requires report.allInsideRate == FlagSum(items, flags) / Total(items)
    ensures Reports(policy, items, report)
  {
    assert STATISTICS[..5] == STATISTICS;
    forall k | 0 <= k < |items| ensures flags[k] == WithinAll()(items[k]) { WithinIsInside(items[k]); }
    FlagSumIsShare(items, flags, WithinAll());
    forall s: Statistic
      ensures s in report.insideRate && report.insideRate[s] == Share(items, InsideOf(s))
      ensures s in report.meanSquaredDistance && report.meanSquaredDistance[s] == MeanSquared(items, s)
    {
      assert STATISTICS[Place(s)] == s;
    }
  }

  /** The loop over the five statistics of corridor_objective_v1. */
  method Accumulate(items: seq<Item>, policy: Policy) returns (report: Report)
    requires Total(items) > 0.0
    ensures Reports(policy, items, report)
  {
    var denominator := Total(items);
    var weightedLoss := 0.0;
    var allInside := seq(|items|, _ => true);
    var insideRate, meanSquared := map[], map[];
    for index := 0 to 5
      invariant |allInside| == |items|
      invariant Accumulated(policy, items, index, weightedLoss, allInside, insideRate, meanSquared)
    {
      var s := STATISTICS[index];
      var squared := Sum(Map(SquaredTerm(s), items));
      AccumulatesOne(policy, items, index, weightedLoss, allInside, insideRate, meanSquared);
      allInside := AndInside(items, allInside, s);
      insideRate := insideRate[s := Sum(Map(Flagged(InsideOf(s)), items)) / denominator];
      meanSquared := meanSquared[s := squared / denominator];
      weightedLoss := weightedLoss + Times(policy.At(s), squared) / denominator;
    }
    report := Report(weightedLoss, insideRate, meanSquared, FlagSum(items, allInside) / denominator);
    Finished(policy, items, allInside, report);
  }

  // ---- what the report means ----

  lemma {:induction false} NonnegativeTerms(f: Item -> real, items: seq<Item>)
    requires forall i | i in items :: f(i) >= 0.0
    ensures Sum(Map(f, items)) >= 0.0
    ensures Sum(Map(f, items)) == 0.0 <==> forall i | i in items :: f(i) == 0.0
  {
    if items != [] {
      assert items == [items[0]] + items[1..];
      assert Sum(Map(f, items)) == f(items[0]) + Sum(Map(f, items[1..]));
      NonnegativeTerms(f, items[1..]);
    }
  }

  lemma {:induction false} TermsBelow(f: Item -> real, g: Item -> real, items: seq<Item>)
    requires forall i | i in items :: f(i) <= g(i)
    ensures Sum(Map(f, items)) <= Sum(Map(g, items))
    ensures Sum(Map(f, items)) == Sum(Map(g, items)) <==> forall i | i in items :: f(i) == g(i)
  {
    if items != [] {
      assert items == [items[0]] + items[1..];
      assert Sum(Map(f, items)) == f(items[0]) + Sum(Map(f, items[1..]));
      assert Sum(Map(g, items)) == g(items[0]) + Sum(Map(g, items[1..]));
      TermsBelow(f, g, items[1..]);
    }
  }

  lemma FlaggedTerm(i: Item, p: Item -> bool)
    requires i.weight >= 0.0
    ensures Flagged(p)(i) == if p(i) then i.weight else 0.0
  {
  }

  /** A weighted share lies between 0 and 1, is 1 exactly when every positively weighted item
      has the property, and grows with the property. */
  lemma ShareMeaning(items: seq<Item>, p: Item -> bool)
    requires Weighted(items)
    ensures 0.0 <= Share(items, p) <= 1.0
    ensures Share(items, p) == 1.0 <==> forall i | i in items && i.weight > 0.0 :: p(i)
  {
    FlaggedBelowTotal(items, p);
    ProperFraction(Sum(Map(Flagged(p), items)), Total(items));
  }

  lemma FlaggedBelowTotal(items: seq<Item>, p: Item -> bool)
    requires Weighted(items)
    ensures 0.0 <= Sum(Map(Flagged(p), items)) <= Total(items)
    ensures Sum(Map(Flagged(p), items)) == Total(items) <==> forall i | i in items && i.weight > 0.0 :: p(i)
  {
    forall i | i in items ensures Flagged(p)(i) == if p(i) then i.weight else 0.0 { FlaggedTerm(i, p); }
    NonnegativeTerms(Flagged(p), items);
    TermsBelow(Flagged(p), WeightOf(), items);
  }

  lemma ShareGrows(items: seq<Item>, p: Item -> bool, q: Item -> bool)
    requires Weighted(items) && forall i | i in items && p(i) :: q(i)
    ensures Share(items, p) <= Share(items, q)
  {
    forall i | i in items ensures Flagged(p)(i) <= Flagged(q)(i) {
      FlaggedTerm(i, p);
      FlaggedTerm(i, q);
    }
    TermsBelow(Flagged(p), Flagged(q), items);
    Quotients(Sum(Map(Flagged(p), items)), Sum(Map(Flagged(q), items)), Total(items));
  }

  ghost predicate AllInside(items: seq<Item>, s: Statistic) {
    forall i | i in items && i.weight > 0.0 :: i.bounds.At(s).Contains(i.values.At(s))
  }

  lemma SquaredTermMeaning(i: Item, s: Statistic)
    requires i.weight >= 0.0
    ensures SquaredTerm(s)(i) >= 0.0
    ensures SquaredTerm(s)(i) == 0.0 <==> i.weight == 0.0 || i.bounds.At(s).Contains(i.values.At(s))
  {
    InsideIsContained(i, s);
    NonnegativeTimes(i.weight, Squared(i, s));
  }

  lemma DistanceMeaning(items: seq<Item>, s: Statistic)
    requires Weighted(items)
    ensures Sum(Map(SquaredTerm(s), items)) >= 0.0 && MeanSquared(items, s) >= 0.0
    ensures Sum(Map(SquaredTerm(s), items)) == 0.0 <==> AllInside(items, s)
    ensures MeanSquared(items, s) == 0.0 <==> AllInside(items, s)
  {
    forall i | i in items
      ensures SquaredTerm(s)(i) >= 0.0
      ensures SquaredTerm(s)(i) == 0.0 <==> i.weight == 0.0 || i.bounds.At(s).Contains(i.values.At(s))
    {
      SquaredTermMeaning(i, s);
    }
    NonnegativeTerms(SquaredTerm(s), items);
    Quotients(0.0, Sum(Map(SquaredTerm(s), items)), Total(items));
  }

  lemma PartMeaning(policy: Policy, items: seq<Item>, s: Statistic)
    requires PositivePolicy(policy) && Weighted(items)
    ensures Part(policy, items, s) >= 0.0
    ensures Part(policy, items, s) == 0.0 <==> AllInside(items, s)
  {
    DistanceMeaning(items, s);
    NonnegativeTimes(policy.At(s), Sum(Map(SquaredTerm(s), items)));
    Quotients(0.0, Times(policy.At(s), Sum(Map(SquaredTerm(s), items))), Total(items));
  }

  lemma {:induction false} LossMeaning(policy: Policy, items: seq<Item>, ss: seq<Statistic>)
    requires PositivePolicy(policy) && Weighted(items)
    ensures LossOver(policy, items, ss) >= 0.0
    ensures LossOver(policy, items, ss) == 0.0 <==> forall s | s in ss :: AllInside(items, s)
  {
    if ss != [] {
      var front, last := ss[..|ss| - 1], ss[|ss| - 1];
      assert ss == front + [last];
      LossMeaning(policy, items, front);
      PartMeaning(policy, items, last);
    }
  }

  lemma AllInsideIsWithin(items: seq<Item>)
    ensures (forall s | s in STATISTICS :: AllInside(items, s)) <==> forall i | i in items && i.weight > 0.0 :: Within(i)
  {
    if forall s | s in STATISTICS :: AllInside(items, s) {
      forall i, s: Statistic | i in items && i.weight > 0.0 ensures i.bounds.At(s).Contains(i.values.At(s)) {
        assert STATISTICS[Place(s)] in STATISTICS;
        assert AllInside(items, s);
      }
    }
  }

  /** The loss is nonnegative, and zero exactly when every positively weighted assignment lies
      inside all five declared intervals, which is when the all-inside rate is one; that rate
      is at most each single rate, and a single rate is one exactly at mean distance zero. */
  lemma ReportMeaning(policy: Policy, items: seq<Item>, report: Report)
    requires PositivePolicy(policy) && Weighted(items) && Reports(policy, items, report)
    ensures report.loss >= 0.0
    ensures report.loss == 0.0 <==> forall i | i in items && i.weight > 0.0 :: Within(i)
    ensures report.loss == 0.0 <==> report.allInsideRate == 1.0
    ensures forall s: Statistic ::
              && 0.0 <= report.allInsideRate <= report.insideRate[s] <= 1.0
              && (report.insideRate[s] == 1.0 <==> report.meanSquaredDistance[s] == 0.0)
  {
    LossMeaning(policy, items, STATISTICS);
    AllInsideIsWithin(items);
    ShareMeaning(items, WithinAll());
    forall s: Statistic
      ensures 0.0 <= report.allInsideRate <= report.insideRate[s] <= 1.0
      ensures report.insideRate[s] == 1.0 <==> report.meanSquaredDistance[s] == 0.0
    {
      forall i: Item ensures InsideOf(s)(i) <==> i.bounds.At(s).Contains(i.values.At(s)) { InsideIsContained(i, s); }
      ShareMeaning(items, InsideOf(s));
      ShareGrows(items, WithinAll(), InsideOf(s));
      DistanceMeaning(items, s);
    }
  }

  // ---- order of the assignments ----

  lemma SumForgetsOrder(f: Item -> real, a: seq<Item>, b: seq<Item>)
    requires multiset(a) == multiset(b)
    ensures Sum(Map(f, a)) == Sum(Map(f, b))
  {
    MapPermutes(f, a, b);
    SumPermutes(Map(f, a), Map(f, b));
  }

  lemma {:induction false} LossForgetsOrder(policy: Policy, a: seq<Item>, b: seq<Item>, ss: seq<Statistic>)
    requires multiset(a) == multiset(b) && Total(a) > 0.0 && Total(b) > 0.0
    ensures LossOver(policy, a, ss) == LossOver(policy, b, ss)
  {
    if ss != [] {
      LossForgetsOrder(policy, a, b, ss[..|ss| - 1]);
      SumForgetsOrder(SquaredTerm(ss[|ss| - 1]), a, b);
      SumForgetsOrder(WeightOf(), a, b);
    }
  }

  lemma ReportForgetsOrder(policy: Policy, a: seq<Item>, b: seq<Item>, report: Report)
    requires multiset(a) == multiset(b) && Total(a) > 0.0 && Reports(policy, a, report)
    ensures Total(b) > 0.0 && Reports(policy, b, report)
  {
    SumForgetsOrder(WeightOf(), a, b);
    LossForgetsOrder(policy, a, b, STATISTICS);
    SumForgetsOrder(Flagged(WithinAll()), a, b);
    forall s: Statistic
      ensures Share(a, InsideOf(s)) == Share(b, InsideOf(s)) && MeanSquared(a, s) == MeanSquared(b, s)
    {
      SumForgetsOrder(Flagged(InsideOf(s)), a, b);
      SumForgetsOrder(SquaredTerm(s), a, b);
    }
  }

  // ---- whole batches ----

  /** _validate_corridor_inputs and _corridor_bounds, in their order. */
  function Check(probs: Distributions, b: CorridorBatch, width: nat, modes: Declarations): Option<ObjectiveError> {
    if !LogitsFit(probs, b, width) then Some(BadLogits)
    else if !CoordinatesFit(b, width) then Some(BadCoordinates)
    else if !ModesDeclared(b, modes) then Some(UndeclaredMode)
    else if !WeightsFit(b) then Some(BadWeights)
    else if !StatisticsDeclared(b, modes) then Some(IncompleteStatistics)
    else None
  }

  lemma ItemWeights(entropy: seq<real> -> real, probs: Distributions, modes: Declarations, b: CorridorBatch)
    ensures Map(WeightOf(), Items(entropy, probs, modes, b)) == Weights(b)
  {
  }

  lemma RankedRow(b: CorridorBatch, width: nat, r: Assignment)
    requires Rectangular(b, width) && CoordinatesFit(b, width) && r in b.rows
    ensures LocalRow(GlobalRows(b), r) < |b.inputIds|
  {
    RankInRange(b, r);
  }

  /** Every lookup of an accepted rectangular batch is in range: no default value is ever used. */
  lemma AcceptedInRange(probs: Distributions, b: CorridorBatch, width: nat, modes: Declarations, r: Assignment, row: nat)
    requires Rectangular(b, width) && Check(probs, b, width, modes).None? && r in b.rows
    requires row == LocalRow(GlobalRows(b), r)
    ensures row < |b.mask| && row < |probs| && 0 <= r.position < |b.mask[row]|
    ensures r.position < |probs[row]| && |probs[row][r.position]| >= 2
    ensures r.mode in modes && forall s: Statistic :: s in modes[r.mode]
  {
    RankedRow(b, width, r);
    AcceptedRow(b, probs, width, modes, r, row);
  }

  /** corridor_objective_v1 */
  method CorridorObjective(entropy: seq<real> -> real, probs: Distributions, b: CorridorBatch, width: nat,
                           modes: Declarations, policy: Policy) returns (r: Result<Report, ObjectiveError>)
    ensures r.Err? <==> Check(probs, b, width, modes).Some?
    ensures r.Err? ==> Check(probs, b, width, modes) == Some(r.error)
    ensures r.Ok? ==> Weighted(Items(entropy, probs, modes, b)) && Reports(policy, Items(entropy, probs, modes, b), r.value)
  {
    var failure := Check(probs, b, width, modes);
    if failure.Some? {
      return Err(failure.value);
    }
    var items := Items(entropy, probs, modes, b);
    ItemWeights(entropy, probs, modes, b);
    forall i | i in items ensures i.weight >= 0.0 {
      var k :| 0 <= k < |items| && items[k] == i;
      assert Weights(b)[k] == i.weight;
      assert Weights(b)[k] in Weights(b);
    }
    var report := Accumulate(items, policy);
    r := Ok(report);
  }

  /** Each item of an accepted, materialised batch is built from the distribution, mask and
      intervals of the very example its global row index names. */
  lemma ItemIsItsExample(partition: Partition, a: map<Text, Partition>, ids: seq<Text>,
                         inputIds: seq<Row>, mask: seq<Row>, rows: seq<Assignment>, b: CorridorBatch,
                         entropy: seq<real> -> real, probs: Distributions, width: nat, modes: Declarations, r: Assignment)
    requires Built(partition, a, ids, inputIds, mask, rows, b) && r in b.rows
    requires Rectangular(b, width) && Check(probs, b, width, modes).None?
    ensures r.index < |ids| && 0 <= r.position < |mask[r.index]| && r.mode in modes
    ensures var k := SearchSorted(GlobalRows(b), r.index);
            && k < |probs| && k < |b.exampleIds| && b.exampleIds[k] == ids[r.index]
            && r.position < |probs[k]| && |probs[k][r.position]| >= 2
            && var item := ItemOf(entropy, probs, modes, b, r);
            && item.weight == Times(r.weight, mask[r.index][r.position] as real)
            && item.values == Statistics(entropy, probs[k][r.position])
            && forall s: Statistic :: s in modes[r.mode] && item.bounds.At(s) == modes[r.mode][s]
  {
    LookupsAgree(partition, a, ids, inputIds, mask, rows, b, r);
    var k := SearchSorted(GlobalRows(b), r.index);
    AcceptedRow(b, probs, width, modes, r, k);
    ItemFields(entropy, probs, modes, b, r, k);
  }

  lemma ItemFields(entropy: seq<real> -> real, probs: Distributions, modes: Declarations, b: CorridorBatch, r: Assignment, k: nat)
    requires k == LocalRow(GlobalRows(b), r) && k < |probs| && 0 <= r.position < |probs[k]| && |probs[k][r.position]| >= 2
    requires k < |b.mask| && r.position < |b.mask[k]| && r.mode in modes && forall s: Statistic :: s in modes[r.mode]
    ensures var item := ItemOf(entropy, probs, modes, b, r);
            && item.weight == Times(r.weight, b.mask[k][r.position] as real)
            && item.values == Statistics(entropy, probs[k][r.position])
            && forall s: Statistic :: item.bounds.At(s) == modes[r.mode][s]
  {
  }

  lemma AcceptedRow(b: CorridorBatch, probs: Distributions, width: nat, modes: Declarations, r: Assignment, k: nat)
    requires Check(probs, b, width, modes).None? && Rectangular(b, width) && r in b.rows && k < |b.inputIds|
    ensures k < |probs| && 0 <= r.position < |probs[k]| && r.position < |b.mask[k]| && |probs[k][r.position]| >= 2
    ensures r.mode in modes && forall s: Statistic :: s in modes[r.mode]
  {
    AcceptedCell(b, probs, width, r, k);
    assert StatisticsDeclared(b, modes);
  }

  lemma AcceptedCell(b: CorridorBatch, probs: Distributions, width: nat, r: Assignment, k: nat)
    requires LogitsFit(probs, b, width) && CoordinatesFit(b, width) && Rectangular(b, width) && r in b.rows && k < |b.inputIds|
    ensures k < |probs| && 0 <= r.position < |probs[k]| && r.position < |b.mask[k]| && |probs[k][r.position]| >= 2
  {
    assert |probs[k]| == width;
  }

  lemma SameRows(a: seq<Assignment>, c: seq<Assignment>)
    requires multiset(a) == multiset(c)
    ensures forall r :: r in a <==> r in c
  {
    forall r ensures r in a <==> r in c {
      assert r in a <==> r in multiset(a);
      assert r in c <==> r in multiset(c);
    }
  }

  lemma {:induction false} IndicesOf(rows: seq<Assignment>)
    ensures Elems(Indices(rows)) == set r | r in rows :: r.index
  {
    forall x | x in Elems(Indices(rows)) ensures x in set r | r in rows :: r.index {
      var k :| 0 <= k < |rows| && Indices(rows)[k] == x;
      assert rows[k] in rows && rows[k].index == x;
    }
    forall r | r in rows ensures r.index in Elems(Indices(rows)) {
      var k :| 0 <= k < |rows| && rows[k] == r;
      assert Indices(rows)[k] == r.index;
    }
  }

  lemma GlobalRowsForgetOrder(b: CorridorBatch, c: CorridorBatch)
    requires multiset(b.rows) == multiset(c.rows)
    ensures GlobalRows(b) == GlobalRows(c)
  {
    SameRows(b.rows, c.rows);
    IndicesOf(b.rows);
    IndicesOf(c.rows);
    assert Elems(Indices(b.rows)) == Elems(Indices(c.rows));
    NatOrder();
    UniqueAscends(NatLt, Indices(b.rows));
    UniqueAscends(NatLt, Indices(c.rows));
  }

  lemma SameItems(entropy: seq<real> -> real, probs: Distributions, modes: Declarations, b: CorridorBatch, c: CorridorBatch)
    requires c == b.(rows := c.rows) && multiset(b.rows) == multiset(c.rows)
    ensures multiset(Items(entropy, probs, modes, b)) == multiset(Items(entropy, probs, modes, c))
  {
    GlobalRowsForgetOrder(b, c);
    MapPermutes(Measurer(entropy, probs, modes, b.mask, GlobalRows(b)), b.rows, c.rows);
  }

  lemma SameWeights(b: CorridorBatch, c: CorridorBatch)
    requires c == b.(rows := c.rows) && multiset(b.rows) == multiset(c.rows)
    ensures WeightsFit(b) == WeightsFit(c)
  {
    GlobalRowsForgetOrder(b, c);
    MapPermutes(Weigher(b.mask, GlobalRows(b)), b.rows, c.rows);
    SamePositive(Weights(b), Weights(c));
  }

  lemma SamePositive(a: seq<real>, b: seq<real>)
    requires multiset(a) == multiset(b)
    ensures Sum(a) == Sum(b) && ((forall w | w in a :: w >= 0.0) <==> (forall w | w in b :: w >= 0.0))
  {
    SumPermutes(a, b);
    forall w ensures w in a <==> w in b {
      assert w in a <==> w in multiset(a);
      assert w in b <==> w in multiset(b);
    }
  }

  lemma SameVerdict(probs: Distributions, b: CorridorBatch, c: CorridorBatch, width: nat, modes: Declarations)
    requires c == b.(rows := c.rows) && multiset(b.rows) == multiset(c.rows)
    ensures Check(probs, b, width, modes) == Check(probs, c, width, modes)
  {
    SameWeights(b, c);
    SameRows(b.rows, c.rows);
    assert LogitsFit(probs, b, width) == LogitsFit(probs, c, width);
    assert CoordinatesFit(b, width) == CoordinatesFit(c, width) by { GlobalRowsForgetOrder(b, c); }
    assert ModesDeclared(b, modes) == ModesDeclared(c, modes);
    assert StatisticsDeclared(b, modes) == StatisticsDeclared(c, modes);
  }

  /** Permuting the assignment rows of a batch changes neither the verdict nor the report. */
  lemma ObjectiveForgetsOrder(entropy: seq<real> -> real, probs: Distributions, b: CorridorBatch, c: CorridorBatch,
                              width: nat, modes: Declarations, policy: Policy, report: Report)
    requires c == b.(rows := c.rows) && multiset(b.rows) == multiset(c.rows)
    ensures Check(probs, b, width, modes) == Check(probs, c, width, modes)
    ensures var items, others := Items(entropy, probs, modes, b), Items(entropy, probs, modes, c);
            Total(items) > 0.0 && Reports(policy, items, report) <==> Total(others) > 0.0 && Reports(policy, others, report)
  {
    SameVerdict(probs, b, c, width, modes);
    SameItems(entropy, probs, modes, b, c);
    var items, others := Items(entropy, probs, modes, b), Items(entropy, probs, modes, c);
    if Total(items) > 0.0 && Reports(policy, items, report) { ReportForgetsOrder(policy, items, others, report); }
    if Total(others) > 0.0 && Reports(policy, others, report) { ReportForgetsOrder(policy, others, items, report); }
  }
}
