/** What the corridor report says in the terms of its inputs: distances to intervals, weighted
    means, order statistics of a distribution, and the batches that are accepted. */
module CorridorMeaning {
  import opened Basics
  import opened Ordering
  import opened Materialize
  import opened RealArithmetic
  import opened TopMass
  import opened CorridorObjective

  // ---- the distance charged ----

  /** d is the squared distance from v to the interval: attained in it, and least. */
  ghost predicate SquaredDistance(d: real, v: real, interval: Interval) {
    && (exists x :: interval.Contains(x) && d == (v - x) * (v - x))
    && (forall y | interval.Contains(y) :: d <= (v - y) * (v - y))
  }

  lemma SquaresGrow(a: real, b: real)
    requires 0.0 <= a <= b
    ensures a * a <= b * b
  {
    assert a * a <= a * b;
    assert a * b <= b * b;
  }

  lemma SquareOfNegated(a: real)
    ensures (-a) * (-a) == a * a
  {
  }

  lemma OutsideIsDistance(v: real, i: Interval)
    requires i.minimum <= i.maximum
    ensures var o := Outside(v, i); SquaredDistance(o * o, v, i)
  {
    var o := Outside(v, i);
    var nearest := if v < i.minimum then i.minimum else if v > i.maximum then i.maximum else v;
    assert i.Contains(nearest);
    SquareOfNegated(v - nearest);
    assert o == v - nearest || o == -(v - nearest);
    assert o * o == (v - nearest) * (v - nearest);
    forall y | i.Contains(y) ensures o * o <= (v - y) * (v - y) { Nearer(v, i, y); }
  }

  lemma Nearer(v: real, i: Interval, y: real)
    requires i.Contains(y)
    ensures Outside(v, i) * Outside(v, i) <= (v - y) * (v - y)
  {
    SquareOfNegated(v - y);
    if v < y { SquaresGrow(Outside(v, i), y - v); } else { SquaresGrow(Outside(v, i), v - y); }
  }

  lemma DistanceUnique(d: real, e: real, v: real, i: Interval)
    requires SquaredDistance(d, v, i) && SquaredDistance(e, v, i)
    ensures d == e
  {
    var x :| i.Contains(x) && d == (v - x) * (v - x);
    var y :| i.Contains(y) && e == (v - y) * (v - y);
  }

  /** The distance charged for an item and a statistic is the squared distance of the value to
      the declared interval. */
  lemma SquaredIsDistance(i: Item, s: Statistic)
    requires i.bounds.At(s).minimum <= i.bounds.At(s).maximum
    ensures SquaredDistance(Squared(i, s), i.values.At(s), i.bounds.At(s))
  {
    OutsideIsDistance(i.values.At(s), i.bounds.At(s));
  }

  // ---- the report ----

  /** The weighted sum of f over the items. */
  function WeightedSum(items: seq<Item>, f: Item -> real): real {
    if items == [] then 0.0 else items[0].weight * f(items[0]) + WeightedSum(items[1..], f)
  }

  lemma {:induction false} SumIsWeighted(items: seq<Item>, g: Item -> real, f: Item -> real)
    requires forall i | i in items :: g(i) == i.weight * f(i)
    ensures Sum(Map(g, items)) == WeightedSum(items, f)
  {
    if items != [] {
      assert items[0] in items && forall i | i in items[1..] :: i in items;
      assert Map(g, items)[1..] == Map(g, items[1..]);
      SumIsWeighted(items[1..], g, f);
    }
  }

  /** distance gives the squared distance of each item's value to its interval. */
  ghost predicate Measures(distance: (Item, Statistic) -> real, items: seq<Item>) {
    forall i, s | i in items :: SquaredDistance(distance(i, s), i.values.At(s), i.bounds.At(s))
  }

  function One(): Item -> real { (i: Item) => 1.0 }

  function DistanceOf(distance: (Item, Statistic) -> real, s: Statistic): Item -> real { (i: Item) => distance(i, s) }

  /** 1 for an item inside the interval of s, 0 otherwise; and inside all five. */
  function InOne(s: Statistic): Item -> real {
    (i: Item) => if i.bounds.At(s).minimum <= i.values.At(s) <= i.bounds.At(s).maximum then 1.0 else 0.0
  }

  function InFive(): Item -> real {
    (i: Item) => if forall s: Statistic :: i.bounds.At(s).minimum <= i.values.At(s) <= i.bounds.At(s).maximum then 1.0 else 0.0
  }

  /** The weighted mean of f. */
  function Mean(items: seq<Item>, f: Item -> real): real
    requires WeightedSum(items, One()) != 0.0
  {
    WeightedSum(items, f) / WeightedSum(items, One())
  }

  /** One statistic's part of the loss: its policy weight times the weighted sum of distances. */
  function LossPart(items: seq<Item>, weight: real, f: Item -> real): real
    requires WeightedSum(items, One()) != 0.0
  {
    Times(weight, WeightedSum(items, f)) / WeightedSum(items, One())
  }

  /** Every number of the report: the mean squared distances, the loss as their policy-weighted
      sum, and the shares of the weight inside one interval and inside all five. */
  ghost predicate SpelledOut(policy: Policy, items: seq<Item>, distance: (Item, Statistic) -> real, report: Report) {
    && WeightedSum(items, One()) > 0.0
    && (forall s: Statistic :: s in report.meanSquaredDistance && report.meanSquaredDistance[s] == Mean(items, DistanceOf(distance, s)))
    && report.loss == LossPart(items, policy.entropy, DistanceOf(distance, Entropy))
                      + LossPart(items, policy.top1Margin, DistanceOf(distance, Top1Margin))
                      + LossPart(items, policy.top8Mass, DistanceOf(distance, Top8Mass))
                      + LossPart(items, policy.top32Mass, DistanceOf(distance, Top32Mass))
                      + LossPart(items, policy.tailMass, DistanceOf(distance, TailMass))
    && (forall s: Statistic :: s in report.insideRate && report.insideRate[s] == Mean(items, InOne(s)))
    && report.allInsideRate == Mean(items, InFive())
  }

  lemma TotalIsWeighted(items: seq<Item>)
    ensures Total(items) == WeightedSum(items, One())
  {
    SumIsWeighted(items, WeightOf(), One());
  }

  lemma TermIsDistance(i: Item, distance: (Item, Statistic) -> real, s: Statistic)
    requires SquaredDistance(distance(i, s), i.values.At(s), i.bounds.At(s))
    ensures SquaredTerm(s)(i) == i.weight * DistanceOf(distance, s)(i)
  {
    SquaredIsDistance(i, s);
    DistanceUnique(distance(i, s), Squared(i, s), i.values.At(s), i.bounds.At(s));
  }

  lemma SumSpelledOut(items: seq<Item>, distance: (Item, Statistic) -> real, s: Statistic)
    requires Measures(distance, items)
    ensures Sum(Map(SquaredTerm(s), items)) == WeightedSum(items, DistanceOf(distance, s))
  {
    forall i | i in items ensures SquaredTerm(s)(i) == i.weight * DistanceOf(distance, s)(i) { TermIsDistance(i, distance, s); }
    SumIsWeighted(items, SquaredTerm(s), DistanceOf(distance, s));
  }

  lemma ShareSpelledOut(items: seq<Item>, p: Item -> bool, f: Item -> real)
    requires Total(items) > 0.0 && forall i | i in items :: f(i) == if p(i) then 1.0 else 0.0
    ensures WeightedSum(items, One()) > 0.0 && Share(items, p) == Mean(items, f)
  {
    TotalIsWeighted(items);
    SumIsWeighted(items, Flagged(p), f);
  }

  lemma PartSpelledOut(policy: Policy, items: seq<Item>, distance: (Item, Statistic) -> real, s: Statistic)
    requires Total(items) > 0.0 && Measures(distance, items)
    ensures WeightedSum(items, One()) > 0.0
    ensures Part(policy, items, s) == LossPart(items, policy.At(s), DistanceOf(distance, s))
    ensures MeanSquared(items, s) == Mean(items, DistanceOf(distance, s))
  {
    TotalIsWeighted(items);
    SumSpelledOut(items, distance, s);
  }

  lemma LossIsFiveParts(policy: Policy, items: seq<Item>)
    requires Total(items) > 0.0
    ensures LossOver(policy, items, STATISTICS) ==
            Part(policy, items, Entropy) + Part(policy, items, Top1Margin) + Part(policy, items, Top8Mass)
            + Part(policy, items, Top32Mass) + Part(policy, items, TailMass)
  {
    LossAppend(policy, items, [], Entropy);
    LossAppend(policy, items, [Entropy], Top1Margin);
    LossAppend(policy, items, [Entropy, Top1Margin], Top8Mass);
    LossAppend(policy, items, [Entropy, Top1Margin, Top8Mass], Top32Mass);
    LossAppend(policy, items, [Entropy, Top1Margin, Top8Mass, Top32Mass], TailMass);
    assert [] + [Entropy] == [Entropy] && [Entropy] + [Top1Margin] == [Entropy, Top1Margin];
    assert [Entropy, Top1Margin] + [Top8Mass] == [Entropy, Top1Margin, Top8Mass];
    assert [Entropy, Top1Margin, Top8Mass] + [Top32Mass] == [Entropy, Top1Margin, Top8Mass, Top32Mass];
    assert [Entropy, Top1Margin, Top8Mass, Top32Mass] + [TailMass] == STATISTICS;
  }

  /** The report of any weighted items, in their own terms. */
  lemma ReportSpelledOut(policy: Policy, items: seq<Item>, distance: (Item, Statistic) -> real, report: Report)
    requires Total(items) > 0.0 && Reports(policy, items, report) && Measures(distance, items)
    ensures SpelledOut(policy, items, distance, report)
  {
    TotalIsWeighted(items);
    LossSpelledOut(policy, items, distance);
    forall s: Statistic ensures MeanSquared(items, s) == Mean(items, DistanceOf(distance, s)) {
      PartSpelledOut(policy, items, distance, s);
    }
    forall s: Statistic ensures Share(items, InsideOf(s)) == Mean(items, InOne(s)) { RateSpelledOut(items, s); }
    ShareSpelledOut(items, WithinAll(), InFive());
  }

  lemma LossSpelledOut(policy: Policy, items: seq<Item>, distance: (Item, Statistic) -> real)
    requires Total(items) > 0.0 && Measures(distance, items)
    ensures WeightedSum(items, One()) > 0.0
    ensures LossOver(policy, items, STATISTICS) ==
            LossPart(items, policy.entropy, DistanceOf(distance, Entropy))
            + LossPart(items, policy.top1Margin, DistanceOf(distance, Top1Margin))
            + LossPart(items, policy.top8Mass, DistanceOf(distance, Top8Mass))
            + LossPart(items, policy.top32Mass, DistanceOf(distance, Top32Mass))
            + LossPart(items, policy.tailMass, DistanceOf(distance, TailMass))
  {
    LossIsFiveParts(policy, items);
    PartSpelledOut(policy, items, distance, Entropy);
    PartSpelledOut(policy, items, distance, Top1Margin);
    PartSpelledOut(policy, items, distance, Top8Mass);
    PartSpelledOut(policy, items, distance, Top32Mass);
    PartSpelledOut(policy, items, distance, TailMass);
  }

  lemma RateSpelledOut(items: seq<Item>, s: Statistic)
    requires Total(items) > 0.0
    ensures WeightedSum(items, One()) > 0.0 && Share(items, InsideOf(s)) == Mean(items, InOne(s))
  {
    forall i | i in items ensures InOne(s)(i) == if InsideOf(s)(i) then 1.0 else 0.0 { InsideIsContained(i, s); }
    ShareSpelledOut(items, InsideOf(s), InOne(s));
  }

  // ---- the statistics ----

  /** The five statistics of a distribution: the margin between its two most likely tokens, the
      masses of the eight and of the thirty-two most likely ones, and what these leave over. */
  lemma StatisticsSpelledOut(entropy: seq<real> -> real, p: seq<real>) returns (first: nat, second: nat)
    requires |p| >= 2
    ensures first < |p| && second < |p| && first != second
    ensures forall k | 0 <= k < |p| :: p[k] <= p[first] && (k != first ==> p[k] <= p[second])
    ensures var v := Statistics(entropy, p);
            && v.entropy == entropy(p) && v.top1Margin == p[first] - p[second]
            && v.top8Mass == Top(p, 8) && v.top32Mass == Top(p, 32) && v.tailMass + Top(p, 32) == 1.0
  {
    first, second := TwoLargest(p);
  }

  lemma TwoLargest(p: seq<real>) returns (first: nat, second: nat)
    requires |p| >= 2
    ensures |Descending(p)| == |p| && first < |p| && second < |p| && first != second
    ensures p[first] == Descending(p)[0] && p[second] == Descending(p)[1]
    ensures forall k | 0 <= k < |p| :: p[k] <= p[first] && (k != first ==> p[k] <= p[second])
  {
    SortLength(p);
    GreaterOrder();
    SortSorted(Greater, p);
    first := Located(p);
    var others := p[..first] + p[first + 1..];
    WithoutLargest(p, first);
    second := LocatedNext(p, first);
    forall k | 0 <= k < |p| ensures p[k] <= p[first] && (k != first ==> p[k] <= p[second]) {
      assert p[k] in multiset(p);
      HeadIsLargest(Descending(p), p[k]);
      if k != first { NotAboveSecond(Descending(p), others, p, first, k); }
    }
  }

  lemma Located(p: seq<real>) returns (first: nat)
    requires |p| >= 2
    ensures |Descending(p)| == |p| && first < |p| && p[first] == Descending(p)[0]
  {
    SortLength(p);
    assert Descending(p)[0] in multiset(Descending(p));
    assert Descending(p)[0] in p;
    first :| first < |p| && p[first] == Descending(p)[0];
  }

  lemma WithoutLargest(p: seq<real>, first: nat)
    requires |p| >= 2 && |Descending(p)| == |p| && first < |p| && p[first] == Descending(p)[0]
    ensures multiset(p[..first] + p[first + 1..]) == multiset(Descending(p)[1..])
  {
    var d := Descending(p);
    assert p == p[..first] + [p[first]] + p[first + 1..];
    assert d == [d[0]] + d[1..];
    assert multiset(d) == multiset(p);
    assert multiset(p) == multiset(p[..first] + p[first + 1..]) + multiset{p[first]};
    assert multiset(d) == multiset(d[1..]) + multiset{d[0]};
    Cancel(multiset(p[..first] + p[first + 1..]), multiset(d[1..]), d[0]);
  }

  lemma Cancel(a: multiset<real>, b: multiset<real>, x: real)
    requires a + multiset{x} == b + multiset{x}
    ensures a == b
  {
    assert a == (a + multiset{x}) - multiset{x} && b == (b + multiset{x}) - multiset{x};
  }

  lemma LocatedNext(p: seq<real>, first: nat) returns (second: nat)
    requires |p| >= 2 && |Descending(p)| == |p| && first < |p| && p[first] == Descending(p)[0]
    ensures second < |p| && second != first && p[second] == Descending(p)[1]
  {
    var others, d := p[..first] + p[first + 1..], Descending(p);
    WithoutLargest(p, first);
    assert d[1..][0] == d[1] && d[1] in multiset(d[1..]);
    assert d[1] in others;
    var k :| 0 <= k < |others| && others[k] == d[1];
    second := if k < first then k else k + 1;
  }

  lemma NotAboveSecond(d: seq<real>, others: seq<real>, p: seq<real>, first: nat, k: nat)
    requires |d| >= 2 && Sorted(Greater, d) && multiset(others) == multiset(d[1..])
    requires first < |p| && k < |p| && k != first && others == p[..first] + p[first + 1..]
    ensures p[k] <= d[1]
  {
    assert others[if k < first then k else k - 1] == p[k];
    assert p[k] in multiset(others);
    assert Sorted(Greater, d[1..]);
    HeadIsLargest(d[1..], p[k]);
  }

  // ---- the batches accepted ----

  /** The assignment's effective weight: its weight where the token is attended to. */
  ghost predicate EffectiveWeight(b: CorridorBatch, r: Assignment, w: real) {
    exists k :: 0 <= k < |GlobalRows(b)| && GlobalRows(b)[k] == r.index && k < |b.mask| && 0 <= r.position < |b.mask[k]|
                && w == Times(r.weight, b.mask[k][r.position] as real)
  }

  /** A distribution over at least two tokens for each position of each row, no more distinct rows than the batch has,
      positions inside the rows, modes that declare all five intervals, and effective weights
      that are nonnegative with a positive sum. */
  ghost predicate Acceptable(probs: Distributions, b: CorridorBatch, width: nat, modes: Declarations) {
    LogitsShaped(probs, b, width) && RowsDeclared(b, width, modes) && exists ws :: EffectiveWeights(b, ws)
  }

  /** One vector for each position of each input, over at least two tokens. */
  ghost predicate LogitsShaped(probs: Distributions, b: CorridorBatch, width: nat) {
    && |probs| == |b.inputIds|
    && forall row | 0 <= row < |probs| :: |probs[row]| == width && forall at | 0 <= at < width :: |probs[row][at]| >= 2
  }

  /** As many inputs as examples with a row; rows inside the inputs, of modes declared in full. */
  ghost predicate RowsDeclared(b: CorridorBatch, width: nat, modes: Declarations) {
    && |set r | r in b.rows :: r.index| <= |b.inputIds|
    && forall r | r in b.rows :: 0 <= r.position < width && r.mode in modes && DeclaresFive(modes[r.mode])
  }

  /** The effective weights of the assignments are ws; none is negative and their sum is positive. */
  ghost predicate EffectiveWeights(b: CorridorBatch, ws: seq<real>) {
    |ws| == |b.rows| && Sum(ws) > 0.0 && forall k | 0 <= k < |ws| :: ws[k] >= 0.0 && EffectiveWeight(b, b.rows[k], ws[k])
  }

  lemma RowsCounted(b: CorridorBatch)
    ensures |GlobalRows(b)| == |set r | r in b.rows :: r.index|
  {
    var g := GlobalRows(b);
    NatOrder();
    UniqueAscends(NatLt, Indices(b.rows));
    IndicesOf(b.rows);
    StrictlySortedDistinct(NatLt, g);
    DistinctCard(g);
    assert Elems(g) == set r | r in b.rows :: r.index;
  }

  predicate DeclaresFive(d: map<Statistic, Interval>) {
    Entropy in d && Top1Margin in d && Top8Mass in d && Top32Mass in d && TailMass in d
  }

  lemma AllFive(d: map<Statistic, Interval>)
    ensures (forall s: Statistic :: s in d) <==> DeclaresFive(d)
  {
    if DeclaresFive(d) {
      forall s: Statistic ensures s in d {
        match s case Entropy => case Top1Margin => case Top8Mass => case Top32Mass => case TailMass =>
      }
    }
  }

  lemma WeightIsEffective(b: CorridorBatch, width: nat, r: Assignment, w: real)
    requires Rectangular(b, width) && CoordinatesFit(b, width) && r in b.rows
    ensures EffectiveWeight(b, r, w) <==> w == Effective(b.mask, GlobalRows(b), r)
  {
    RankInRange(b, r);
    GlobalDistinct(b);
    WeightAtRank(b, r, LocalRow(GlobalRows(b), r), w);
  }

  lemma GlobalDistinct(b: CorridorBatch)
    ensures Distinct(GlobalRows(b))
  {
    NatOrder();
    UniqueAscends(NatLt, Indices(b.rows));
    StrictlySortedDistinct(NatLt, GlobalRows(b));
  }

  lemma WeightAtRank(b: CorridorBatch, r: Assignment, row: nat, w: real)
    requires Distinct(GlobalRows(b)) && row == LocalRow(GlobalRows(b), r)
    requires row < |GlobalRows(b)| && GlobalRows(b)[row] == r.index && row < |b.mask| && 0 <= r.position < |b.mask[row]|
    ensures EffectiveWeight(b, r, w) <==> w == Effective(b.mask, GlobalRows(b), r)
  {
    assert Effective(b.mask, GlobalRows(b), r) == Times(r.weight, b.mask[row][r.position] as real);
  }

  lemma WeightsAccepted(b: CorridorBatch, width: nat)
    requires Rectangular(b, width) && CoordinatesFit(b, width)
    ensures WeightsFit(b) <==> exists ws :: EffectiveWeights(b, ws)
  {
    forall k, w | 0 <= k < |b.rows| ensures EffectiveWeight(b, b.rows[k], w) <==> w == Weights(b)[k] {
      WeightIsEffective(b, width, b.rows[k], w);
    }
    if WeightsFit(b) { FittingAreEffective(b); }
    if ws :| EffectiveWeights(b, ws) { EffectiveFit(b, ws); }
  }

  lemma FittingAreEffective(b: CorridorBatch)
    requires WeightsFit(b)
    requires forall k, w | 0 <= k < |b.rows| :: EffectiveWeight(b, b.rows[k], w) <==> w == Weights(b)[k]
    ensures EffectiveWeights(b, Weights(b))
  {
    assert forall k | 0 <= k < |Weights(b)| :: Weights(b)[k] in Weights(b);
  }

  lemma EffectiveFit(b: CorridorBatch, ws: seq<real>)
    requires EffectiveWeights(b, ws)
    requires forall k, w | 0 <= k < |b.rows| :: EffectiveWeight(b, b.rows[k], w) <==> w == Weights(b)[k]
    ensures WeightsFit(b)
  {
    assert ws == Weights(b);
  }

  /** Exactly these batches are accepted. */
  lemma AcceptsExactly(probs: Distributions, b: CorridorBatch, width: nat, modes: Declarations)
    requires Rectangular(b, width)
    ensures Check(probs, b, width, modes).None? <==> Acceptable(probs, b, width, modes)
  {
    CheckIsFive(probs, b, width, modes);
    CoordinatesAndModes(b, width, modes);
    if CoordinatesFit(b, width) { WeightsAccepted(b, width); }
  }

  lemma CheckIsFive(probs: Distributions, b: CorridorBatch, width: nat, modes: Declarations)
    ensures Check(probs, b, width, modes).None? <==>
            LogitsFit(probs, b, width) && CoordinatesFit(b, width) && WeightsFit(b) && StatisticsDeclared(b, modes)
    ensures LogitsFit(probs, b, width) <==> LogitsShaped(probs, b, width)
  {
  }

  lemma CoordinatesAndModes(b: CorridorBatch, width: nat, modes: Declarations)
    ensures CoordinatesFit(b, width) && StatisticsDeclared(b, modes) <==> RowsDeclared(b, width, modes)
  {
    RowsCounted(b);
    forall r | r in b.rows && r.mode in modes ensures (forall s: Statistic :: s in modes[r.mode]) <==> DeclaresFive(modes[r.mode]) {
      AllFive(modes[r.mode]);
    }
  }
}
