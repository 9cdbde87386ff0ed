/** Token mass statistics of a probability vector: the k most likely tokens. */
module TopMass {
  import opened Ordering
  import opened RealArithmetic

  predicate Greater(a: real, b: real) { a > b }

  lemma GreaterOrder()
    ensures TotalOrder(Greater)
  {
  }

  /** jnp.sort(p)[::-1] */
  function Descending(p: seq<real>): seq<real> { Sort(Greater, p) }

  function Least(a: nat, b: nat): nat { if a <= b then a else b }

  /** top(count): the sum of the first min(count, vocabulary) ordered probabilities. */
  function Top(p: seq<real>, count: nat): real
  {
    SortLength(p);
    Sum(Descending(p)[..Least(count, |p|)])
  }

  lemma SortLength(p: seq<real>)
    ensures |Descending(p)| == |p|
  {
    assert |multiset(Descending(p))| == |multiset(p)|;
  }

  ghost predicate Probability(p: seq<real>) { Sum(p) == 1.0 && forall x | x in p :: x >= 0.0 }

  /** The probabilities of the tokens a set contains, a set of tokens being one flag a token. */
  function Picked(p: seq<real>, tokens: seq<bool>): seq<real>
    requires |tokens| == |p|
  {
    if p == [] then []
    else if tokens[0] then [p[0]] + Picked(p[1..], tokens[1..])
    else Picked(p[1..], tokens[1..])
  }

  /** The probability mass of a set of tokens. */
  function Mass(p: seq<real>, tokens: seq<bool>): real
    requires |tokens| == |p|
  {
    Sum(Picked(p, tokens))
  }

  /** tokens is a set of exactly n different tokens of p's vocabulary. */
  ghost predicate TokenSet(p: seq<real>, tokens: seq<bool>, n: nat) {
    |tokens| == |p| && |Picked(p, tokens)| == n
  }

  lemma HeadIsLargest(d: seq<real>, x: real)
    requires Sorted(Greater, d) && x in multiset(d)
    ensures x <= d[0]
  {
    var i :| 0 <= i < |d| && d[i] == x;
    if 0 < i {
      assert !Greater(d[i], d[0]);
    }
  }

  lemma WithoutHead(d: seq<real>, q: seq<real>, x: real, rest: seq<real>)
    requires d != [] && multiset(q) <= multiset(d) && x in q && multiset(rest) == multiset(q) - multiset{x}
    requires d[0] in q ==> x == d[0]
    ensures multiset(rest) <= multiset(d[1..])
  {
    assert d == [d[0]] + d[1..];
    forall v ensures multiset(rest)[v] <= multiset(d[1..])[v] {
      assert multiset(d)[v] == multiset(d[1..])[v] + (if v == d[0] then 1 else 0);
      assert multiset(q)[v] <= multiset(d)[v];
    }
  }

  lemma HeadAndTake(d: seq<real>, n: nat)
    requires 0 < n <= |d|
    ensures Sum(d[..n]) == d[0] + Sum(d[1..][..n - 1])
  {
    assert d[..n][1..] == d[1..][..n - 1];
  }

  /** Any values taken from a descending sequence sum to at most as many first ones. */
  lemma {:induction false} FirstAreLargest(d: seq<real>, q: seq<real>)
    requires Sorted(Greater, d) && multiset(q) <= multiset(d)
    ensures |q| <= |d| && Sum(q) <= Sum(d[..|q|])
    decreases |d|
  {
    if q == [] {
      assert d[..0] == [];
    } else {
      assert q[0] in multiset(q);
      assert q[0] in multiset(d);
      var x := if d[0] in q then d[0] else q[0];
      assert x in multiset(q);
      HeadIsLargest(d, x);
      var rest := TakeOut(q, x);
      WithoutHead(d, q, x, rest);
      FirstAreLargest(d[1..], rest);
      HeadAndTake(d, |q|);
    }
  }

  /** The values a set of tokens picks are among the values of the whole vector. */
  lemma {:induction false} PickedFromAll(p: seq<real>, tokens: seq<bool>)
    requires |tokens| == |p|
    ensures multiset(Picked(p, tokens)) <= multiset(p)
  {
    if p != [] {
      assert p == [p[0]] + p[1..];
      PickedFromAll(p[1..], tokens[1..]);
    }
  }

  lemma FitsBelow(p: seq<real>, q: seq<real>)
    requires p != [] && multiset(q) <= multiset(p) && p[0] !in q
    ensures multiset(q) <= multiset(p[1..])
  {
    assert p == [p[0]] + p[1..];
    forall v ensures multiset(q)[v] <= multiset(p[1..])[v] {
      assert multiset(p)[v] == multiset(p[1..])[v] + (if v == p[0] then 1 else 0);
    }
  }

  /** Values taken from p are what some set of tokens picks. */
  lemma {:induction false} Realised(p: seq<real>, q: seq<real>) returns (tokens: seq<bool>)
    requires multiset(q) <= multiset(p)
    ensures |tokens| == |p| && multiset(Picked(p, tokens)) == multiset(q)
    decreases |p|
  {
    if p == [] {
      tokens := [];
    } else if p[0] in q {
      var rest := TakeOut(q, p[0]);
      WithoutHead(p, q, p[0], rest);
      var more := Realised(p[1..], rest);
      tokens := [true] + more;
      assert tokens[1..] == more;
      assert Picked(p, tokens) == [p[0]] + Picked(p[1..], more);
    } else {
      FitsBelow(p, q);
      var more := Realised(p[1..], q);
      tokens := [false] + more;
      assert tokens[1..] == more;
    }
  }

  lemma SameSize(a: seq<real>, b: seq<real>)
    requires multiset(a) == multiset(b)
    ensures |a| == |b|
  {
    assert |multiset(a)| == |a| && |multiset(b)| == |b|;
  }

  /** top(count) is the largest mass of a set of min(count, vocabulary) tokens: no such set has
      more, and some such set has it. */
  lemma TopIsMaximum(p: seq<real>, count: nat)
    ensures forall tokens | TokenSet(p, tokens, Least(count, |p|)) :: Mass(p, tokens) <= Top(p, count)
    ensures exists tokens :: TokenSet(p, tokens, Least(count, |p|)) && Mass(p, tokens) == Top(p, count)
  {
    var d, n := Descending(p), Least(count, |p|);
    SortLength(p);
    GreaterOrder();
    SortSorted(Greater, p);
    forall tokens | TokenSet(p, tokens, n) ensures Mass(p, tokens) <= Top(p, count) {
      PickedFromAll(p, tokens);
      FirstAreLargest(d, Picked(p, tokens));
    }
    assert d == d[..n] + d[n..];
    assert multiset(d[..n]) <= multiset(p);
    var best := Realised(p, d[..n]);
    SumPermutes(Picked(p, best), d[..n]);
    SameSize(Picked(p, best), d[..n]);
    assert TokenSet(p, best, n);
  }

  /** More tokens never have less mass, all mass is at most one, so the tail is nonnegative. */
  lemma TopMonotone(p: seq<real>, few: nat, many: nat)
    requires Probability(p) && few <= many
    ensures 0.0 <= Top(p, few) <= Top(p, many) <= 1.0
    ensures many >= |p| ==> Top(p, many) == 1.0
  {
    SortLength(p);
    var d, a, b := Descending(p), Least(few, |p|), Least(many, |p|);
    forall x | x in d ensures x >= 0.0 {
      assert x in multiset(d);
      assert x in p;
    }
    assert d[..b] == d[..a] + d[a..b] && d == d[..b] + d[b..];
    SumConcat(d[..a], d[a..b]);
    SumConcat(d[..b], d[b..]);
    assert forall x | x in d[..a] :: x in d;
    assert forall x | x in d[a..b] :: x in d;
    assert forall x | x in d[b..] :: x in d;
    NonnegativeSum(d[..a]);
    NonnegativeSum(d[a..b]);
    NonnegativeSum(d[b..]);
    SumPermutes(d, p);
  }
}
