/** Sums and products of exact reals. */
module RealArithmetic {

  function Sum(s: seq<real>): real { if s == [] then 0.0 else s[0] + Sum(s[1..]) }

  lemma {:induction false} SumConcat(a: seq<real>, b: seq<real>)
    ensures Sum(a + b) == Sum(a) + Sum(b)
  {
    if a == [] {
      assert a + b == b;
    } else {
      assert (a + b)[1..] == a[1..] + b;
      SumConcat(a[1..], b);
    }
  }

  lemma TakeOut(b: seq<real>, x: real) returns (rest: seq<real>)
    requires x in b
    ensures multiset(rest) == multiset(b) - multiset{x} && Sum(b) == x + Sum(rest) && |rest| == |b| - 1
  {
    var i :| 0 <= i < |b| && b[i] == x;
    rest := b[..i] + b[i + 1..];
    assert b == b[..i] + [x] + b[i + 1..];
    SumConcat(b[..i] + [x], b[i + 1..]);
    SumConcat(b[..i], [x]);
    SumConcat(b[..i], b[i + 1..]);
    assert Sum([x]) == x;
  }

  lemma {:induction false} SumPermutes(a: seq<real>, b: seq<real>)
    requires multiset(a) == multiset(b)
    ensures Sum(a) == Sum(b)
  {
    assert |multiset(a)| == |a| && |multiset(b)| == |b|;
    if a != [] {
      assert a == [a[0]] + a[1..];
      assert a[0] in multiset(b);
      var rest := TakeOut(b, a[0]);
      SumPermutes(a[1..], rest);
    }
  }

  lemma {:induction false} NonnegativeSum(s: seq<real>)
    requires forall x | x in s :: x >= 0.0
    ensures Sum(s) >= 0.0
  {
    if s != [] {
      assert s[0] in s && forall x | x in s[1..] :: x in s;
      NonnegativeSum(s[1..]);
    }
  }

  /** A product by name: the facts below are all that proofs use of it. */
  function Times(x: real, y: real): real { x * y }

  lemma PositiveTimes(x: real, y: real)
    requires x > 0.0 && y > 0.0
    ensures Times(x, y) > 0.0
  {
  }

  lemma NegatedTimes(x: real, y: real)
    ensures Times(-x, -y) == Times(x, y)
  {
  }

  lemma ZeroTimes(x: real, y: real)
    requires x == 0.0 || y == 0.0
    ensures Times(x, y) == 0.0
  {
  }

  /** A product of nonnegative factors is zero exactly when a factor is. */
  lemma NonnegativeTimes(x: real, y: real)
    requires x >= 0.0 && y >= 0.0
    ensures Times(x, y) >= 0.0
    ensures Times(x, y) == 0.0 <==> x == 0.0 || y == 0.0
  {
    if x > 0.0 && y > 0.0 {
      PositiveTimes(x, y);
    } else {
      ZeroTimes(x, y);
    }
  }

  lemma Square(x: real)
    ensures Times(x, x) >= 0.0
    ensures Times(x, x) == 0.0 <==> x == 0.0
  {
    if x < 0.0 {
      PositiveTimes(-x, -x);
      NegatedTimes(x, x);
    } else {
      NonnegativeTimes(x, x);
    }
  }

  lemma Quotients(a: real, b: real, d: real)
    requires d > 0.0 && a <= b
    ensures a / d <= b / d
    ensures a / d == b / d <==> a == b
  {
  }

  lemma ProperFraction(a: real, d: real)
    requires d > 0.0 && 0.0 <= a <= d
    ensures 0.0 <= a / d <= 1.0
    ensures a / d == 1.0 <==> a == d
  {
    Quotients(0.0, a, d);
    Quotients(a, d, d);
    assert 0.0 / d == 0.0 && d / d == 1.0;
  }
}
