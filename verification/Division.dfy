/** Remainders, as Python and Dafny both compute them for a positive divisor. */
module Division {

  lemma RemainderUnique(d: int, q: int, r: int, q2: int, r2: int)
    requires 0 <= r < d && 0 <= r2 < d && d * q + r == d * q2 + r2
    ensures r == r2
  {
    assert d * (q2 - q) == d * q2 - d * q;
    assert d * (q - q2) == d * q - d * q2;
    if q2 - q >= 1 { AtLeastOnce(d, q2 - q); }
    if q - q2 >= 1 { AtLeastOnce(d, q - q2); }
  }

  lemma AtLeastOnce(d: int, k: int)
    requires d > 0 && k >= 1
    ensures d * k >= d
  {
  }

  lemma {:induction false} ShiftByMultiple(x: int, q: int, n: int)
    requires n > 0
    ensures (x + n * q) % n == x % n
  {
    var y := x + n * q;
    var r, t := x / n, y / n;
    assert x == n * r + x % n && y == n * t + y % n;
    assert n * (r + q) == n * r + n * q;
    RemainderUnique(n, r + q, x % n, t, y % n);
  }

  lemma CongruentShift(a: int, b: int, d: int, n: int)
    requires n > 0 && a % n == b % n
    ensures (a + d) % n == (b + d) % n
  {
    var q := a / n - b / n;
    assert a == n * (a / n) + a % n && b == n * (b / n) + b % n;
    assert n * q == n * (a / n) - n * (b / n);
    assert a + d == (b + d) + n * q;
    ShiftByMultiple(b + d, q, n);
  }

  /** The next multiple of n after x. */
  lemma NextMultiple(x: int, n: int)
    requires n > 0
    ensures 1 <= n - x % n <= n && (x + (n - x % n)) % n == 0
  {
    assert x == n * (x / n) + x % n;
    assert n * (x / n + 1) == n * (x / n) + n;
    assert x + (n - x % n) == 0 + n * (x / n + 1);
    ShiftByMultiple(0, x / n + 1, n);
  }
}
