/** Strict orders, lexicographic order and `sorted`: what Python's comparison of
    strings and tuples and its stable sort promise. */
module Ordering {
  import opened Basics

  ghost predicate StrictOrder<T(!new)>(lt: (T, T) -> bool) {
    && (forall a :: !lt(a, a))
    && (forall a, b, c :: lt(a, b) && lt(b, c) ==> lt(a, c))
  }

  /** Any two different elements of s are comparable. */
  ghost predicate ConnectedOn<T(!new)>(lt: (T, T) -> bool, s: seq<T>) {
    forall i, j :: 0 <= i < |s| && 0 <= j < |s| && s[i] != s[j] ==> lt(s[i], s[j]) || lt(s[j], s[i])
  }

  ghost predicate TotalOrder<T(!new)>(lt: (T, T) -> bool) {
    StrictOrder(lt) && forall a, b :: a != b ==> lt(a, b) || lt(b, a)
  }

  /** Nothing comes before something smaller. */
  ghost predicate Sorted<T(!new)>(lt: (T, T) -> bool, s: seq<T>) {
    forall i, j :: 0 <= i < j < |s| ==> !lt(s[j], s[i])
  }

  ghost predicate StrictlySorted<T(!new)>(lt: (T, T) -> bool, s: seq<T>) {
    forall i, j :: 0 <= i < j < |s| ==> lt(s[i], s[j])
  }

  // ---- lexicographic order ----

  predicate Lex<T(==)>(lt: (T, T) -> bool, a: seq<T>, b: seq<T>) {
    if b == [] then false
    else if a == [] then true
    else lt(a[0], b[0]) || (a[0] == b[0] && Lex(lt, a[1..], b[1..]))
  }

  predicate ByteLt(a: Byte, b: Byte) { a < b }

  predicate TextLt(a: Text, b: Text) { Lex(ByteLt, a, b) }

  predicate PathLt(a: Path, b: Path) { Lex(TextLt, a, b) }

  predicate CharLt(a: char, b: char) { a < b }

  predicate StringLt(a: string, b: string) { Lex(CharLt, a, b) }

  lemma {:induction false} LexIrreflexive<T(!new)>(lt: (T, T) -> bool, a: seq<T>)
    requires StrictOrder(lt)
    ensures !Lex(lt, a, a)
  {
    if a != [] { LexIrreflexive(lt, a[1..]); }
  }

  lemma {:induction false} LexTransitive<T(!new)>(lt: (T, T) -> bool, a: seq<T>, b: seq<T>, c: seq<T>)
    requires StrictOrder(lt) && Lex(lt, a, b) && Lex(lt, b, c)
    ensures Lex(lt, a, c)
  {
    if a != [] && a[0] == b[0] && b[0] == c[0] { LexTransitive(lt, a[1..], b[1..], c[1..]); }
  }

  lemma {:induction false} LexConnected<T(!new)>(lt: (T, T) -> bool, a: seq<T>, b: seq<T>)
    requires TotalOrder(lt) && a != b
    ensures Lex(lt, a, b) || Lex(lt, b, a)
  {
    if a != [] && b != [] && a[0] == b[0] {
      assert a == [a[0]] + a[1..] && b == [b[0]] + b[1..];
      LexConnected(lt, a[1..], b[1..]);
    }
  }

  // ---- what the orders compare ----

  /** b goes on where a ends, or has the larger element at the first difference. */
  ghost predicate FirstDifference<T>(lt: (T, T) -> bool, a: seq<T>, b: seq<T>) {
    exists n :: DiffersAt(lt, a, b, n)
  }

  predicate DiffersAt<T(==)>(lt: (T, T) -> bool, a: seq<T>, b: seq<T>, n: int) {
    0 <= n < |b| && n <= |a| && a[..n] == b[..n] && (n == |a| || lt(a[n], b[n]))
  }

  lemma {:induction false} LexIsFirstDifference<T(!new)>(lt: (T, T) -> bool, a: seq<T>, b: seq<T>)
    requires StrictOrder(lt)
    ensures Lex(lt, a, b) <==> FirstDifference(lt, a, b)
  {
    if a != [] && b != [] {
      LexIsFirstDifference(lt, a[1..], b[1..]);
      if a[0] == b[0] { HeadsEqual(lt, a, b); } else { HeadsDiffer(lt, a, b); }
    } else if b != [] {
      assert DiffersAt(lt, a, b, 0);
    }
  }

  lemma HeadsEqual<T(!new)>(lt: (T, T) -> bool, a: seq<T>, b: seq<T>)
    requires StrictOrder(lt) && a != [] && b != [] && a[0] == b[0]
    ensures FirstDifference(lt, a, b) <==> FirstDifference(lt, a[1..], b[1..])
  {
    if n :| DiffersAt(lt, a, b, n) {
      assert n > 0 && a[1..][..n - 1] == a[..n][1..] && b[1..][..n - 1] == b[..n][1..];
      assert DiffersAt(lt, a[1..], b[1..], n - 1);
    }
    if n :| DiffersAt(lt, a[1..], b[1..], n) {
      assert a[..n + 1] == [a[0]] + a[1..][..n] && b[..n + 1] == [b[0]] + b[1..][..n];
      assert DiffersAt(lt, a, b, n + 1);
    }
  }

  lemma HeadsDiffer<T(!new)>(lt: (T, T) -> bool, a: seq<T>, b: seq<T>)
    requires a != [] && b != [] && a[0] != b[0]
    ensures FirstDifference(lt, a, b) <==> lt(a[0], b[0])
  {
    forall n | 0 < n <= |a| && n <= |b| ensures a[..n] != b[..n] { assert a[..n][0] == a[0] && b[..n][0] == b[0]; }
    assert DiffersAt(lt, a, b, 0) <==> lt(a[0], b[0]);
  }

  /** a comes before b in the order of their bytes: b goes on where a ends, or has the larger
      byte at the first difference. */
  ghost predicate BytesBefore(a: Text, b: Text) {
    exists n :: 0 <= n < |b| && n <= |a| && a[..n] == b[..n] && (n == |a| || a[n] < b[n])
  }

  lemma TextOrderIsBytes(a: Text, b: Text)
    ensures TextLt(a, b) <==> BytesBefore(a, b)
  {
    LexIsFirstDifference(ByteLt, a, b);
    forall n ensures DiffersAt(ByteLt, a, b, n) <==> 0 <= n < |b| && n <= |a| && a[..n] == b[..n] && (n == |a| || a[n] < b[n]) {}
  }

  /** The same for strings and their code points. */
  ghost predicate CharsBefore(a: string, b: string) {
    exists n :: 0 <= n < |b| && n <= |a| && a[..n] == b[..n] && (n == |a| || a[n] < b[n])
  }

  lemma StringOrderIsChars(a: string, b: string)
    ensures StringLt(a, b) <==> CharsBefore(a, b)
  {
    LexIsFirstDifference(CharLt, a, b);
    forall n ensures DiffersAt(CharLt, a, b, n) <==> 0 <= n < |b| && n <= |a| && a[..n] == b[..n] && (n == |a| || a[n] < b[n]) {}
  }

  lemma StringOrder()
    ensures TotalOrder(StringLt)
  {
    forall a: string ensures !StringLt(a, a) { LexIrreflexive(CharLt, a); }
    forall a: string, b: string, c: string | StringLt(a, b) && StringLt(b, c) ensures StringLt(a, c) {
      LexTransitive(CharLt, a, b, c);
    }
    forall a: string, b: string | a != b ensures StringLt(a, b) || StringLt(b, a) { LexConnected(CharLt, a, b); }
  }

  lemma TextOrder()
    ensures TotalOrder(TextLt)
  {
    forall a: Text ensures !TextLt(a, a) { LexIrreflexive(ByteLt, a); }
    forall a: Text, b: Text, c: Text | TextLt(a, b) && TextLt(b, c) ensures TextLt(a, c) {
      LexTransitive(ByteLt, a, b, c);
    }
    forall a: Text, b: Text | a != b ensures TextLt(a, b) || TextLt(b, a) { LexConnected(ByteLt, a, b); }
  }

  lemma PathOrder()
    ensures TotalOrder(PathLt)
  {
    TextOrder();
    forall a: Path ensures !PathLt(a, a) { LexIrreflexive(TextLt, a); }
    forall a: Path, b: Path, c: Path | PathLt(a, b) && PathLt(b, c) ensures PathLt(a, c) {
      LexTransitive(TextLt, a, b, c);
    }
    forall a: Path, b: Path | a != b ensures PathLt(a, b) || PathLt(b, a) { LexConnected(TextLt, a, b); }
  }

  /** A common prefix does not influence the comparison. */
  lemma {:induction false} LexPrefix<T(!new)>(lt: (T, T) -> bool, p: seq<T>, a: seq<T>, b: seq<T>)
    requires StrictOrder(lt)
    ensures Lex(lt, p + a, p + b) == Lex(lt, a, b)
  {
    if p == [] {
      assert p + a == a && p + b == b;
    } else {
      assert (p + a)[1..] == p[1..] + a && (p + b)[1..] == p[1..] + b;
      LexPrefix(lt, p[1..], a, b);
    }
  }

  // ---- sorted ----

  /** Puts x after every element that is not greater, as a stable sort does. */
  function Insert<T>(lt: (T, T) -> bool, x: T, s: seq<T>): (r: seq<T>)
    ensures multiset(r) == multiset(s) + multiset{x}
  {
    if s == [] then [x]
    else if lt(x, s[|s| - 1]) then
      assert s == s[..|s| - 1] + [s[|s| - 1]];
      Insert(lt, x, s[..|s| - 1]) + [s[|s| - 1]]
    else s + [x]
  }

  function Sort<T>(lt: (T, T) -> bool, s: seq<T>): (r: seq<T>)
    ensures multiset(r) == multiset(s)
  {
    if s == [] then []
    else
      assert s == s[..|s| - 1] + [s[|s| - 1]];
      Insert(lt, s[|s| - 1], Sort(lt, s[..|s| - 1]))
  }

  lemma FrontConnected<T(!new)>(lt: (T, T) -> bool, s: seq<T>, x: T)
    requires s != [] && Sorted(lt, s) && ConnectedOn(lt, s + [x])
    ensures Sorted(lt, s[..|s| - 1]) && ConnectedOn(lt, s[..|s| - 1] + [x])
  {
    var short, all := s[..|s| - 1] + [x], s + [x];
    forall i, j | 0 <= i < |short| && 0 <= j < |short| && short[i] != short[j] ensures lt(short[i], short[j]) || lt(short[j], short[i]) {
      var i', j' := if i == |s| - 1 then |s| else i, if j == |s| - 1 then |s| else j;
      assert short[i] == all[i'] && short[j] == all[j'];
    }
  }

  ghost predicate NoneAbove<T(!new)>(lt: (T, T) -> bool, x: T, s: seq<T>) { forall i | 0 <= i < |s| :: !lt(x, s[i]) }

  lemma LastNotAbove<T(!new)>(lt: (T, T) -> bool, x: T, s: seq<T>)
    requires StrictOrder(lt) && Sorted(lt, s) && s != [] && lt(x, s[|s| - 1])
    ensures NoneAbove(lt, s[|s| - 1], Insert(lt, x, s[..|s| - 1]))
  {
    var front, last := s[..|s| - 1], s[|s| - 1];
    var r := Insert(lt, x, front);
    forall i | 0 <= i < |r| ensures !lt(last, r[i]) {
      assert r[i] in multiset(r);
      if r[i] != x {
        assert r[i] in multiset(front);
      }
    }
  }

  lemma {:induction false} InsertSorted<T(!new)>(lt: (T, T) -> bool, x: T, s: seq<T>)
    requires StrictOrder(lt) && Sorted(lt, s) && ConnectedOn(lt, s + [x])
    ensures Sorted(lt, Insert(lt, x, s))
  {
    if s != [] && lt(x, s[|s| - 1]) {
      var front, last := s[..|s| - 1], s[|s| - 1];
      FrontConnected(lt, s, x);
      InsertSorted(lt, x, front);
      LastNotAbove(lt, x, s);
      SortedAppend(lt, Insert(lt, x, front), last);
      assert Insert(lt, x, s) == Insert(lt, x, front) + [last];
    } else if s != [] {
      assert (s + [x])[|s|] == x && (s + [x])[|s| - 1] == s[|s| - 1];
      assert s[|s| - 1] == x || lt(s[|s| - 1], x);
      forall i | 0 <= i < |s| ensures !lt(x, s[i]) {
        assert i < |s| - 1 ==> !lt(s[|s| - 1], s[i]);
      }
      SortedAppend(lt, s, x);
    }
  }

  lemma SortedAppend<T(!new)>(lt: (T, T) -> bool, s: seq<T>, x: T)
    requires Sorted(lt, s) && NoneAbove(lt, x, s)
    ensures Sorted(lt, s + [x])
  {
  }

  lemma {:induction false} SortSorted<T(!new)>(lt: (T, T) -> bool, s: seq<T>)
    requires StrictOrder(lt) && ConnectedOn(lt, s)
    ensures Sorted(lt, Sort(lt, s))
  {
    if s != [] {
      var front, last := s[..|s| - 1], s[|s| - 1];
      SortSorted(lt, front);
      var r := Sort(lt, front);
      forall i, j | 0 <= i < |r + [last]| && 0 <= j < |r + [last]| && (r + [last])[i] != (r + [last])[j]
        ensures lt((r + [last])[i], (r + [last])[j]) || lt((r + [last])[j], (r + [last])[i])
      {
        assert s == front + [last];
        assert multiset(r + [last]) == multiset(s);
        assert (r + [last])[i] in multiset(r + [last]) && (r + [last])[j] in multiset(r + [last]);
        assert (r + [last])[i] in s && (r + [last])[j] in s;
      }
      InsertSorted(lt, last, r);
    }
  }

  lemma SortedHeads<T(!new)>(lt: (T, T) -> bool, a: seq<T>, b: seq<T>)
    requires StrictOrder(lt) && ConnectedOn(lt, a) && a != []
    requires Sorted(lt, a) && Sorted(lt, b) && multiset(a) == multiset(b)
    ensures b != [] && a[0] == b[0]
  {
    assert a[0] in multiset(b);
    assert b[0] in multiset(a);
    var i :| 0 <= i < |b| && b[i] == a[0];
    var j :| 0 <= j < |a| && a[j] == b[0];
    assert i == 0 || !lt(b[i], b[0]);
    assert j == 0 || !lt(a[j], a[0]);
  }

  /** Two sorted arrangements of the same elements are the same sequence. */
  lemma {:induction false} SortedUnique<T(!new)>(lt: (T, T) -> bool, a: seq<T>, b: seq<T>)
    requires StrictOrder(lt) && ConnectedOn(lt, a)
    requires Sorted(lt, a) && Sorted(lt, b) && multiset(a) == multiset(b)
    ensures a == b
  {
    if a == [] {
      assert |multiset(b)| == 0;
    } else {
      SortedHeads(lt, a, b);
      SameTails(a, b);
      SortedTail(lt, a);
      SortedTail(lt, b);
      SortedUnique(lt, a[1..], b[1..]);
      assert a == [a[0]] + a[1..] && b == [b[0]] + b[1..];
    }
  }

  lemma SameTails<T>(a: seq<T>, b: seq<T>)
    requires a != [] && b != [] && a[0] == b[0] && multiset(a) == multiset(b)
    ensures multiset(a[1..]) == multiset(b[1..])
  {
    assert a == [a[0]] + a[1..] && b == [b[0]] + b[1..];
    assert multiset(a[1..]) == multiset(a) - multiset{a[0]};
    assert multiset(b[1..]) == multiset(b) - multiset{b[0]};
  }

  lemma SortedTail<T(!new)>(lt: (T, T) -> bool, s: seq<T>)
    requires s != []
    ensures Sorted(lt, s) ==> Sorted(lt, s[1..])
    ensures ConnectedOn(lt, s) ==> ConnectedOn(lt, s[1..])
  {
  }

  /** `sorted` forgets the order it is given. */
  lemma SortForgetsOrder<T(!new)>(lt: (T, T) -> bool, a: seq<T>, b: seq<T>)
    requires StrictOrder(lt) && ConnectedOn(lt, a) && multiset(a) == multiset(b)
    ensures Sort(lt, a) == Sort(lt, b)
  {
    SortSorted(lt, a);
    ConnectedAcross(lt, a, b);
    SortSorted(lt, b);
    ConnectedAcross(lt, a, Sort(lt, a));
    SortedUnique(lt, Sort(lt, a), Sort(lt, b));
  }

  lemma ConnectedAcross<T(!new)>(lt: (T, T) -> bool, a: seq<T>, b: seq<T>)
    requires ConnectedOn(lt, a) && multiset(a) == multiset(b)
    ensures ConnectedOn(lt, b)
  {
    forall i, j | 0 <= i < |b| && 0 <= j < |b| && b[i] != b[j] ensures lt(b[i], b[j]) || lt(b[j], b[i]) {
      assert b[i] in multiset(b) && b[j] in multiset(b);
      assert b[i] in a && b[j] in a;
    }
  }

  /** Sorting leaves an already sorted sequence alone. */
  lemma SortIdempotent<T(!new)>(lt: (T, T) -> bool, a: seq<T>)
    requires StrictOrder(lt) && ConnectedOn(lt, a) && Sorted(lt, a)
    ensures Sort(lt, a) == a
  {
    SortSorted(lt, a);
    SortedUnique(lt, a, Sort(lt, a));
  }

  // ---- a set in sorted order ----

  lemma {:induction false} HasLeast<T(!new)>(lt: (T, T) -> bool, s: set<T>)
    requires TotalOrder(lt) && s != {}
    ensures exists m :: IsLeast(lt, s, m)
  {
    var m :| m in s;
    if s == {m} {
      assert IsLeast(lt, s, m);
    } else {
      HasLeast(lt, s - {m});
      var m' :| IsLeast(lt, s - {m}, m');
      assert IsLeast(lt, s, if lt(m', m) then m' else m);
    }
  }

  ghost predicate IsLeast<T(!new)>(lt: (T, T) -> bool, s: set<T>, m: T) {
    m in s && forall x | x in s :: x == m || lt(m, x)
  }

  /** `sorted(keys)`: the increasing enumeration of a set. */
  ghost function Ascending<T(!new)>(lt: (T, T) -> bool, s: set<T>): (r: seq<T>)
    requires TotalOrder(lt)
    ensures StrictlySorted(lt, r) && Elems(r) == s && |r| == |s|
  {
    if s == {} then []
    else
      var least := LeastOf(lt, s);
      var rest := Ascending(lt, s - {least});
      assert forall i | 0 <= i < |rest| :: rest[i] in Elems(rest);
      assert Elems([least] + rest) == s by {
        forall x ensures x in Elems([least] + rest) <==> x in s {
          if x == least { assert ([least] + rest)[0] == x; }
          else { assert x in Elems([least] + rest) <==> x in Elems(rest); }
        }
      }
      [least] + rest
  }

  ghost function LeastOf<T(!new)>(lt: (T, T) -> bool, s: set<T>): (m: T)
    requires TotalOrder(lt) && s != {}
    ensures IsLeast(lt, s, m)
  {
    HasLeast(lt, s);
    var m :| IsLeast(lt, s, m);
    m
  }

  /** Whatever order the keys are listed in, sorting them gives the same sequence. */
  lemma SortIsAscending<T(!new)>(lt: (T, T) -> bool, keys: seq<T>)
    requires TotalOrder(lt) && Distinct(keys)
    ensures Sort(lt, keys) == Ascending(lt, Elems(keys))
  {
    SortSorted(lt, keys);
    AscendingPermutes(lt, keys);
    SortedUnique(lt, Sort(lt, keys), Ascending(lt, Elems(keys)));
  }

  lemma AscendingPermutes<T(!new)>(lt: (T, T) -> bool, keys: seq<T>)
    requires TotalOrder(lt) && Distinct(keys)
    ensures multiset(Ascending(lt, Elems(keys))) == multiset(keys) && Sorted(lt, Ascending(lt, Elems(keys)))
  {
    var r := Ascending(lt, Elems(keys));
    StrictlySortedDistinct(lt, r);
    DistinctSameElems(keys, r);
  }

  lemma StrictlySortedDistinct<T(!new)>(lt: (T, T) -> bool, s: seq<T>)
    requires StrictOrder(lt) && StrictlySorted(lt, s)
    ensures Distinct(s) && Sorted(lt, s) && ConnectedOn(lt, s)
  {
    forall i, j | 0 <= i < j < |s| ensures s[i] != s[j] && !lt(s[j], s[i]) {
      assert lt(s[i], s[j]);
    }
  }

  /** A set has only one increasing enumeration. */
  lemma AscendingUnique<T(!new)>(lt: (T, T) -> bool, s: seq<T>)
    requires TotalOrder(lt) && StrictlySorted(lt, s)
    ensures s == Ascending(lt, Elems(s))
  {
    StrictlySortedDistinct(lt, s);
    SortIdempotent(lt, s);
    SortIsAscending(lt, s);
  }

  lemma {:induction false} DistinctSameElems<T>(a: seq<T>, b: seq<T>)
    requires Distinct(a) && Distinct(b) && Elems(a) == Elems(b)
    ensures multiset(a) == multiset(b)
  {
    DistinctOnce(a);
    DistinctOnce(b);
    forall x ensures multiset(a)[x] == multiset(b)[x] {
      assert x in multiset(a) <==> x in Elems(a);
      assert x in multiset(b) <==> x in Elems(b);
    }
  }

  lemma {:induction false} DistinctOnce<T>(a: seq<T>)
    requires Distinct(a)
    ensures forall x :: multiset(a)[x] <= 1
  {
    if a != [] {
      assert a == [a[0]] + a[1..];
      DistinctOnce(a[1..]);
      assert a[0] !in a[1..];
    }
  }

  // ---- rearrangements ----

  lemma DistinctPermutes<T>(a: seq<T>, b: seq<T>)
    requires multiset(a) == multiset(b) && Distinct(a)
    ensures Distinct(b)
  {
    DistinctOnce(a);
    forall i, j | 0 <= i < j < |b| ensures b[i] != b[j] {
      if b[i] == b[j] { Twice(b, i, j); }
    }
  }

  lemma MapConcat<A, B>(f: A -> B, x: seq<A>, y: seq<A>)
    ensures Map(f, x + y) == Map(f, x) + Map(f, y)
  {
  }

  lemma {:induction false} MapPermutes<A, B>(f: A -> B, a: seq<A>, b: seq<A>)
    requires multiset(a) == multiset(b)
    ensures multiset(Map(f, a)) == multiset(Map(f, b))
  {
    assert |multiset(a)| == |a| && |multiset(b)| == |b|;
    if a != [] {
      var x, y := Around(b, a[0]);
      assert a == [a[0]] + a[1..];
      HeadTaken(a, x, y);
      MapPermutes(f, a[1..], x + y);
      MapAround(f, x, a[0], y);
      MapConcat(f, x, y);
      HeadPut(f(a[0]), Map(f, a[1..]), Map(f, x), Map(f, y));
    }
  }

  lemma HeadPut<T>(m: T, rest: seq<T>, x: seq<T>, y: seq<T>)
    requires multiset(rest) == multiset(x + y)
    ensures multiset([m] + rest) == multiset(x + [m] + y)
  {
    assert multiset([m] + rest) == multiset{m} + multiset(rest);
    assert multiset(x + [m] + y) == multiset(x) + multiset{m} + multiset(y);
    assert multiset(x + y) == multiset(x) + multiset(y);
  }

  lemma Around<T>(s: seq<T>, m: T) returns (x: seq<T>, y: seq<T>)
    requires m in multiset(s)
    ensures s == x + [m] + y
  {
    var i :| 0 <= i < |s| && s[i] == m;
    x, y := s[..i], s[i + 1..];
  }

  lemma HeadTaken<T>(a: seq<T>, x: seq<T>, y: seq<T>)
    requires a != [] && multiset(a) == multiset(x + [a[0]] + y)
    ensures multiset(a[1..]) == multiset(x + y)
  {
    assert a == [a[0]] + a[1..];
    assert multiset(a) == multiset{a[0]} + multiset(a[1..]);
    assert multiset(x + [a[0]] + y) == multiset(x) + multiset{a[0]} + multiset(y);
    assert multiset(x + y) == multiset(x) + multiset(y);
    assert multiset(a[1..]) == multiset(a) - multiset{a[0]};
    assert multiset(x + y) == multiset(a) - multiset{a[0]};
  }

  lemma MapAround<A, B>(f: A -> B, x: seq<A>, m: A, y: seq<A>)
    ensures Map(f, x + [m] + y) == Map(f, x) + [f(m)] + Map(f, y)
  {
    MapConcat(f, x + [m], y);
    MapConcat(f, x, [m]);
    assert Map(f, [m]) == [f(m)];
  }

  /** An element at two places has multiplicity at least two, and conversely. */
  lemma Twice<T>(s: seq<T>, i: nat, j: nat)
    requires i < j < |s| && s[i] == s[j]
    ensures multiset(s)[s[i]] >= 2
  {
    assert s == s[..i] + [s[i]] + s[i + 1..j] + [s[j]] + s[j + 1..];
  }

  lemma {:induction false} TwoPlaces<T>(s: seq<T>, x: T)
    requires multiset(s)[x] >= 2
    ensures exists i, j :: 0 <= i < j < |s| && s[i] == x && s[j] == x
  {
    if !exists i, j :: 0 <= i < j < |s| && s[i] == x && s[j] == x {
      AtMostOnce(s, x);
    }
  }

  lemma {:induction false} AtMostOnce<T>(s: seq<T>, x: T)
    requires forall i, j :: 0 <= i < j < |s| && s[i] == x ==> s[j] != x
    ensures multiset(s)[x] <= 1
  {
    if s != [] {
      assert s == [s[0]] + s[1..];
      AtMostOnce(s[1..], x);
      assert s[0] == x ==> x !in s[1..];
    }
  }

  // ---- repetitions and filtering ----

  /** The elements without repetitions. */
  function Unique<T(==)>(s: seq<T>): (r: seq<T>)
    ensures Elems(r) == Elems(s) && Distinct(r)
  {
    if s == [] then []
    else
      assert s == s[..|s| - 1] + [s[|s| - 1]];
      var front := Unique(s[..|s| - 1]);
      assert Elems(s) == Elems(s[..|s| - 1]) + {s[|s| - 1]};
      if s[|s| - 1] in front then
        assert s[|s| - 1] in Elems(front);
        front
      else
        assert Elems(front + [s[|s| - 1]]) == Elems(front) + {s[|s| - 1]};
        front + [s[|s| - 1]]
  }

  /** sorted(set(s)), also np.unique. */
  function UniqueSorted<T(==)>(lt: (T, T) -> bool, s: seq<T>): seq<T> { Sort(lt, Unique(s)) }

  lemma UniqueAscends<T(!new)>(lt: (T, T) -> bool, s: seq<T>)
    requires TotalOrder(lt)
    ensures UniqueSorted(lt, s) == Ascending(lt, Elems(s))
  {
    SortIsAscending(lt, Unique(s));
  }

  lemma {:induction false} DistinctCard<T>(s: seq<T>)
    requires Distinct(s)
    ensures |Elems(s)| == |s|
  {
    if s != [] {
      var front, last := s[..|s| - 1], s[|s| - 1];
      DistinctCard(front);
      assert s == front + [last];
      assert last !in front;
      assert Elems(s) == Elems(front) + {last} && last !in Elems(front);
    }
  }

  /** The elements satisfying p, in order. */
  function Filter<T>(p: T -> bool, s: seq<T>): (r: seq<T>)
    ensures |r| <= |s|
    ensures forall x | x in r :: x in s && p(x)
    ensures forall x | x in s && p(x) :: x in r
  {
    if s == [] then []
    else
      assert s == s[..|s| - 1] + [s[|s| - 1]];
      Filter(p, s[..|s| - 1]) + if p(s[|s| - 1]) then [s[|s| - 1]] else []
  }

  lemma {:induction false} FilterStrictlySorted<T(!new)>(lt: (T, T) -> bool, p: T -> bool, s: seq<T>)
    requires StrictlySorted(lt, s)
    ensures StrictlySorted(lt, Filter(p, s))
  {
    if s != [] {
      var front, last := s[..|s| - 1], s[|s| - 1];
      FilterStrictlySorted(lt, p, front);
      var r := Filter(p, front);
      forall i | 0 <= i < |r| ensures lt(r[i], last) {
        assert r[i] in r;
        var k :| 0 <= k < |front| && front[k] == r[i];
        assert s[k] == r[i];
      }
    }
  }

  /** A predicate and its complement share out every occurrence. */
  lemma {:induction false} FilterComplement<T>(p: T -> bool, q: T -> bool, s: seq<T>)
    requires forall x | x in s :: p(x) <==> !q(x)
    ensures multiset(Filter(p, s)) + multiset(Filter(q, s)) == multiset(s)
  {
    if s != [] {
      assert s == s[..|s| - 1] + [s[|s| - 1]];
      FilterComplement(p, q, s[..|s| - 1]);
    }
  }

  lemma {:induction false} FilterDistinct<T>(p: T -> bool, s: seq<T>)
    requires Distinct(s)
    ensures Distinct(Filter(p, s))
  {
    if s != [] {
      assert s[|s| - 1] !in s[..|s| - 1];
      FilterDistinct(p, s[..|s| - 1]);
    }
  }

  /** Mapping commutes with filtering on the mapped value. */
  lemma {:induction false} FilterMap<A, B>(f: A -> B, p: A -> bool, q: B -> bool, s: seq<A>)
    requires forall x | x in s :: p(x) <==> q(f(x))
    ensures Map(f, Filter(p, s)) == Filter(q, Map(f, s))
  {
    if s != [] {
      var front, last := s[..|s| - 1], s[|s| - 1];
      assert s == front + [last];
      FilterMap(f, p, q, front);
      MapSnoc(f, front, last);
      FilterSnoc(p, front, last);
      FilterSnoc(q, Map(f, front), f(last));
      if p(last) { MapSnoc(f, Filter(p, front), last); }
    }
  }

  lemma MapSnoc<A, B>(f: A -> B, s: seq<A>, x: A)
    ensures Map(f, s + [x]) == Map(f, s) + [f(x)]
  {
    MapConcat(f, s, [x]);
    assert Map(f, [x]) == [f(x)];
  }

  lemma {:induction false} FilterAgrees<T>(p: T -> bool, q: T -> bool, s: seq<T>)
    requires forall x | x in s :: p(x) == q(x)
    ensures Filter(p, s) == Filter(q, s)
  {
    if s != [] {
      var front, last := s[..|s| - 1], s[|s| - 1];
      assert s == front + [last];
      FilterAgrees(p, q, front);
    }
  }

  lemma FilterSnoc<T>(p: T -> bool, s: seq<T>, x: T)
    ensures Filter(p, s + [x]) == Filter(p, s) + if p(x) then [x] else []
  {
    assert (s + [x])[..|s|] == s;
  }
}
