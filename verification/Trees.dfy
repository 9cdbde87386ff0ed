/** Nested mappings with leaves, read through keypaths. */
module Trees {
  import opened Basics
  import opened Ordering

  /** A nested mapping as Python's `==` sees it: keys and children, no insertion order. */
  datatype Tree<V> = Leaf(value: V) | Branch(kids: map<Text, Tree<V>>)

  /** The leaf found by subscripting along p, if there is one. */
  function LeafAt<V>(t: Tree<V>, p: Path): Option<V> {
    if p == [] then (if t.Leaf? then Some(t.value) else None)
    else if t.Branch? && p[0] in t.kids then LeafAt(t.kids[p[0]], p[1..])
    else None
  }

  ghost predicate IsLeafPath<V>(t: Tree<V>, p: Path) {
    LeafAt(t, p).Some?
  }

  /** No mapping in t is empty. */
  ghost predicate NoEmpty<V>(t: Tree<V>) {
    t.Branch? ==> t.kids != map[] && forall k | k in t.kids :: NoEmpty(t.kids[k])
  }

  lemma {:induction false} HasLeaf<V>(t: Tree<V>) returns (p: Path)
    requires NoEmpty(t)
    ensures IsLeafPath(t, p)
  {
    if t.Leaf? {
      p := [];
    } else {
      var k :| k in t.kids;
      var q := HasLeaf(t.kids[k]);
      p := [k] + q;
    }
  }

  lemma ChildLeaf<V>(t: Tree<V>, k: Text, q: Path)
    requires t.Branch?
    ensures LeafAt(t, [k] + q) == if k in t.kids then LeafAt(t.kids[k], q) else None
  {
    assert ([k] + q)[1..] == q;
  }

  /** A tree without empty mappings is determined by its leaves. */
  lemma {:induction false} SameLeavesSameTree<V>(t: Tree<V>, u: Tree<V>)
    requires NoEmpty(t) && NoEmpty(u)
    requires forall p :: LeafAt(t, p) == LeafAt(u, p)
    ensures t == u
  {
    if t.Leaf? || u.Leaf? {
      assert LeafAt(t, []) == LeafAt(u, []);
      if t.Leaf? != u.Leaf? { assert false; }
    } else {
      SameKeys(t, u);
      SameKeys(u, t);
      forall k | k in t.kids ensures t.kids[k] == u.kids[k] {
        forall q ensures LeafAt(t.kids[k], q) == LeafAt(u.kids[k], q) {
          ChildLeaf(t, k, q);
          ChildLeaf(u, k, q);
        }
        SameLeavesSameTree(t.kids[k], u.kids[k]);
      }
      assert t.kids == u.kids;
    }
  }

  lemma SameKeys<V>(t: Tree<V>, u: Tree<V>)
    requires t.Branch? && u.Branch? && NoEmpty(t)
    requires forall p :: LeafAt(t, p) == LeafAt(u, p)
    ensures t.kids.Keys <= u.kids.Keys
  {
    forall k | k in t.kids ensures k in u.kids {
      var q := HasLeaf(t.kids[k]);
      ChildLeaf(t, k, q);
      ChildLeaf(u, k, q);
    }
  }

  // ---- building from (keypath, value) pairs ----

  type Entries<V> = seq<(Path, V)>

  function Paths<V>(es: Entries<V>): (ps: seq<Path>) {
    Map((e: (Path, V)) => e.0, es)
  }

  /** Descends through `setdefault(key, {})` and stores the leaf, refusing to pass
      through a leaf or to replace anything. */
  function SetLeaf<V>(t: Tree<V>, p: Path, v: V): Option<Tree<V>>
    requires p != []
    decreases |p|
  {
    if t.Leaf? then None
    else if |p| == 1 then
      if p[0] in t.kids then None else Some(Branch(t.kids[p[0] := Leaf(v)]))
    else
      var child := if p[0] in t.kids then t.kids[p[0]] else Branch(map[]);
      match SetLeaf(child, p[1..], v)
      case None => None
      case Some(c) => Some(Branch(t.kids[p[0] := c]))
  }

  function BuildOn<V>(t: Tree<V>, es: Entries<V>): Option<Tree<V>>
    requires forall e | e in es :: e.0 != []
    decreases |es|
  {
    if es == [] then Some(t)
    else match SetLeaf(t, es[0].0, es[0].1)
      case None => None
      case Some(t') => BuildOn(t', es[1..])
  }

  function Build<V>(es: Entries<V>): Option<Tree<V>>
    requires forall e | e in es :: e.0 != []
  {
    BuildOn(Branch(map[]), es)
  }

  predicate Comparable(p: Path, q: Path) { p <= q || q <= p }

  /** No keypath repeats or extends another. */
  ghost predicate PrefixFree(ps: seq<Path>) {
    forall i, j :: 0 <= i < j < |ps| ==> !Comparable(ps[i], ps[j])
  }

  ghost predicate Clashes<V>(t: Tree<V>, p: Path) {
    exists q :: IsLeafPath(t, q) && Comparable(q, p)
  }

  /** The root mapping may still be empty while it is being filled. */
  ghost predicate Fillable<V>(t: Tree<V>) {
    t.Branch? && forall k | k in t.kids :: NoEmpty(t.kids[k])
  }

  lemma {:induction false} SetLeafEffect<V>(t: Tree<V>, p: Path, v: V)
    requires Fillable(t) && p != []
    ensures SetLeaf(t, p, v).Some? <==> !Clashes(t, p)
    ensures SetLeaf(t, p, v).Some? ==>
              var t' := SetLeaf(t, p, v).value;
              NoEmpty(t') && t'.Branch? && forall q :: LeafAt(t', q) == if q == p then Some(v) else LeafAt(t, q)
    decreases |p|
  {
    var k, rest := p[0], p[1..];
    assert p == [k] + rest;
    if k !in t.kids {
      forall q | IsLeafPath(t, q) ensures !Comparable(q, p) {
        assert q != [] && q[0] in t.kids;
      }
    } else if t.kids[k].Leaf? {
      ChildLeaf(t, k, []);
      assert [k] + [] == [k];
      assert IsLeafPath(t, [k]) && Comparable([k], p);
    } else {
      ClashBelow(t, k, rest);
    }
    if k in t.kids && t.kids[k].Branch? && rest == [] {
      var q := HasLeaf(t.kids[k]);
      assert Comparable(q, rest);
      assert Clashes(t.kids[k], rest);
    } else if k in t.kids && t.kids[k].Leaf? {
      assert SetLeaf(t, p, v).None?;
    } else if rest == [] {
      Replaced(t, k, Leaf(v));
      forall q ensures LeafAt(Leaf(v), q) == if q == rest then Some(v) else None {}
      WithLeaf(t, k, Branch(map[]), Leaf(v), rest, v);
    } else {
      var child := if k in t.kids then t.kids[k] else Branch(map[]);
      SetLeafEffect(child, rest, v);
      assert k !in t.kids ==> forall q :: !IsLeafPath(child, q);
      if SetLeaf(child, rest, v).Some? {
        WithLeaf(t, k, child, SetLeaf(child, rest, v).value, rest, v);
        Replaced(t, k, SetLeaf(child, rest, v).value);
      }
    }
  }

  lemma Replaced<V>(t: Tree<V>, k: Text, c: Tree<V>)
    requires Fillable(t) && NoEmpty(c)
    ensures NoEmpty(Branch(t.kids[k := c]))
  {
    var t' := Branch(t.kids[k := c]);
    assert k in t'.kids;
    forall j | j in t'.kids ensures NoEmpty(t'.kids[j]) {
      assert j != k ==> t'.kids[j] == t.kids[j];
    }
  }

  /** Storing one more leaf below child k is storing one more leaf below t. */
  lemma WithLeaf<V>(t: Tree<V>, k: Text, child: Tree<V>, c: Tree<V>, rest: Path, v: V)
    requires t.Branch? && (if k in t.kids then child == t.kids[k] else child == Branch(map[]))
    requires forall q :: LeafAt(c, q) == if q == rest then Some(v) else LeafAt(child, q)
    ensures forall q :: LeafAt(Branch(t.kids[k := c]), q) == if q == [k] + rest then Some(v) else LeafAt(t, q)
  {
    var t' := Branch(t.kids[k := c]);
    forall q ensures LeafAt(t', q) == if q == [k] + rest then Some(v) else LeafAt(t, q) {
      if q != [] && q[0] == k {
        assert q == [k] + q[1..];
        assert q == [k] + rest <==> q[1..] == rest by { assert ([k] + rest)[1..] == rest; }
      }
    }
  }

  lemma ClashBelow<V>(t: Tree<V>, k: Text, rest: Path)
    requires t.Branch? && k in t.kids && t.kids[k].Branch?
    ensures Clashes(t, [k] + rest) <==> Clashes(t.kids[k], rest)
  {
    if Clashes(t, [k] + rest) {
      var q :| IsLeafPath(t, q) && Comparable(q, [k] + rest);
      assert q != [] && q[0] == k && q == [k] + q[1..];
      assert ([k] + rest)[1..] == rest;
      assert Comparable(q[1..], rest);
    }
    if Clashes(t.kids[k], rest) {
      var q :| IsLeafPath(t.kids[k], q) && Comparable(q, rest);
      ChildLeaf(t, k, q);
      assert Comparable([k] + q, [k] + rest);
    }
  }

  /** The value listed for keypath q. */
  function Find<V>(es: Entries<V>, q: Path): Option<V> {
    if es == [] then None
    else if es[0].0 == q then Some(es[0].1)
    else Find(es[1..], q)
  }

  /** Building succeeds exactly on keypaths that do not repeat or extend one another or
      a leaf already present, and then adds exactly the listed leaves. */
  lemma {:induction false} BuildOnEffect<V>(t: Tree<V>, es: Entries<V>)
    requires Fillable(t) && forall e | e in es :: e.0 != []
    ensures BuildOn(t, es).Some? <==> PrefixFree(Paths(es)) && forall e | e in es :: !Clashes(t, e.0)
    ensures BuildOn(t, es).Some? ==>
              var t' := BuildOn(t, es).value;
              Fillable(t') && (es != [] ==> NoEmpty(t')) &&
              forall q :: LeafAt(t', q) == if Find(es, q).Some? then Find(es, q) else LeafAt(t, q)
    decreases |es|
  {
    if es != [] {
      var (p, v) := es[0];
      SetLeafEffect(t, p, v);
      assert es == [es[0]] + es[1..];
      assert Paths(es)[1..] == Paths(es[1..]);
      if SetLeaf(t, p, v).Some? {
        var t1 := SetLeaf(t, p, v).value;
        BuildOnEffect(t1, es[1..]);
        forall e | e in es[1..] ensures Clashes(t1, e.0) <==> Clashes(t, e.0) || Comparable(p, e.0) {
          OneMoreClash(t, t1, p, v, e.0);
        }
        ConsPrefixFree(es);
        if BuildOn(t1, es[1..]).Some? {
          assert PrefixFree(Paths(es));
          forall q ensures LeafAt(BuildOn(t, es).value, q) == if Find(es, q).Some? then Find(es, q) else LeafAt(t, q) {
            FindIn(es[1..], q);
          }
        }
      }
    }
  }

  /** Starting from the empty mapping: success iff prefix-free, and then es is what the tree holds. */
  lemma BuildEffect<V>(es: Entries<V>)
    requires forall e | e in es :: e.0 != []
    ensures Build(es).Some? <==> PrefixFree(Paths(es))
    ensures Build(es).Some? ==>
              var t := Build(es).value;
              Fillable(t) && (es != [] ==> NoEmpty(t)) && forall q :: LeafAt(t, q) == Find(es, q)
  {
    var empty: Tree<V> := Branch(map[]);
    forall q ensures !IsLeafPath(empty, q) {}
    BuildOnEffect(empty, es);
  }

  lemma OneMoreClash<V>(t: Tree<V>, t1: Tree<V>, p: Path, v: V, q: Path)
    requires forall r :: LeafAt(t1, r) == if r == p then Some(v) else LeafAt(t, r)
    requires !IsLeafPath(t, p)
    ensures Clashes(t1, q) <==> Clashes(t, q) || Comparable(p, q)
  {
    if Clashes(t, q) {
      var r :| IsLeafPath(t, r) && Comparable(r, q);
      assert IsLeafPath(t1, r);
    }
    if Comparable(p, q) { assert IsLeafPath(t1, p); }
  }

  lemma ConsPrefixFree<V>(es: Entries<V>)
    requires es != []
    ensures PrefixFree(Paths(es)) <==> PrefixFree(Paths(es[1..])) && forall e | e in es[1..] :: !Comparable(es[0].0, e.0)
  {
    var ps, rest := Paths(es), es[1..];
    assert ps[1..] == Paths(rest);
    if PrefixFree(Paths(rest)) && forall e | e in rest :: !Comparable(es[0].0, e.0) {
      forall i, j | 0 <= i < j < |ps| ensures !Comparable(ps[i], ps[j]) {
        assert ps[j] == ps[1..][j - 1] && rest[j - 1] in rest;
        if i > 0 { assert ps[i] == ps[1..][i - 1]; }
      }
    }
    if PrefixFree(ps) { TailPrefixFree(es); }
  }

  lemma TailPrefixFree<V>(es: Entries<V>)
    requires es != [] && PrefixFree(Paths(es))
    ensures PrefixFree(Paths(es[1..])) && forall e | e in es[1..] :: !Comparable(es[0].0, e.0)
  {
    var ps, rest := Paths(es), es[1..];
    forall i, j | 0 <= i < j < |rest| ensures !Comparable(Paths(rest)[i], Paths(rest)[j]) {
      assert Paths(rest)[i] == ps[i + 1] && Paths(rest)[j] == ps[j + 1];
    }
    forall e | e in rest ensures !Comparable(es[0].0, e.0) {
      var j :| 0 <= j < |rest| && rest[j] == e;
      assert ps[j + 1] == e.0;
    }
  }

  lemma {:induction false} FindIn<V>(es: Entries<V>, q: Path)
    ensures Find(es, q).Some? <==> q in Paths(es)
    ensures Find(es, q).Some? ==> (q, Find(es, q).value) in es
  {
    if es != [] {
      assert es == [es[0]] + es[1..];
      assert Paths(es) == [es[0].0] + Paths(es[1..]);
      FindIn(es[1..], q);
    }
  }

  lemma {:induction false} FindAt<V>(es: Entries<V>, i: nat)
    requires i < |es| && Distinct(Paths(es))
    ensures Find(es, es[i].0) == Some(es[i].1)
  {
    var ps := Paths(es);
    if i > 0 {
      assert ps[0] != ps[i];
      assert ps[1..] == Paths(es[1..]);
      assert forall a, b :: 0 <= a < b < |ps[1..]| ==> ps[1..][a] == ps[a + 1] && ps[1..][b] == ps[b + 1];
      FindAt(es[1..], i - 1);
    }
  }

  /** es lists each leaf of t once. */
  ghost predicate Lists<V(!new)>(es: Entries<V>, t: Tree<V>) {
    Distinct(Paths(es)) && forall p, v :: (p, v) in es <==> LeafAt(t, p) == Some(v)
  }

  /** Neither of two different leaves lies on the way to the other. */
  lemma {:induction false} LeavesIncomparable<V>(t: Tree<V>, p: Path, q: Path)
    requires IsLeafPath(t, p) && IsLeafPath(t, q) && p <= q
    ensures p == q
  {
    if p != [] {
      assert p == [p[0]] + p[1..] && q == [q[0]] + q[1..];
      LeavesIncomparable(t.kids[p[0]], p[1..], q[1..]);
    }
  }

  lemma PathsOfMember<V>(es: Entries<V>, i: nat)
    requires i < |es|
    ensures Paths(es)[i] == es[i].0 && (Paths(es)[i], es[i].1) == es[i] && es[i] in es
  {
  }

  /** Building from any listing of the leaves gives back the tree. */
  lemma BuildInverts<V(!new)>(t: Tree<V>, es: Entries<V>)
    requires NoEmpty(t) && t.Branch? && Lists(es, t)
    ensures forall e | e in es :: e.0 != []
    ensures Build(es) == Some(t)
  {
    forall e | e in es ensures e.0 != [] {
      assert (e.0, e.1) in es;
      assert LeafAt(t, e.0) == Some(e.1);
    }
    var ps := Paths(es);
    forall i, j | 0 <= i < j < |ps| ensures !Comparable(ps[i], ps[j]) {
      PathsOfMember(es, i);
      PathsOfMember(es, j);
      assert LeafAt(t, ps[i]) == Some(es[i].1) && LeafAt(t, ps[j]) == Some(es[j].1);
      if ps[i] <= ps[j] { LeavesIncomparable(t, ps[i], ps[j]); }
      if ps[j] <= ps[i] { LeavesIncomparable(t, ps[j], ps[i]); }
      assert ps[i] != ps[j];
    }
    BuildEffect(es);
    var b := Build(es).value;
    var p := HasLeaf(t);
    assert (p, LeafAt(t, p).value) in es;
    forall q ensures LeafAt(b, q) == LeafAt(t, q) {
      FindIn(es, q);
      if LeafAt(t, q).Some? {
        var i :| 0 <= i < |es| && es[i] == (q, LeafAt(t, q).value);
        assert ps[i] == q;
      }
      if Find(es, q).Some? {
        assert LeafAt(t, q) == Some(Find(es, q).value);
      }
    }
    SameLeavesSameTree(b, t);
  }

  // ---- flattening with sorted keys ----

  ghost function Keys(s: set<Text>): (ks: seq<Text>)
    ensures StrictlySorted(TextLt, ks) && Elems(ks) == s
  {
    TextOrder();
    Ascending(TextLt, s)
  }

  /** Depth-first leaves, each mapping visited in increasing key order. */
  ghost function Flat<V>(t: Tree<V>, prefix: Path): Entries<V>
    decreases t, 1, 0
  {
    if t.Leaf? then [(prefix, t.value)]
    else
      assert forall k | k in Keys(t.kids.Keys) :: k in Elems(Keys(t.kids.Keys));
      FlatKids(t, prefix, Keys(t.kids.Keys))
  }

  ghost function FlatKids<V>(t: Tree<V>, prefix: Path, ks: seq<Text>): Entries<V>
    requires t.Branch? && forall k | k in ks :: k in t.kids
    decreases t, 0, |ks|
  {
    if ks == [] then []
    else Flat(t.kids[ks[0]], prefix + [ks[0]]) + FlatKids(t, prefix, ks[1..])
  }

  ghost predicate Under(prefix: Path, p: Path) { prefix <= p }

  lemma {:induction false} FlatMember<V>(t: Tree<V>, prefix: Path, p: Path, v: V)
    ensures (p, v) in Flat(t, prefix) <==> Under(prefix, p) && LeafAt(t, p[|prefix|..]) == Some(v)
    decreases t, 1, 0
  {
    if t.Leaf? {
      if Under(prefix, p) { assert p == prefix + p[|prefix|..]; }
      assert Flat(t, prefix) == [(prefix, t.value)];
      if p == prefix { assert Under(prefix, p) && p[|prefix|..] == []; }
    } else {
      var ks := Keys(t.kids.Keys);
      assert forall k | k in ks :: k in Elems(ks);
      FlatKidsMember(t, prefix, ks, p, v);
      if Under(prefix, p) && |p| > |prefix| {
        var q := p[|prefix|..];
        assert q[0] == p[|prefix|];
        assert q[0] in t.kids.Keys <==> q[0] in Elems(ks);
      } else if Under(prefix, p) {
        assert p[|prefix|..] == [];
      }
    }
  }

  lemma {:induction false} FlatKidsMember<V>(t: Tree<V>, prefix: Path, ks: seq<Text>, p: Path, v: V)
    requires t.Branch? && forall k | k in ks :: k in t.kids
    ensures (p, v) in FlatKids(t, prefix, ks) <==>
            Under(prefix, p) && |p| > |prefix| && p[|prefix|] in ks && LeafAt(t, p[|prefix|..]) == Some(v)
    decreases t, 0, |ks|
  {
    if ks != [] {
      var k := ks[0];
      FlatMember(t.kids[k], prefix + [k], p, v);
      FlatKidsMember(t, prefix, ks[1..], p, v);
      assert ks == [k] + ks[1..];
      UnderStep(prefix, k, p);
    }
  }

  lemma UnderStep(prefix: Path, k: Text, p: Path)
    ensures Under(prefix + [k], p) <==> Under(prefix, p) && |p| > |prefix| && p[|prefix|] == k
    ensures Under(prefix + [k], p) ==> p[|prefix|..] == [k] + p[|prefix + [k]|..]
  {
    if prefix + [k] <= p {
      assert p[..|prefix|] == (prefix + [k])[..|prefix|] == prefix;
      assert p[|prefix|] == (prefix + [k])[|prefix|];
    } else if prefix <= p && |p| > |prefix| {
      assert p[..|prefix| + 1] == prefix + [p[|prefix|]];
    }
  }

  /** The keypaths come out in increasing order. */
  lemma {:induction false} FlatSorted<V(!new)>(t: Tree<V>, prefix: Path)
    ensures StrictlySorted(PathLt, Paths(Flat(t, prefix)))
    decreases t, 1, 0
  {
    if t.Branch? {
      var ks := Keys(t.kids.Keys);
      assert forall k | k in ks :: k in Elems(ks);
      FlatKidsSorted(t, prefix, ks);
    }
  }

  lemma {:induction false} FlatKidsSorted<V(!new)>(t: Tree<V>, prefix: Path, ks: seq<Text>)
    requires t.Branch? && (forall k | k in ks :: k in t.kids) && StrictlySorted(TextLt, ks)
    ensures StrictlySorted(PathLt, Paths(FlatKids(t, prefix, ks)))
    decreases t, 0, |ks|
  {
    if ks != [] {
      var first, others := Flat(t.kids[ks[0]], prefix + [ks[0]]), FlatKids(t, prefix, ks[1..]);
      FlatSorted(t.kids[ks[0]], prefix + [ks[0]]);
      FlatKidsSorted(t, prefix, ks[1..]);
      BranchesInOrder(t, prefix, ks, first, others);
      PathsConcat(first, others);
      ConcatSorted(PathLt, Paths(first), Paths(others));
    }
  }

  lemma PathsConcat<V>(a: Entries<V>, b: Entries<V>)
    ensures Paths(a + b) == Paths(a) + Paths(b)
  {
  }

  lemma BranchesInOrder<V(!new)>(t: Tree<V>, prefix: Path, ks: seq<Text>, first: Entries<V>, others: Entries<V>)
    requires t.Branch? && ks != [] && (forall k | k in ks :: k in t.kids) && StrictlySorted(TextLt, ks)
    requires first == Flat(t.kids[ks[0]], prefix + [ks[0]]) && others == FlatKids(t, prefix, ks[1..])
    ensures forall i, j | 0 <= i < |first| && 0 <= j < |others| :: PathLt(Paths(first)[i], Paths(others)[j])
  {
    forall i, j | 0 <= i < |first| && 0 <= j < |others| ensures PathLt(Paths(first)[i], Paths(others)[j]) {
      FirstBranchFirst(t, prefix, ks, first[i], others[j]);
    }
  }

  /** Leaves below the first key come before leaves below later keys. */
  lemma FirstBranchFirst<V(!new)>(t: Tree<V>, prefix: Path, ks: seq<Text>, x: (Path, V), y: (Path, V))
    requires t.Branch? && ks != [] && (forall k | k in ks :: k in t.kids) && StrictlySorted(TextLt, ks)
    requires x in Flat(t.kids[ks[0]], prefix + [ks[0]]) && y in FlatKids(t, prefix, ks[1..])
    ensures PathLt(x.0, y.0)
  {
    FlatMember(t.kids[ks[0]], prefix + [ks[0]], x.0, x.1);
    FlatKidsMember(t, prefix, ks[1..], y.0, y.1);
    assert (x.0, x.1) == x && (y.0, y.1) == y;
    EarlierBranch(prefix, ks[0], x.0, y.0);
  }

  lemma ConcatSorted<T(!new)>(lt: (T, T) -> bool, a: seq<T>, b: seq<T>)
    requires StrictlySorted(lt, a) && StrictlySorted(lt, b)
    requires forall i, j :: 0 <= i < |a| && 0 <= j < |b| ==> lt(a[i], b[j])
    ensures StrictlySorted(lt, a + b)
  {
  }

  lemma EarlierBranch(prefix: Path, k: Text, p: Path, q: Path)
    requires prefix + [k] <= p && prefix <= q && |q| > |prefix| && TextLt(k, q[|prefix|])
    ensures PathLt(p, q)
  {
    TextOrder();
    var p', q' := p[|prefix|..], q[|prefix|..];
    assert p == prefix + p' && q == prefix + q';
    assert p'[0] == k by { assert (prefix + [k])[|prefix|] == p[|prefix|]; }
    LexPrefix(TextLt, prefix, p', q');
  }

  lemma FlatLists<V(!new)>(t: Tree<V>)
    ensures Lists(Flat(t, []), t)
  {
    FlatSorted(t, []);
    PathOrder();
    StrictlySortedDistinct(PathLt, Paths(Flat(t, [])));
    forall p, v ensures (p, v) in Flat(t, []) <==> LeafAt(t, p) == Some(v) {
      FlatMember(t, [], p, v);
      assert p[0..] == p;
    }
  }

  /** Flatten then build is the identity. */
  lemma FlattenBuild<V(!new)>(t: Tree<V>)
    requires NoEmpty(t) && t.Branch?
    ensures forall e | e in Flat(t, []) :: e.0 != []
    ensures Build(Flat(t, [])) == Some(t)
  {
    FlatLists(t);
    BuildInverts(t, Flat(t, []));
  }

  lemma ListedPaths<V(!new)>(es: Entries<V>, t: Tree<V>)
    requires Lists(es, t)
    ensures forall p :: p in Elems(Paths(es)) <==> IsLeafPath(t, p)
    ensures forall i | 0 <= i < |es| :: LeafAt(t, Paths(es)[i]) == Some(es[i].1)
  {
    forall p ensures p in Elems(Paths(es)) <==> IsLeafPath(t, p) {
      if LeafAt(t, p).Some? {
        var i :| 0 <= i < |es| && es[i] == (p, LeafAt(t, p).value);
        assert Paths(es)[i] == p;
      }
      if p in Elems(Paths(es)) {
        var i :| 0 <= i < |es| && Paths(es)[i] == p;
        PathsOfMember(es, i);
      }
    }
    forall i | 0 <= i < |es| ensures LeafAt(t, Paths(es)[i]) == Some(es[i].1) { PathsOfMember(es, i); }
  }

  /** There is one increasing listing of the leaves: the depth-first one. */
  lemma FlatUnique<V(!new)>(t: Tree<V>, es: Entries<V>)
    requires Lists(es, t) && StrictlySorted(PathLt, Paths(es))
    ensures Flat(t, []) == es
  {
    var flat := Flat(t, []);
    FlatLists(t);
    FlatSorted(t, []);
    PathOrder();
    ListedPaths(es, t);
    ListedPaths(flat, t);
    assert Elems(Paths(es)) == Elems(Paths(flat));
    AscendingUnique(PathLt, Paths(es));
    AscendingUnique(PathLt, Paths(flat));
    assert |es| == |Paths(es)| == |flat|;
    forall i | 0 <= i < |es| ensures es[i] == flat[i] {
      PathsOfMember(es, i);
      PathsOfMember(flat, i);
    }
  }

  // ---- mapping over leaves ----

  function MapTree<A, B>(f: A -> B, t: Tree<A>): Tree<B> {
    if t.Leaf? then Leaf(f(t.value)) else Branch(map k | k in t.kids :: MapTree(f, t.kids[k]))
  }

  function MapEntries<A, B>(f: A -> B, es: Entries<A>): (r: Entries<B>)
    ensures |r| == |es| && Paths(r) == Paths(es)
    ensures forall i | 0 <= i < |es| :: r[i] == (es[i].0, f(es[i].1))
  {
    Map((e: (Path, A)) => (e.0, f(e.1)), es)
  }

  lemma MapEntriesAppend<A, B>(f: A -> B, es: Entries<A>, e: (Path, A))
    ensures MapEntries(f, es + [e]) == MapEntries(f, es) + [(e.0, f(e.1))]
  {
  }

  lemma {:induction false} MapTreeLeaf<A, B>(f: A -> B, t: Tree<A>, p: Path)
    ensures LeafAt(MapTree(f, t), p) == if LeafAt(t, p).Some? then Some(f(LeafAt(t, p).value)) else None
    decreases |p|
  {
    if p != [] && t.Branch? && p[0] in t.kids { MapTreeLeaf(f, t.kids[p[0]], p[1..]); }
  }

  lemma {:induction false} MapTreeNoEmpty<A, B>(f: A -> B, t: Tree<A>)
    ensures NoEmpty(MapTree(f, t)) <==> NoEmpty(t)
  {
    if t.Branch? {
      assert MapTree(f, t).kids.Keys == t.kids.Keys;
      forall k | k in t.kids ensures NoEmpty(MapTree(f, t).kids[k]) <==> NoEmpty(t.kids[k]) {
        MapTreeNoEmpty(f, t.kids[k]);
      }
    }
  }

  lemma FlatMapTree<A(!new), B(!new)>(f: A -> B, t: Tree<A>)
    ensures Flat(MapTree(f, t), []) == MapEntries(f, Flat(t, []))
  {
    var flat := Flat(t, []);
    var es := MapEntries(f, flat);
    FlatLists(t);
    FlatSorted(t, []);
    forall p, v ensures (p, v) in es <==> LeafAt(MapTree(f, t), p) == Some(v) {
      MapTreeLeaf(f, t, p);
      if (p, v) in es {
        var i :| 0 <= i < |es| && es[i] == (p, v);
        assert flat[i] == (p, flat[i].1) && flat[i] in flat;
      }
      if LeafAt(t, p).Some? {
        assert (p, LeafAt(t, p).value) in flat;
        var i :| 0 <= i < |flat| && flat[i] == (p, LeafAt(t, p).value);
        assert es[i] in es;
      }
    }
    FlatUnique(MapTree(f, t), es);
  }
}
