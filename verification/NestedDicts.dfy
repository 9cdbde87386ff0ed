/** The in-place builder: nested mutable dicts filled leaf by leaf through a moving
    `branch` reference (`_set_mapping_leaf` and `ParameterTreeLayout.mapping_tree`). */
module NestedDicts {
  import opened Basics
  import opened Trees

  datatype Slot<V> = Value(value: V) | Sub(dict: Dict<V>)

  class Dict<V> {
    var items: map<Text, Slot<V>>

    constructor ()
      ensures items == map[]
    {
      items := map[];
    }
  }

  function Front(p: Path): Path
    requires p != []
  {
    p[..|p| - 1]
  }

  function Last(p: Path): Text
    requires p != []
  {
    p[|p| - 1]
  }

  /** The reference stored under key k at p is the dict named p + [k]. */
  ghost predicate Linked<V>(nodes: map<Path, Dict<V>>, p: Path, k: Text)
    requires p in nodes
    reads nodes.Values
  {
    k in nodes[p].items && nodes[p].items[k].Sub? ==> p + [k] in nodes && nodes[p + [k]] == nodes[p].items[k].dict
  }

  /** The dict named p is stored in its parent. */
  ghost predicate Attached<V>(nodes: map<Path, Dict<V>>, p: Path)
    requires p in nodes && p != []
    reads nodes.Values
  {
    Front(p) in nodes && Last(p) in nodes[Front(p)].items && nodes[Front(p)].items[Last(p)] == Sub(nodes[p])
  }

  /** nodes names every dict object by the one path that reaches it from root. */
  ghost predicate Valid<V>(root: Dict<V>, nodes: map<Path, Dict<V>>)
    reads nodes.Values
  {
    && [] in nodes && nodes[[]] == root
    && (forall p, q | p in nodes && q in nodes :: nodes[p] == nodes[q] ==> p == q)
    && (forall p, k {:trigger Linked(nodes, p, k)} | p in nodes :: Linked(nodes, p, k))
    && (forall p {:trigger Attached(nodes, p)} | p in nodes && p != [] :: Attached(nodes, p))
  }

  /** The leaf stored at path q. */
  ghost function HeapLeaf<V>(nodes: map<Path, Dict<V>>, q: Path): Option<V>
    reads nodes.Values
  {
    if q != [] && Front(q) in nodes && Last(q) in nodes[Front(q)].items && nodes[Front(q)].items[Last(q)].Value?
    then Some(nodes[Front(q)].items[Last(q)].value)
    else None
  }

  /** Subscripting the real objects along q, starting from d. */
  ghost function Walk<V>(nodes: map<Path, Dict<V>>, d: Dict<V>, q: Path): Option<V>
    reads nodes.Values
    decreases |q|
  {
    if q == [] || d !in nodes.Values || q[0] !in d.items then None
    else match d.items[q[0]]
      case Value(v) => if |q| == 1 then Some(v) else None
      case Sub(c) => Walk(nodes, c, q[1..])
  }

  lemma {:induction false} WalkFindsLeaf<V>(root: Dict<V>, nodes: map<Path, Dict<V>>, p: Path, q: Path)
    requires Valid(root, nodes) && p in nodes && q != []
    ensures Walk(nodes, nodes[p], q) == HeapLeaf(nodes, p + q)
    decreases |q|
  {
    var k, rest := q[0], q[1..];
    var pk := p + [k];
    assert Linked(nodes, p, k);
    if rest == [] {
      assert q == [k];
      assert Front(p + q) == p && Last(p + q) == k;
    } else if pk in nodes {
      assert Front(pk) == p && Last(pk) == k;
      assert Attached(nodes, pk);
      WalkFindsLeaf(root, nodes, pk, rest);
      assert pk + rest == p + q;
    } else {
      assert pk <= Front(p + q);
      if Front(p + q) in nodes { PrefixesAreNodes(root, nodes, Front(p + q), pk); }
    }
  }

  lemma {:induction false} PrefixesAreNodes<V>(root: Dict<V>, nodes: map<Path, Dict<V>>, p: Path, q: Path)
    requires Valid(root, nodes) && q <= p && p in nodes
    ensures q in nodes && (q != [] ==> Attached(nodes, q))
    decreases |p|
  {
    assert p != [] ==> Attached(nodes, p);
    if q != p {
      PrefixesAreNodes(root, nodes, Front(p), q);
    }
  }

  lemma OnePlace(q: Path, j: Text, p: Path, k: Text)
    ensures Front(q + [j]) == q && Last(q + [j]) == j
    ensures q + [j] == p + [k] <==> q == p && j == k
  {
    assert Front(q + [j]) == q && Last(q + [j]) == j;
    assert Front(p + [k]) == p && Last(p + [k]) == k;
  }

  /** Stores a fresh empty dict under the unused key k of the dict at p. */
  method AddDict<V>(root: Dict<V>, ghost nodes: map<Path, Dict<V>>, branch: Dict<V>, ghost p: Path, k: Text)
    returns (child: Dict<V>, ghost grown: map<Path, Dict<V>>)
    requires Valid(root, nodes) && p in nodes && nodes[p] == branch && k !in branch.items
    modifies branch
    ensures fresh(child) && child.items == map[]
    ensures grown == nodes[p + [k] := child] && Valid(root, grown)
    ensures forall q :: HeapLeaf(grown, q) == old(HeapLeaf(nodes, q))
  {
    assert Front(p + [k]) == p && Last(p + [k]) == k;
    assert p + [k] in nodes ==> Attached(nodes, p + [k]);
    assert p + [k] !in nodes;
    child := new Dict();
    label Before:
    branch.items := branch.items[k := Sub(child)];
    grown := nodes[p + [k] := child];
    forall q, j | q in grown ensures Linked(grown, q, j) {
      OnePlace(q, j, p, k);
      if q in nodes { assert old@Before(Linked(nodes, q, j)); }
    }
    forall q | q in grown && q != [] ensures Attached(grown, q) {
      OnePlace(Front(q), Last(q), p, k);
      if q != p + [k] { assert old@Before(Attached(nodes, q)); }
    }
    forall q ensures HeapLeaf(grown, q) == old(HeapLeaf(nodes, q)) {
      if q != [] && Front(q) in nodes {
        assert grown[Front(q)] == nodes[Front(q)];
      }
    }
  }

  /** Stores the leaf v under the unused key k of the dict at p. */
  method AddValue<V>(root: Dict<V>, ghost nodes: map<Path, Dict<V>>, branch: Dict<V>, ghost p: Path, k: Text, v: V)
    requires Valid(root, nodes) && p in nodes && nodes[p] == branch && k !in branch.items
    modifies branch
    ensures Valid(root, nodes)
    ensures forall q :: HeapLeaf(nodes, q) == if q == p + [k] then Some(v) else old(HeapLeaf(nodes, q))
  {
    branch.items := branch.items[k := Value(v)];
    assert Front(p + [k]) == p && Last(p + [k]) == k;
    forall q, j | q in nodes ensures Linked(nodes, q, j) {
      assert old(Linked(nodes, q, j));
    }
    forall q | q in nodes && q != [] ensures Attached(nodes, q) {
      assert old(Attached(nodes, q));
    }
    forall q ensures HeapLeaf(nodes, q) == if q == p + [k] then Some(v) else old(HeapLeaf(nodes, q)) {
      if q != [] && Front(q) == p && Last(q) == k { assert q == p + [k]; }
    }
  }

  ghost predicate Populated<V>(nodes: map<Path, Dict<V>>, p: Path)
    reads nodes.Values
  {
    exists q :: HeapLeaf(nodes, q).Some? && p <= q
  }

  /** Every dict other than the root holds a leaf somewhere below it. */
  ghost predicate AllPopulated<V>(nodes: map<Path, Dict<V>>)
    reads nodes.Values
  {
    forall p | p in nodes && p != [] :: Populated(nodes, p)
  }

  ghost predicate HeapClashes<V>(nodes: map<Path, Dict<V>>, p: Path)
    reads nodes.Values
  {
    exists q :: HeapLeaf(nodes, q).Some? && Comparable(q, p)
  }

  lemma NoClash<V>(root: Dict<V>, nodes: map<Path, Dict<V>>, p: Path, q: Path)
    requires Valid(root, nodes) && p != [] && Front(p) in nodes && Last(p) !in nodes[Front(p)].items
    requires forall r | Under(r, Front(p)) :: HeapLeaf(nodes, r).None?
    requires HeapLeaf(nodes, q).Some?
    ensures !Comparable(q, p)
  {
    var up := Front(p);
    assert q <= p ==> q == p || Under(q, up);
    if p <= q && |p| < |q| {
      PrefixesAreNodes(root, nodes, Front(q), p);
    }
  }

  /** The walk: follows or creates the dicts along all keys of p but the last, leaving
      every leaf as it was, and stops with ok == false at a leaf. */
  method Descend<V>(root: Dict<V>, ghost nodes: map<Path, Dict<V>>, p: Path)
    returns (ok: bool, branch: Dict<V>, ghost grown: map<Path, Dict<V>>)
    requires Valid(root, nodes) && p != []
    modifies nodes.Values
    ensures !ok ==> old(HeapClashes(nodes, p))
    ensures Valid(root, grown) && fresh(grown.Values - nodes.Values) && nodes.Keys <= grown.Keys
    ensures forall q :: HeapLeaf(grown, q) == old(HeapLeaf(nodes, q))
    ensures forall q | q in grown && q !in nodes :: q <= Front(p)
    ensures ok ==> Front(p) in grown && grown[Front(p)] == branch
    ensures ok ==> forall r | Under(r, Front(p)) :: HeapLeaf(grown, r).None?
  {
    grown := nodes;
    branch := root;
    var i := 0;
    while i < |p| - 1
      invariant 0 <= i < |p|
      invariant Valid(root, grown) && p[..i] in grown && grown[p[..i]] == branch
      invariant fresh(grown.Values - nodes.Values) && nodes.Keys <= grown.Keys
      invariant forall q :: HeapLeaf(grown, q) == old(HeapLeaf(nodes, q))
      invariant forall q | q in grown && q !in nodes :: q <= p[..i]
      invariant forall r | Under(r, p[..i]) :: HeapLeaf(grown, r).None?
    {
      var key := p[i];
      var next := p[..i + 1];
      assert next == p[..i] + [key];
      assert Front(next) == p[..i] && Last(next) == key;
      assert forall r | Under(r, next) :: r == next || Under(r, p[..i]);
      assert Linked(grown, p[..i], key);
      if key !in branch.items {
        branch, grown := AddDict(root, grown, branch, p[..i], key);
      } else {
        match branch.items[key]
        case Value(_) =>
          assert HeapLeaf(grown, next).Some? && Comparable(next, p);
          return false, branch, grown;
        case Sub(child) =>
          branch := child;
      }
      i := i + 1;
    }
    ok := true;
  }

  /** The walk-and-store step: succeeds exactly when p neither repeats nor extends nor is
      extended by a stored leaf, and then stores that one leaf and changes no other. */
  method SetMappingLeaf<V>(root: Dict<V>, ghost nodes: map<Path, Dict<V>>, p: Path, v: V)
    returns (ok: bool, ghost grown: map<Path, Dict<V>>)
    requires Valid(root, nodes) && AllPopulated(nodes) && p != []
    modifies nodes.Values
    ensures ok <==> !old(HeapClashes(nodes, p))
    ensures ok ==> Valid(root, grown) && AllPopulated(grown) && fresh(grown.Values - nodes.Values)
    ensures ok ==> forall q :: HeapLeaf(grown, q) == if q == p then Some(v) else old(HeapLeaf(nodes, q))
  {
    var branch;
    ok, branch, grown := Descend(root, nodes, p);
    if !ok { return; }
    var key := p[|p| - 1];
    assert p == Front(p) + [key];
    if key in branch.items {
      assert Linked(grown, Front(p), key);
      if branch.items[key].Value? {
        assert HeapLeaf(grown, p).Some? && Comparable(p, p);
      } else {
        assert p in nodes && old(Populated(nodes, p));
      }
      return false, grown;
    }
    forall q | HeapLeaf(grown, q).Some? ensures !Comparable(q, p) {
      NoClash(root, grown, p, q);
    }
    AddValue(root, grown, branch, Front(p), key, v);
    forall q | q in grown && q != [] ensures Populated(grown, q) {
      if q !in nodes || q <= p {
        assert HeapLeaf(grown, p).Some? && q <= p;
      } else {
        assert old(Populated(nodes, q));
        var w :| old(HeapLeaf(nodes, w)).Some? && q <= w;
        assert HeapLeaf(grown, w).Some?;
      }
    }
  }

  /** The dicts rooted at root hold exactly the leaves of t, found by walking. */
  ghost predicate Mirrors<V>(root: Dict<V>, nodes: map<Path, Dict<V>>, t: Tree<V>)
    reads nodes.Values
  {
    && Valid(root, nodes) && AllPopulated(nodes)
    && (forall q :: HeapLeaf(nodes, q) == LeafAt(t, q))
  }

  lemma MirrorsWalks<V>(root: Dict<V>, nodes: map<Path, Dict<V>>, t: Tree<V>, q: Path)
    requires Mirrors(root, nodes, t) && q != []
    ensures Walk(nodes, root, q) == LeafAt(t, q)
  {
    WalkFindsLeaf(root, nodes, [], q);
    assert [] + q == q;
  }

  lemma ClashesAgree<V>(root: Dict<V>, nodes: map<Path, Dict<V>>, t: Tree<V>, p: Path)
    requires Mirrors(root, nodes, t)
    ensures HeapClashes(nodes, p) <==> Clashes(t, p)
  {
    if Clashes(t, p) {
      var q :| IsLeafPath(t, q) && Comparable(q, p);
      assert HeapLeaf(nodes, q).Some?;
    }
    if HeapClashes(nodes, p) {
      var q :| HeapLeaf(nodes, q).Some? && Comparable(q, p);
      assert IsLeafPath(t, q);
    }
  }

  /** SetMappingLeaf on the objects is SetLeaf on the tree they mirror. */
  method SetMirroredLeaf<V>(root: Dict<V>, ghost nodes: map<Path, Dict<V>>, ghost t: Tree<V>, p: Path, v: V)
    returns (ok: bool, ghost grown: map<Path, Dict<V>>)
    requires Mirrors(root, nodes, t) && Fillable(t) && p != []
    modifies nodes.Values
    ensures ok <==> SetLeaf(t, p, v).Some?
    ensures ok ==> Mirrors(root, grown, SetLeaf(t, p, v).value) && fresh(grown.Values - nodes.Values)
  {
    SetLeafEffect(t, p, v);
    ClashesAgree(root, nodes, t, p);
    ok, grown := SetMappingLeaf(root, nodes, p, v);
  }

  /** The loop over all entries refines the functional Build, hence succeeds exactly on
      prefix-free keypaths. */
  method BuildInPlace<V>(es: Entries<V>) returns (ok: bool, root: Dict<V>, ghost nodes: map<Path, Dict<V>>)
    requires forall e | e in es :: e.0 != []
    ensures ok <==> PrefixFree(Paths(es))
    ensures ok ==> Build(es).Some? && Mirrors(root, nodes, Build(es).value)
    ensures fresh(root)
  {
    root := new Dict();
    nodes := map[[] := root];
    ghost var t: Tree<V> := Branch(map[]);
    BuildEffect(es);
    var i := 0;
    while i < |es|
      invariant 0 <= i <= |es|
      invariant Mirrors(root, nodes, t) && Fillable(t)
      invariant BuildOn(t, es[i..]) == Build(es)
      invariant fresh(nodes.Values)
    {
      assert es[i..][0] == es[i] && es[i..][1..] == es[i + 1..] && es[i] in es;
      SetLeafEffect(t, es[i].0, es[i].1);
      ok, nodes := SetMirroredLeaf(root, nodes, t, es[i].0, es[i].1);
      if !ok {
        return;
      }
      t := SetLeaf(t, es[i].0, es[i].1).value;
      i := i + 1;
    }
    ok := true;
  }
}
