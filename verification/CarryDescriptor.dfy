/** The architecture-owned carry descriptor, and its agreement with the codec's own. */
module CarryDescriptor {
  import opened Basics
  import opened Ordering
  import opened Trees
  import opened KeypathCodec
  import opened NpzCodec

  // ---- describe_mapping_pytree ----

  function CodecDesc(lib: ArrayLib): ((Path, Array)) -> LeafDesc {
    (e: (Path, Array)) =>
      LeafDesc(e.0, Encode(e.0).GetOr(""), Canonical(lib, e.1).shape, Name(Canonical(lib, e.1).dtype))
  }

  function DescribeMappingPytree(lib: ArrayLib, o: PyTree): Option<seq<LeafDesc>> {
    match Flatten(o, []) case None => None case Some(es) => DescribeEntries(lib, es)
  }

  function DescribeEntries(lib: ArrayLib, es: Entries<Array>): Option<seq<LeafDesc>> {
    if AllAdmissible(es) then Some(Map(CodecDesc(lib), Sort(ByPath, es))) else None
  }

  predicate AllAdmissible(es: Entries<Array>) { forall e | e in es :: Admissible(e.1) }

  // ---- describe_mapping_carry ----

  /** _encode_keypath: the same text, without the check. */
  function EncodeUnchecked(p: Path): string
    requires p != []
  {
    "k_" + JoinParts(p) + ".npy"
  }

  /** The entry made for anything that is not a nonempty mapping. */
  function CarryLeaf(value: PyTree, path: Path): LeafDesc
    requires path != []
  {
    match value
    case PyLeaf(a) => LeafDesc(path, EncodeUnchecked(path), a.shape, Name(a.dtype))
    case PyDict(_) => LeafDesc(path, EncodeUnchecked(path), [], TypeName("dict"))
  }

  /** What visit appends; None where it raises. */
  function Visited(value: PyTree, path: Path): Option<seq<LeafDesc>>
    decreases value, 1, 0
  {
    if value.PyLeaf? || value.items == [] then
      if path == [] then None else Some([CarryLeaf(value, path)])
    else
      assert forall k | k in Sort(TextLt, KeysOf(value.items)) :: k in multiset(KeysOf(value.items));
      VisitedKeys(value, path, Sort(TextLt, KeysOf(value.items)))
  }

  function VisitedKeys(value: PyTree, path: Path, ks: seq<Text>): Option<seq<LeafDesc>>
    requires value.PyDict? && forall k | k in ks :: k in KeysOf(value.items)
    decreases value, 0, |ks|
  {
    if ks == [] then Some([])
    else if ks[0] == [] then None
    else
      var first := Visited(Get(value.items, ks[0]), path + [ks[0]]);
      var others := VisitedKeys(value, path, ks[1..]);
      if first.None? || others.None? then None else Some(first.value + others.value)
  }

  lemma Regrouped(a: seq<LeafDesc>, b: seq<LeafDesc>, c: seq<LeafDesc>)
    ensures a + b + c == a + (b + c)
  {
  }

  lemma DropNext(ks: seq<Text>, i: nat)
    requires i < |ks|
    ensures ks[i..][0] == ks[i] && ks[i..][1..] == ks[i + 1..]
  {
  }

  lemma VisitedNext(value: PyTree, path: Path, ks: seq<Text>, child: PyTree)
    requires value.PyDict? && (forall k | k in ks :: k in KeysOf(value.items)) && ks != []
    requires child == Get(value.items, ks[0])
    ensures ks[0] == [] ==> VisitedKeys(value, path, ks).None?
    ensures Visited(child, path + [ks[0]]).None? ==> VisitedKeys(value, path, ks).None?
    ensures Visited(child, path + [ks[0]]).Some? ==>
              ks[0] == [] || VisitedKeys(value, path, ks) == Join(Visited(child, path + [ks[0]]).value, VisitedKeys(value, path, ks[1..]))
  {
  }

  /** The turn of the loop at i, the first keys having given done. */
  lemma VisitedOn(value: PyTree, path: Path, ks: seq<Text>, i: nat, done: seq<LeafDesc>)
    requires value.PyDict? && (forall k | k in ks :: k in KeysOf(value.items)) && i < |ks|
    ensures forall k | k in ks[i..] :: k in ks
    ensures forall k | k in ks[i + 1..] :: k in ks
    ensures var first, whole := Visited(Get(value.items, ks[i]), path + [ks[i]]), Join(done, VisitedKeys(value, path, ks[i..]));
            && (ks[i] == [] || first.None? ==> whole.None?)
            && (ks[i] != [] && first.Some? ==> whole == Join(done + first.value, VisitedKeys(value, path, ks[i + 1..])))
  {
    DropNext(ks, i);
    var first := Visited(Get(value.items, ks[i]), path + [ks[i]]);
    VisitedNext(value, path, ks[i..], Get(value.items, ks[i]));
    if first.Some? { JoinJoin(done, first.value, VisitedKeys(value, path, ks[i + 1..])); }
  }

  /** The recursive visit appending to the shared list. */
  class Visitor {
    var leaves: seq<LeafDesc>

    constructor ()
      ensures leaves == []
    {
      leaves := [];
    }

    method Visit(value: PyTree, path: Path) returns (ok: bool)
      modifies this
      ensures ok <==> Visited(value, path).Some?
      ensures ok ==> leaves == old(leaves) + Visited(value, path).value
      decreases value, 1
    {
      if value.PyLeaf? || value.items == [] {
        if path == [] { return false; }
        leaves := leaves + [CarryLeaf(value, path)];
        return true;
      }
      var ks := Sort(TextLt, KeysOf(value.items));
      forall k | k in ks ensures k in KeysOf(value.items) { assert k in multiset(KeysOf(value.items)); }
      ghost var added;
      ok, added := VisitKeys(value, path, ks);
    }

    /** The loop over the sorted keys of one mapping. */
    method VisitKeys(value: PyTree, path: Path, ks: seq<Text>) returns (ok: bool, ghost done: seq<LeafDesc>)
      requires value.PyDict? && forall k | k in ks :: k in KeysOf(value.items)
      modifies this
      ensures VisitedKeys(value, path, ks) == if ok then Some(done) else None
      ensures ok ==> leaves == old(leaves) + done
      decreases value, 0
    {
      done := [];
      ghost var whole := VisitedKeys(value, path, ks);
      JoinJoin([], [], whole);
      assert ks[0..] == ks;
      var i := 0;
      while i < |ks|
        invariant 0 <= i <= |ks|
        invariant forall k | k in ks[i..] :: k in ks
        invariant leaves == old(leaves) + done
        invariant whole == Join(done, VisitedKeys(value, path, ks[i..]))
      {
        assert ks[i] in ks;
        var child := Get(value.items, ks[i]);
        VisitedOn(value, path, ks, i, done);
        if ks[i] == [] { return false, done; }
        ok := this.Visit(child, path + [ks[i]]);
        if !ok { return false, done; }
        Regrouped(old(leaves), done, Visited(child, path + [ks[i]]).value);
        done := done + Visited(child, path + [ks[i]]).value;
        i := i + 1;
      }
      ok := true;
      assert ks[i..] == [] && done + [] == done;
    }
  }

  function Join(done: seq<LeafDesc>, more: Option<seq<LeafDesc>>): Option<seq<LeafDesc>> {
    match more case None => None case Some(s) => Some(done + s)
  }

  lemma JoinJoin(a: seq<LeafDesc>, b: seq<LeafDesc>, more: Option<seq<LeafDesc>>)
    ensures Join(a, Join(b, more)) == Join(a + b, more) && Join([], more) == more
  {
    if more.Some? { assert [] + more.value == more.value; assert a + (b + more.value) == a + b + more.value; }
  }

  method DescribeMappingCarry(tree: PyTree) returns (r: Option<seq<LeafDesc>>)
    ensures r == Visited(tree, [])
  {
    var v := new Visitor();
    var ok := v.Visit(tree, []);
    if ok {
      assert [] + Visited(tree, []).value == Visited(tree, []).value;
      return Some(v.leaves);
    } else {
      return None;
    }
  }

  // ---- agreement ----

  function CarryDesc(): ((Path, Array)) -> LeafDesc {
    (e: (Path, Array)) => LeafDesc(e.0, if e.0 == [] then "" else EncodeUnchecked(e.0), e.1.shape, Name(e.1.dtype))
  }

  lemma {:induction false} VisitedIsFlat(o: PyTree, path: Path)
    requires UniqueKeys(o) && Acceptable(Meaning(o)) && (path != [] || o.PyDict?)
    ensures Visited(o, path) == Some(Map(CarryDesc(), Flat(Meaning(o), path)))
    decreases o, 1, 0
  {
    if o.PyLeaf? {
      assert Flat(Meaning(o), path) == [(path, o.leaf)];
      assert Map(CarryDesc(), [(path, o.leaf)]) == [CarryLeaf(o, path)];
    } else {
      EmptyDict(o);
      SortedKeysOf(o);
      AcceptableByKids(Meaning(o));
      VisitedKeysIsFlat(o, path, Sort(TextLt, KeysOf(o.items)));
    }
  }

  lemma EmptyDict(o: PyTree)
    requires o.PyDict?
    ensures Meaning(o).kids == map[] <==> o.items == []
  {
    if o.items != [] {
      assert KeysOf(o.items)[0] in Meaning(o).kids;
    }
  }

  lemma {:induction false} VisitedKeysIsFlat(o: PyTree, path: Path, ks: seq<Text>)
    requires o.PyDict? && UniqueKeys(o) && forall k | k in ks :: k in KeysOf(o.items)
    requires AcceptableKids(Meaning(o), ks)
    ensures VisitedKeys(o, path, ks) == Some(Map(CarryDesc(), FlatKids(Meaning(o), path, ks)))
    decreases o, 0, |ks|
  {
    if ks != [] {
      assert ks[0] in ks && forall k | k in ks[1..] :: k in ks;
      ChildOf(o, ks[0]);
      AcceptableKidsStep(Meaning(o), ks);
      VisitedIsFlat(Get(o.items, ks[0]), path + [ks[0]]);
      VisitedKeysIsFlat(o, path, ks[1..]);
      FlatKeysStep(o, path, ks);
    }
  }

  lemma FlatKeysStep(o: PyTree, path: Path, ks: seq<Text>)
    requires o.PyDict? && ks != [] && ks[0] != [] && (forall k | k in ks :: k in KeysOf(o.items))
    requires ks[0] in Meaning(o).kids && Meaning(o).kids[ks[0]] == Meaning(Get(o.items, ks[0]))
    requires forall k | k in ks[1..] :: k in KeysOf(o.items) && k in Meaning(o).kids
    requires Visited(Get(o.items, ks[0]), path + [ks[0]]) == Some(Map(CarryDesc(), Flat(Meaning(o).kids[ks[0]], path + [ks[0]])))
    requires VisitedKeys(o, path, ks[1..]) == Some(Map(CarryDesc(), FlatKids(Meaning(o), path, ks[1..])))
    ensures VisitedKeys(o, path, ks) == Some(Map(CarryDesc(), FlatKids(Meaning(o), path, ks)))
  {
    var first, others := Flat(Meaning(o).kids[ks[0]], path + [ks[0]]), FlatKids(Meaning(o), path, ks[1..]);
    MapConcat(CarryDesc(), first, others);
    VisitedKeysStep(o, path, ks, Map(CarryDesc(), first), Map(CarryDesc(), others));
  }

  lemma VisitedKeysStep(o: PyTree, path: Path, ks: seq<Text>, a: seq<LeafDesc>, b: seq<LeafDesc>)
    requires o.PyDict? && ks != [] && ks[0] != [] && forall k | k in ks :: k in KeysOf(o.items)
    requires Visited(Get(o.items, ks[0]), path + [ks[0]]) == Some(a)
    requires (forall k | k in ks[1..] :: k in KeysOf(o.items)) && VisitedKeys(o, path, ks[1..]) == Some(b)
    ensures VisitedKeys(o, path, ks) == Some(a + b)
  {
  }

  /** The carry descriptor exists whenever the codec accepts the tree. */
  lemma {:induction false} VisitedTotal(o: PyTree, path: Path)
    requires UniqueKeys(o)
    ensures Visited(o, path).Some? <==> GoodKeys(Meaning(o)) && (path != [] || (o.PyDict? && o.items != []))
    decreases o, 1, 0
  {
    if o.PyDict? && o.items != [] {
      SortedKeysOf(o);
      var ks := Sort(TextLt, KeysOf(o.items));
      VisitedKeysTotal(o, path, ks);
      GoodByKeys(Meaning(o));
    }
  }

  lemma GoodByKeys(t: Tree<Array>)
    requires t.Branch?
    ensures GoodKeys(t) <==> forall k | k in Keys(t.kids.Keys) :: k != [] && GoodKeys(t.kids[k])
  {
    assert forall k :: k in Keys(t.kids.Keys) <==> k in Elems(Keys(t.kids.Keys));
  }

  lemma {:induction false} VisitedKeysTotal(o: PyTree, path: Path, ks: seq<Text>)
    requires o.PyDict? && UniqueKeys(o) && forall k | k in ks :: k in KeysOf(o.items)
    ensures forall k | k in ks :: k in Meaning(o).kids
    ensures VisitedKeys(o, path, ks).Some? <==> forall k | k in ks :: k != [] && GoodKeys(Meaning(o).kids[k])
    decreases o, 0, |ks|
  {
    if ks != [] {
      var child := Get(o.items, ks[0]);
      assert ks[0] in ks && ks == [ks[0]] + ks[1..];
      ChildOf(o, ks[0]);
      VisitedTotal(child, path + [ks[0]]);
      VisitedKeysTotal(o, path, ks[1..]);
    }
  }

  // ---- every entry ----

  /** o holds v at p. */
  ghost predicate Holding(o: PyTree, p: Path, v: PyTree)
    decreases |p|
  {
    if p == [] then v == o
    else o.PyDict? && exists e :: e in o.items && e.0 == p[0] && Holding(e.1, p[1..], v)
  }

  /** d's shape and dtype are those of a leaf, or say that v is an empty mapping. */
  ghost predicate Depicts(v: PyTree, d: LeafDesc) {
    match v
    case PyLeaf(a) =>
      d.shape == a.shape && d.dtype == (if a.dtype.order == BigEndian then Swapped(a.dtype.code) else Native(a.dtype.name))
    case PyDict(items) => items == [] && d.shape == [] && d.dtype == TypeName("dict")
  }

  /** Below prefix, o holds at d's keypath what d depicts, and d's member is the keypath's. */
  ghost predicate ListsEntry(o: PyTree, prefix: Path, d: LeafDesc) {
    && prefix <= d.keypath && Encode(d.keypath) == Some(d.member)
    && exists v :: Holding(o, d.keypath[|prefix|..], v) && Depicts(v, d)
  }

  /** The carry descriptor lists exactly the leaves and the empty mappings. */
  lemma {:induction false} ListsExactly(o: PyTree, prefix: Path, d: LeafDesc)
    requires UniqueKeys(o) && Visited(o, prefix).Some? && forall k | k in prefix :: k != []
    ensures d in Visited(o, prefix).value <==> ListsEntry(o, prefix, d)
    decreases o, 1, 0
  {
    if o.PyLeaf? || o.items == [] {
      LeafListed(o, prefix, d);
    } else {
      SortedKeysOf(o);
      var ks := Sort(TextLt, KeysOf(o.items));
      assert forall k | k in ks :: k in multiset(KeysOf(o.items));
      KeysListExactly(o, prefix, ks, d);
      ListedBelow(o, prefix, d);
      if prefix < d.keypath {
        var k := d.keypath[|prefix|];
        assert k in ks <==> k in multiset(ks);
      }
    }
  }

  lemma LeafListed(o: PyTree, prefix: Path, d: LeafDesc)
    requires (o.PyLeaf? || o.items == []) && prefix != [] && forall k | k in prefix :: k != []
    ensures d == CarryLeaf(o, prefix) <==> ListsEntry(o, prefix, d)
  {
    assert Encode(prefix) == Some(EncodeUnchecked(prefix));
    assert Holding(o, [], o);
    if ListsEntry(o, prefix, d) {
      var rest := d.keypath[|prefix|..];
      var v :| Holding(o, rest, v) && Depicts(v, d);
      assert rest == [];
      assert d.keypath == prefix;
    }
    if d == CarryLeaf(o, prefix) {
      assert d.keypath[|prefix|..] == [] && Depicts(o, d);
    }
  }

  /** d is listed below one of the keys. */
  ghost predicate ListsUnder(o: PyTree, prefix: Path, ks: seq<Text>, d: LeafDesc)
    requires o.PyDict? && forall k | k in ks :: k in KeysOf(o.items)
  {
    && prefix < d.keypath && d.keypath[|prefix|] in ks
    && ListsEntry(Get(o.items, d.keypath[|prefix|]), prefix + [d.keypath[|prefix|]], d)
  }

  lemma ListedBelow(o: PyTree, prefix: Path, d: LeafDesc)
    requires o.PyDict? && o.items != [] && UniqueKeys(o)
    ensures ListsEntry(o, prefix, d) <==> ListsUnder(o, prefix, KeysOf(o.items), d)
  {
    if prefix <= d.keypath {
      var rest := d.keypath[|prefix|..];
      if rest == [] {
        assert d.keypath == prefix;
      } else {
        var k := rest[0];
        var below := prefix + [k];
        assert below <= d.keypath && d.keypath[|below|..] == rest[1..];
        forall v ensures Holding(o, rest, v) <==> k in KeysOf(o.items) && Holding(Get(o.items, k), rest[1..], v) {
          HeldBelow(o, rest, v);
        }
      }
    }
  }

  lemma HeldBelow(o: PyTree, p: Path, v: PyTree)
    requires o.PyDict? && UniqueKeys(o) && p != []
    ensures Holding(o, p, v) <==> p[0] in KeysOf(o.items) && Holding(Get(o.items, p[0]), p[1..], v)
  {
    if Holding(o, p, v) {
      var e :| e in o.items && e.0 == p[0] && Holding(e.1, p[1..], v);
      var i :| 0 <= i < |o.items| && o.items[i] == e;
      assert KeysOf(o.items)[i] == p[0];
      OneItem(o, i);
    }
    if p[0] in KeysOf(o.items) {
      var i :| 0 <= i < |o.items| && o.items[i] == (p[0], Get(o.items, p[0]));
    }
  }

  lemma OneItem(o: PyTree, i: nat)
    requires o.PyDict? && UniqueKeys(o) && i < |o.items|
    ensures o.items[i].0 in KeysOf(o.items) && Get(o.items, o.items[i].0) == o.items[i].1
  {
    var k := o.items[i].0;
    assert KeysOf(o.items)[i] == k;
    var j :| 0 <= j < |o.items| && o.items[j] == (k, Get(o.items, k));
    assert KeysOf(o.items)[j] == k;
  }

  lemma {:induction false} KeysListExactly(o: PyTree, prefix: Path, ks: seq<Text>, d: LeafDesc)
    requires o.PyDict? && UniqueKeys(o) && (forall k | k in ks :: k in KeysOf(o.items)) && forall k | k in prefix :: k != []
    requires VisitedKeys(o, prefix, ks).Some?
    ensures d in VisitedKeys(o, prefix, ks).value <==> ListsUnder(o, prefix, ks, d)
    decreases o, 0, |ks|
  {
    if ks != [] {
      var k := ks[0];
      var child, below := Get(o.items, k), prefix + [k];
      assert k in ks && ks == [k] + ks[1..];
      ChildOf(o, k);
      ListsExactly(child, below, d);
      KeysListExactly(o, prefix, ks[1..], d);
      if below <= d.keypath { assert prefix < d.keypath && d.keypath[|prefix|] == k; }
    }
  }

  /** No leaf that the codec rejects or converts. */
  ghost predicate AllNative(t: Tree<Array>) {
    forall p :: IsLeafPath(t, p) ==>
      Admissible(LeafAt(t, p).value) && LeafAt(t, p).value.dtype.order != BigEndian
  }

  lemma CodecDescribes(lib: ArrayLib, o: PyTree)
    requires UniqueKeys(o)
    ensures DescribeMappingPytree(lib, o).Some? <==>
            o.PyDict? && Acceptable(Meaning(o)) && AllAdmissible(Flat(Meaning(o), []))
    ensures DescribeMappingPytree(lib, o).Some? ==>
              DescribeMappingPytree(lib, o) == Some(Map(CodecDesc(lib), Flat(Meaning(o), [])))
  {
    if o.PyDict? && Acceptable(Meaning(o)) {
      SortedFlat(o);
      assert DescribeMappingPytree(lib, o) == DescribeEntries(lib, Flat(Meaning(o), []));
    } else {
      FlattenIsFlat(o, []);
    }
  }

  lemma SameDescs(lib: ArrayLib, es: Entries<Array>)
    requires forall e | e in es :: Encodable(e.0)
    ensures Map(CodecDesc(lib), es) == Map(CarryDesc(), es) <==> forall e | e in es :: e.1.dtype.order != BigEndian
  {
    var a, b := Map(CodecDesc(lib), es), Map(CarryDesc(), es);
    forall i | 0 <= i < |es| ensures a[i] == b[i] <==> es[i].1.dtype.order != BigEndian {
      assert es[i] in es;
      SameDesc(lib, es[i]);
    }
    if a == b {
      forall e | e in es ensures e.1.dtype.order != BigEndian {
        var i :| 0 <= i < |es| && es[i] == e;
        assert a[i] == b[i];
      }
    } else if forall e | e in es :: e.1.dtype.order != BigEndian {
      assert forall i | 0 <= i < |es| :: es[i] in es && a[i] == b[i];
    }
  }

  lemma SameDesc(lib: ArrayLib, e: (Path, Array))
    requires Encodable(e.0)
    ensures CodecDesc(lib)(e) == CarryDesc()(e) <==> e.1.dtype.order != BigEndian
  {
    assert Encode(e.0).Some?;
  }

  /** The two descriptors agree, leaf for leaf and in the same order, exactly when no
      mapping in the tree is empty and no leaf is converted or rejected by the codec. */
  lemma DescriptorsAgree(lib: ArrayLib, o: PyTree)
    requires UniqueKeys(o)
    ensures Visited(o, []).None? ==> DescribeMappingPytree(lib, o).None?
    ensures Visited(o, []).Some? ==>
              (Visited(o, []) == DescribeMappingPytree(lib, o) <==> NoEmpty(Meaning(o)) && AllNative(Meaning(o)))
  {
    var t := Meaning(o);
    VisitedTotal(o, []);
    CodecDescribes(lib, o);
    if o.PyDict? { EmptyDict(o); }
    if Visited(o, []).Some? && NoEmpty(t) {
      var flat := Flat(t, []);
      VisitedIsFlat(o, []);
      FlatLists(t);
      forall e | e in flat ensures Encodable(e.0) && LeafAt(t, e.0) == Some(e.1) {
        assert (e.0, e.1) in flat;
        LeafPathKeys(t, e.0);
      }
      SameDescs(lib, flat);
      FlatNative(t);
    }
  }

  lemma FlatNative(t: Tree<Array>)
    ensures AllNative(t) <==> forall e | e in Flat(t, []) :: Admissible(e.1) && e.1.dtype.order != BigEndian
  {
    FlatLists(t);
    if AllNative(t) {
      forall e | e in Flat(t, []) ensures Admissible(e.1) && e.1.dtype.order != BigEndian {
        assert (e.0, e.1) in Flat(t, []) && LeafAt(t, e.0) == Some(e.1);
        assert IsLeafPath(t, e.0);
      }
    }
    if forall e | e in Flat(t, []) :: Admissible(e.1) && e.1.dtype.order != BigEndian {
      forall p | IsLeafPath(t, p)
        ensures Admissible(LeafAt(t, p).value) && LeafAt(t, p).value.dtype.order != BigEndian
      {
        assert (p, LeafAt(t, p).value) in Flat(t, []);
        assert Admissible((p, LeafAt(t, p).value).1);
      }
    }
  }

  /** The descriptor declared without writing is the one the writer returns. */
  lemma DescribeIsWritten(lib: ArrayLib, o: PyTree)
    requires UniqueKeys(o) && Write(lib, o).Some?
    ensures DescribeMappingPytree(lib, o) == Some(Write(lib, o).value.leaves)
  {
    var t := Meaning(o);
    WriteTheorem(lib, o);
    CodecDescribes(lib, o);
    FlatWritable(lib, t);
    FlatMapTree(Canon(lib), t);
    HeldAreDescribed(lib, Write(lib, o).value, Flat(t, []));
  }

  lemma HeldAreDescribed(lib: ArrayLib, arch: Archive, flat: Entries<Array>)
    requires Holds(arch, MapEntries(Canon(lib), flat))
    ensures arch.leaves == Map(CodecDesc(lib), flat)
  {
    var es := MapEntries(Canon(lib), flat);
    forall i | 0 <= i < |flat| ensures arch.leaves[i] == Map(CodecDesc(lib), flat)[i] {
      assert Row(arch.members, arch.leaves[i], es[i]);
    }
  }
}
