/** The deterministic NPZ codec: flattening insertion-ordered mappings, the descriptor,
    the member table, and rebuilding from them. */
module NpzCodec {
  import opened Basics
  import opened Ordering
  import opened Trees
  import opened KeypathCodec
  import Npy = NpyMember

  // ---- arrays ----

  datatype ByteOrder = LittleEndian | BigEndian | NoOrder

  datatype Kind = Plain | ObjectKind | Structured

  /** code is the part of dtype.str after the byte-order character; name is str of the native
      type, which code need not determine (an extension type may share the code of a raw one). */
  datatype DType = DType(kind: Kind, code: Text, name: Text, order: ByteOrder)

  datatype Array = Array(dtype: DType, shape: seq<nat>, data: Text)

  /** dtype.str on a little-endian host: '<', '>' or '|' and the code. */
  function Str(d: DType): Text {
    [match d.order case LittleEndian => 60 case BigEndian => 62 case NoOrder => 124] + d.code
  }

  /** str(dtype): a name for native types, the swapped code otherwise. */
  datatype DTypeName = Native(native: Text) | Swapped(code: Text) | TypeName(name: string)

  function Name(d: DType): DTypeName {
    if d.order == BigEndian then Swapped(d.code) else Native(d.name)
  }

  /** swap reverses the bytes of each item (astype to little-endian); readArray is
      np.lib.format.read_array without pickle. */
  datatype ArrayLib = ArrayLib(swap: (DType, Text) -> Text, readArray: Text -> Option<Array>)

  predicate Admissible(a: Array) { a.dtype.kind == Plain }

  /** _canonical_array on an admissible array. */
  function Canonical(lib: ArrayLib, a: Array): Array {
    if a.dtype.order == BigEndian
    then Array(a.dtype.(order := LittleEndian), a.shape, lib.swap(a.dtype, a.data))
    else a
  }

  function NpyBytes(a: Array): Option<Text> { Npy.Member(Str(a.dtype), a.shape, a.data) }

  // ---- insertion-ordered mappings ----

  /** Keys of one dict are distinct; their order is the insertion order. */
  datatype PyTree = PyLeaf(leaf: Array) | PyDict(items: seq<(Text, PyTree)>)

  function KeysOf(items: seq<(Text, PyTree)>): seq<Text> { Map((e: (Text, PyTree)) => e.0, items) }

  function Get(items: seq<(Text, PyTree)>, k: Text): (c: PyTree)
    requires k in KeysOf(items)
    ensures exists i :: 0 <= i < |items| && items[i] == (k, c)
  {
    if items[0].0 == k then
      assert items[0] == (k, items[0].1);
      items[0].1
    else
      assert KeysOf(items) == [items[0].0] + KeysOf(items[1..]);
      var c := Get(items[1..], k);
      assert exists i :: 0 <= i < |items[1..]| && items[1..][i] == (k, c) && items[i + 1] == (k, c);
      c
  }

  ghost predicate UniqueKeys(o: PyTree) {
    o.PyDict? ==> Distinct(KeysOf(o.items)) && forall i | 0 <= i < |o.items| :: UniqueKeys(o.items[i].1)
  }

  /** What the mapping is up to insertion order: equality of dicts. */
  function Meaning(o: PyTree): Tree<Array> {
    if o.PyLeaf? then Leaf(o.leaf)
    else Branch(map k | k in KeysOf(o.items) :: Meaning(Get(o.items, k)))
  }

  /** _flatten_mapping; None where it raises. */
  function Flatten(o: PyTree, prefix: Path): Option<Entries<Array>>
    decreases o, 1, 0
  {
    if o.PyLeaf? || o.items == [] then None
    else
      assert forall k | k in Sort(TextLt, KeysOf(o.items)) :: k in multiset(KeysOf(o.items));
      FlattenKeys(o, prefix, Sort(TextLt, KeysOf(o.items)))
  }

  function FlattenKeys(o: PyTree, prefix: Path, ks: seq<Text>): Option<Entries<Array>>
    requires o.PyDict? && forall k | k in ks :: k in KeysOf(o.items)
    decreases o, 0, |ks|
  {
    if ks == [] then Some([])
    else if ks[0] == [] then None
    else
      var child := Get(o.items, ks[0]);
      var first := if child.PyDict? then Flatten(child, prefix + [ks[0]]) else Some([(prefix + [ks[0]], child.leaf)]);
      var others := FlattenKeys(o, prefix, ks[1..]);
      if first.None? || others.None? then None else Some(first.value + others.value)
  }

  // ---- flattening depends only on the mapping, not on insertion order ----

  ghost predicate GoodKeys<V>(t: Tree<V>) {
    t.Branch? ==> forall k | k in t.kids :: k != [] && GoodKeys(t.kids[k])
  }

  ghost predicate Acceptable<V>(t: Tree<V>) { NoEmpty(t) && GoodKeys(t) }

  lemma {:induction false} FlattenIsFlat(o: PyTree, prefix: Path)
    requires UniqueKeys(o)
    ensures Flatten(o, prefix) ==
            if o.PyDict? && Acceptable(Meaning(o)) then Some(Flat(Meaning(o), prefix)) else None
    decreases o, 1, 0
  {
    if o.PyDict? && o.items != [] {
      SortedKeysOf(o);
      AcceptableByKids(Meaning(o));
      FlattenKeysIsFlat(o, prefix, Sort(TextLt, KeysOf(o.items)));
    }
  }

  lemma SortedKeysOf(o: PyTree)
    requires o.PyDict? && UniqueKeys(o) && o.items != []
    ensures Sort(TextLt, KeysOf(o.items)) == Keys(Meaning(o).kids.Keys)
    ensures Meaning(o).kids != map[]
    ensures forall k | k in Sort(TextLt, KeysOf(o.items)) :: k in KeysOf(o.items)
  {
    var ks := KeysOf(o.items);
    TextOrder();
    SortIsAscending(TextLt, ks);
    assert Meaning(o).kids.Keys == Elems(ks);
    assert ks[0] in Meaning(o).kids;
    forall k | k in Sort(TextLt, ks) ensures k in ks { assert k in multiset(ks); }
  }

  lemma AcceptableByKids(t: Tree<Array>)
    requires t.Branch? && t.kids != map[]
    ensures Acceptable(t) <==> AcceptableKids(t, Keys(t.kids.Keys))
  {
    var ks := Keys(t.kids.Keys);
    assert forall k :: k in ks <==> k in Elems(ks);
  }

  ghost predicate AcceptableKids(t: Tree<Array>, ks: seq<Text>)
    requires t.Branch?
  {
    forall k | k in ks :: k != [] && k in t.kids && Acceptable(t.kids[k])
  }

  lemma {:induction false} FlattenKeysIsFlat(o: PyTree, prefix: Path, ks: seq<Text>)
    requires o.PyDict? && UniqueKeys(o) && forall k | k in ks :: k in KeysOf(o.items)
    ensures FlattenKeys(o, prefix, ks) ==
            if AcceptableKids(Meaning(o), ks) then Some(FlatKids(Meaning(o), prefix, ks)) else None
    decreases o, 0, |ks|
  {
    if ks != [] {
      var k := ks[0];
      assert k in ks && ks == [k] + ks[1..];
      FlattenKeysIsFlat(o, prefix, ks[1..]);
      ChildOf(o, k);
      if Get(o.items, k).PyDict? { FlattenIsFlat(Get(o.items, k), prefix + [k]); }
      AcceptableKidsStep(Meaning(o), ks);
    }
  }

  lemma ChildOf(o: PyTree, k: Text)
    requires o.PyDict? && UniqueKeys(o) && k in KeysOf(o.items)
    ensures UniqueKeys(Get(o.items, k)) && k in Meaning(o).kids && Meaning(o).kids[k] == Meaning(Get(o.items, k))
  {
  }

  lemma AcceptableKidsStep(t: Tree<Array>, ks: seq<Text>)
    requires t.Branch? && ks != [] && ks[0] in t.kids
    ensures AcceptableKids(t, ks) <==> ks[0] != [] && Acceptable(t.kids[ks[0]]) && AcceptableKids(t, ks[1..])
  {
    assert ks == [ks[0]] + ks[1..];
  }

  // ---- writing ----

  const CODEC: string := "radjax_deterministic_npz.v1"

  datatype LeafDesc = LeafDesc(keypath: Path, member: string, shape: seq<nat>, dtype: DTypeName)

  datatype Descriptor = Descriptor(codec: string, leaves: seq<LeafDesc>)

  datatype Archive = Archive(members: map<string, Text>, leaves: seq<LeafDesc>)

  predicate ByPath(a: (Path, Array), b: (Path, Array)) { PathLt(a.0, b.0) }

  /** One iteration of the writer's loop; None where it raises. */
  function WriteLeaf(lib: ArrayLib, arch: Archive, e: (Path, Array)): Option<Archive> {
    var member := Encode(e.0);
    if member.None? || member.value in arch.members || !Admissible(e.1) then None
    else
      var c := Canonical(lib, e.1);
      match NpyBytes(c)
      case None => None
      case Some(bytes) =>
        Some(Archive(arch.members[member.value := bytes],
                     arch.leaves + [LeafDesc(e.0, member.value, c.shape, Name(c.dtype))]))
  }

  function WriteLeaves(lib: ArrayLib, arch: Archive, es: Entries<Array>): Option<Archive>
    decreases |es|
  {
    if es == [] then Some(arch)
    else match WriteLeaf(lib, arch, es[0])
      case None => None
      case Some(arch') => WriteLeaves(lib, arch', es[1..])
  }

  const EMPTY_ARCHIVE := Archive(map[], [])

  function Write(lib: ArrayLib, o: PyTree): Option<Archive> {
    match Flatten(o, [])
    case None => None
    case Some(es) => WriteLeaves(lib, EMPTY_ARCHIVE, Sort(ByPath, es))
  }

  /** write_deterministic_npz up to the ZIP container: the loop over sorted leaves. */
  method WriteDeterministicNpz(lib: ArrayLib, tree: PyTree) returns (r: Option<Archive>)
    ensures r == Write(lib, tree)
  {
    var flat := Flatten(tree, []);
    if flat.None? { return None; }
    var leaves := Sort(ByPath, flat.value);
    var members: map<string, Text> := map[];
    var descriptors: seq<LeafDesc> := [];
    var i := 0;
    while i < |leaves|
      invariant 0 <= i <= |leaves|
      invariant WriteLeaves(lib, Archive(members, descriptors), leaves[i..]) == Write(lib, tree)
    {
      assert leaves[i..][0] == leaves[i] && leaves[i..][1..] == leaves[i + 1..];
      var (keypath, value) := leaves[i];
      var member := Encode(keypath);
      if member.None? { return None; }
      if member.value in members { return None; }
      if !Admissible(value) { return None; }
      var canonical := Canonical(lib, value);
      var bytes := NpyBytes(canonical);
      if bytes.None? { return None; }
      members := members[member.value := bytes.value];
      descriptors := descriptors + [LeafDesc(keypath, member.value, canonical.shape, Name(canonical.dtype))];
      i := i + 1;
    }
    return Some(Archive(members, descriptors));
  }

  predicate Writable(lib: ArrayLib, a: Array) { Admissible(a) && NpyBytes(Canonical(lib, a)).Some? }

  function Canon(lib: ArrayLib): Array -> Array { (a: Array) => Canonical(lib, a) }

  ghost predicate Encodes(es: Entries<Array>) {
    forall e | e in es :: Encodable(e.0)
  }

  /** Descriptor entry and member bytes of one canonical leaf. */
  ghost predicate Row(members: map<string, Text>, desc: LeafDesc, e: (Path, Array)) {
    && Encode(e.0).Some?
    && desc == LeafDesc(e.0, Encode(e.0).value, e.1.shape, Name(e.1.dtype))
    && desc.member in members
    && NpyBytes(e.1) == Some(members[desc.member])
  }

  ghost predicate Listed(leaves: seq<LeafDesc>, member: string) {
    exists i :: 0 <= i < |leaves| && leaves[i].member == member
  }

  /** The archive of canonical leaves es: one member and one descriptor entry each, and nothing else. */
  ghost predicate Holds(arch: Archive, es: Entries<Array>) {
    && |arch.leaves| == |es|
    && (forall i | 0 <= i < |es| :: Row(arch.members, arch.leaves[i], es[i]))
    && (forall m | m in arch.members :: Listed(arch.leaves, m))
  }

  lemma FreshMember(arch: Archive, done: Entries<Array>, e: (Path, Array))
    requires Holds(arch, done) && Encodes(done + [e]) && Distinct(Paths(done + [e]))
    ensures Encode(e.0).Some? && Encode(e.0).value !in arch.members
  {
    EncodesApart(done, e);
    var m := Encode(e.0).value;
    forall i | 0 <= i < |done| ensures arch.leaves[i].member != m {
      assert Row(arch.members, arch.leaves[i], done[i]);
    }
    assert m in arch.members ==> Listed(arch.leaves, m);
  }

  lemma EncodesApart(done: Entries<Array>, e: (Path, Array))
    requires Encodes(done + [e]) && Distinct(Paths(done + [e]))
    ensures Encode(e.0).Some? && forall i | 0 <= i < |done| :: Encode(done[i].0) != Encode(e.0)
  {
    var all := done + [e];
    assert all[|done|] == e && e in all && Paths(all)[|done|] == e.0;
    forall i | 0 <= i < |done| ensures Encode(done[i].0) != Encode(e.0) {
      assert all[i] == done[i] && all[i] in all && Paths(all)[i] == done[i].0;
      assert Paths(all)[i] != Paths(all)[|done|];
      OtherMember(done[i].0, e.0);
    }
  }

  lemma OtherMember(p: Path, q: Path)
    requires p != q && Encodable(p) && Encodable(q)
    ensures Encode(p) != Encode(q)
  {
    if Encode(p) == Encode(q) { EncodeInjective(p, q); }
  }

  lemma HoldsOneMore(lib: ArrayLib, arch: Archive, done: Entries<Array>, e: (Path, Array))
    requires Holds(arch, done) && Encodes(done + [e]) && Distinct(Paths(done + [e]))
    ensures WriteLeaf(lib, arch, e).Some? <==> Writable(lib, e.1)
    ensures WriteLeaf(lib, arch, e).Some? ==>
              Holds(WriteLeaf(lib, arch, e).value, done + [(e.0, Canonical(lib, e.1))])
  {
    FreshMember(arch, done, e);
    WritesLeaf(lib, arch, e);
    if Writable(lib, e.1) {
      var c := Canonical(lib, e.1);
      AddRow(arch, done, (e.0, c), Encode(e.0).value, NpyBytes(c).value);
    }
  }

  lemma WritesLeaf(lib: ArrayLib, arch: Archive, e: (Path, Array))
    requires Encode(e.0).Some? && Encode(e.0).value !in arch.members
    ensures WriteLeaf(lib, arch, e).Some? <==> Writable(lib, e.1)
    ensures Writable(lib, e.1) ==>
              var c := Canonical(lib, e.1);
              WriteLeaf(lib, arch, e) ==
              Some(Archive(arch.members[Encode(e.0).value := NpyBytes(c).value],
                           arch.leaves + [LeafDesc(e.0, Encode(e.0).value, c.shape, Name(c.dtype))]))
  {
  }

  lemma AddRow(arch: Archive, done: Entries<Array>, e: (Path, Array), m: string, bytes: Text)
    requires Holds(arch, done) && m !in arch.members
    requires Encode(e.0) == Some(m) && NpyBytes(e.1) == Some(bytes)
    ensures Holds(Archive(arch.members[m := bytes], arch.leaves + [LeafDesc(e.0, m, e.1.shape, Name(e.1.dtype))]), done + [e])
  {
    var desc := LeafDesc(e.0, m, e.1.shape, Name(e.1.dtype));
    var members, leaves, more := arch.members[m := bytes], arch.leaves + [desc], done + [e];
    forall i | 0 <= i < |more| ensures Row(members, leaves[i], more[i]) {
      if i < |done| {
        RowKept(arch.members, arch.leaves[i], done[i], m, bytes);
      } else {
        assert Row(members, desc, e);
      }
    }
    forall x | x in members ensures Listed(leaves, x) {
      if x in arch.members {
        ListedKept(arch.leaves, desc, x);
      } else {
        assert leaves[|done|].member == x;
      }
    }
  }

  lemma RowKept(members: map<string, Text>, desc: LeafDesc, e: (Path, Array), m: string, bytes: Text)
    requires Row(members, desc, e) && m !in members
    ensures Row(members[m := bytes], desc, e)
  {
  }

  lemma ListedKept(leaves: seq<LeafDesc>, desc: LeafDesc, x: string)
    requires Listed(leaves, x)
    ensures Listed(leaves + [desc], x)
  {
    var i :| 0 <= i < |leaves| && leaves[i].member == x;
    assert (leaves + [desc])[i].member == x;
  }

  /** The writer never collides, and fails only on a leaf that cannot be stored. */
  lemma {:induction false} WriteLeavesHolds(lib: ArrayLib, arch: Archive, done: Entries<Array>, es: Entries<Array>)
    requires Holds(arch, MapEntries(Canon(lib), done))
    requires Encodes(done + es) && Distinct(Paths(done + es))
    ensures WriteLeaves(lib, arch, es).Some? <==> forall e | e in es :: Writable(lib, e.1)
    ensures WriteLeaves(lib, arch, es).Some? ==> Holds(WriteLeaves(lib, arch, es).value, MapEntries(Canon(lib), done + es))
    decreases |es|
  {
    if es == [] {
      assert done + es == done;
    } else {
      var e := es[0];
      var canon := MapEntries(Canon(lib), done);
      MoveHead(done, es);
      AllWritableCons(lib, es);
      CanonEncodes(lib, done, e, es[1..]);
      HoldsOneMore(lib, arch, canon, e);
      if WriteLeaf(lib, arch, e).Some? {
        MapEntriesAppend(Canon(lib), done, e);
        WriteLeavesHolds(lib, WriteLeaf(lib, arch, e).value, done + [e], es[1..]);
      }
    }
  }

  lemma AllWritableCons(lib: ArrayLib, es: Entries<Array>)
    requires es != []
    ensures (forall e | e in es :: Writable(lib, e.1)) <==>
            Writable(lib, es[0].1) && forall e | e in es[1..] :: Writable(lib, e.1)
  {
    assert es == [es[0]] + es[1..];
  }

  lemma CanonEncodes(lib: ArrayLib, done: Entries<Array>, e: (Path, Array), others: Entries<Array>)
    requires Encodes(done + [e] + others) && Distinct(Paths(done + [e] + others))
    ensures Encodes(MapEntries(Canon(lib), done) + [e]) && Distinct(Paths(MapEntries(Canon(lib), done) + [e]))
  {
    var canon, all := MapEntries(Canon(lib), done), done + [e] + others;
    forall i | 0 <= i < |canon + [e]| ensures Paths(canon + [e])[i] == Paths(all)[i] && (canon + [e])[i].0 == all[i].0 {
      assert all[i] == (done + [e])[i];
    }
    forall x | x in canon + [e] ensures Encodable(x.0) {
      var i :| 0 <= i < |canon + [e]| && (canon + [e])[i] == x;
      assert all[i] in all;
    }
    forall i, j | 0 <= i < j < |canon + [e]| ensures Paths(canon + [e])[i] != Paths(canon + [e])[j] {
      assert Paths(all)[i] != Paths(all)[j];
    }
  }

  lemma WriteAll(lib: ArrayLib, es: Entries<Array>)
    requires Encodes(es) && Distinct(Paths(es))
    ensures WriteLeaves(lib, EMPTY_ARCHIVE, es).Some? <==> forall e | e in es :: Writable(lib, e.1)
    ensures WriteLeaves(lib, EMPTY_ARCHIVE, es).Some? ==>
              Holds(WriteLeaves(lib, EMPTY_ARCHIVE, es).value, MapEntries(Canon(lib), es))
  {
    var none: Entries<Array> := [];
    assert none + es == es;
    assert MapEntries(Canon(lib), none) == [];
    WriteLeavesHolds(lib, EMPTY_ARCHIVE, none, es);
  }

  ghost predicate AllWritable(lib: ArrayLib, t: Tree<Array>) {
    forall p :: IsLeafPath(t, p) ==> Writable(lib, LeafAt(t, p).value)
  }

  lemma {:induction false} LeafPathKeys<V>(t: Tree<V>, p: Path)
    requires GoodKeys(t) && IsLeafPath(t, p)
    ensures forall k | k in p :: k != []
    decreases |p|
  {
    if p != [] { LeafPathKeys(t.kids[p[0]], p[1..]); assert p == [p[0]] + p[1..]; }
  }

  lemma ByPathSorts(flat: Entries<Array>)
    requires StrictlySorted(PathLt, Paths(flat))
    ensures Sort(ByPath, flat) == flat
  {
    PathOrder();
    forall i, j | 0 <= i < j < |flat| ensures ByPath(flat[i], flat[j]) {
      assert PathLt(Paths(flat)[i], Paths(flat)[j]);
    }
    assert StrictOrder(ByPath);
    StrictlySortedDistinct(ByPath, flat);
    SortIdempotent(ByPath, flat);
  }

  /** Sorting the flattened leaves again changes nothing. */
  lemma SortedFlat(o: PyTree)
    requires UniqueKeys(o) && o.PyDict? && Acceptable(Meaning(o))
    ensures Flatten(o, []) == Some(Flat(Meaning(o), []))
    ensures Sort(ByPath, Flat(Meaning(o), [])) == Flat(Meaning(o), [])
  {
    FlattenIsFlat(o, []);
    FlatSorted(Meaning(o), []);
    ByPathSorts(Flat(Meaning(o), []));
  }

  lemma FlatEncodes(t: Tree<Array>)
    requires t.Branch? && Acceptable(t)
    ensures Encodes(Flat(t, [])) && Distinct(Paths(Flat(t, [])))
  {
    FlatLists(t);
    forall e | e in Flat(t, []) ensures Encodable(e.0) {
      assert (e.0, e.1) in Flat(t, []);
      assert LeafAt(t, e.0) == Some(e.1);
      LeafPathKeys(t, e.0);
    }
  }

  lemma FlatWritable(lib: ArrayLib, t: Tree<Array>)
    ensures (forall e | e in Flat(t, []) :: Writable(lib, e.1)) <==> AllWritable(lib, t)
  {
    FlatLists(t);
    forall e | e in Flat(t, []) ensures LeafAt(t, e.0) == Some(e.1) { assert (e.0, e.1) in Flat(t, []); }
    forall p | IsLeafPath(t, p) ensures (p, LeafAt(t, p).value) in Flat(t, []) {}
    if forall e | e in Flat(t, []) :: Writable(lib, e.1) {
      forall p | IsLeafPath(t, p) ensures Writable(lib, LeafAt(t, p).value) {
        assert Writable(lib, (p, LeafAt(t, p).value).1);
      }
    }
  }

  /** Writing succeeds exactly on nonempty mappings with nonempty keys whose leaves can be
      stored, and then holds exactly the canonical leaves in depth-first order. */
  lemma WriteTheorem(lib: ArrayLib, o: PyTree)
    requires UniqueKeys(o)
    ensures Write(lib, o).Some? <==> o.PyDict? && Acceptable(Meaning(o)) && AllWritable(lib, Meaning(o))
    ensures Write(lib, o).Some? ==> Holds(Write(lib, o).value, Flat(MapTree(Canon(lib), Meaning(o)), []))
  {
    FlattenIsFlat(o, []);
    var t := Meaning(o);
    if o.PyDict? && Acceptable(t) {
      SortedFlat(o);
      FlatMapTree(Canon(lib), t);
      FlatEncodes(t);
      FlatWritable(lib, t);
      var flat := Flat(t, []);
      WriteAll(lib, flat);
    }
  }
}
