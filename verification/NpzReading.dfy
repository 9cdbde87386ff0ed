/** Reading an archive back against its descriptor, and the round trip. */
module NpzReading {
  import opened Basics
  import opened Trees
  import opened NestedDicts
  import opened KeypathCodec
  import opened NpzCodec

  // ---- read_deterministic_npz ----

  function MembersOf(leaves: seq<LeafDesc>): set<string> { set d | d in leaves :: d.member }

  function KeypathsOf(leaves: seq<LeafDesc>): set<Path> { set d | d in leaves :: d.keypath }

  predicate DistinctKeypaths(leaves: seq<LeafDesc>) {
    forall i, j :: 0 <= i < j < |leaves| ==> leaves[i].keypath != leaves[j].keypath
  }

  /** The first loop: keypaths are new and every member name is the encoding of its keypath. */
  predicate Expected(leaves: seq<LeafDesc>) {
    DistinctKeypaths(leaves) && forall d :: d in leaves ==> Encode(d.keypath) == Some(d.member)
  }

  /** One iteration of the second loop, up to storing the leaf; None where it raises. */
  function ReadLeaf(lib: ArrayLib, members: map<string, Text>, d: LeafDesc): Option<Array> {
    if d.member !in members then None
    else match lib.readArray(members[d.member])
      case None => None
      case Some(a) =>
        if !Admissible(a) || a.shape != d.shape || Name(a.dtype) != d.dtype then None
        else if NpyBytes(Canonical(lib, a)) != Some(members[d.member]) then None
        else Some(a)
  }

  predicate EntryRead(lib: ArrayLib, members: map<string, Text>, d: LeafDesc, e: (Path, Array)) {
    e.0 == d.keypath && ReadLeaf(lib, members, d) == Some(e.1)
  }

  function ReadEntries(lib: ArrayLib, members: map<string, Text>, leaves: seq<LeafDesc>): (r: Option<Entries<Array>>)
    ensures r.Some? ==> |r.value| == |leaves| && forall i | 0 <= i < |leaves| :: EntryRead(lib, members, leaves[i], r.value[i])
  {
    if leaves == [] then Some([])
    else
      var a := ReadLeaf(lib, members, leaves[0]);
      var others := ReadEntries(lib, members, leaves[1..]);
      if a.None? || others.None? then None
      else
        ConsRead(lib, members, leaves, others.value, a.value);
        Some([(leaves[0].keypath, a.value)] + others.value)
  }

  lemma ConsRead(lib: ArrayLib, members: map<string, Text>, leaves: seq<LeafDesc>, others: Entries<Array>, a: Array)
    requires leaves != [] && |others| == |leaves| - 1 && ReadLeaf(lib, members, leaves[0]) == Some(a)
    requires forall i | 0 <= i < |others| :: EntryRead(lib, members, leaves[1..][i], others[i])
    ensures forall i | 0 <= i < |leaves| :: EntryRead(lib, members, leaves[i], ([(leaves[0].keypath, a)] + others)[i])
  {
    forall i | 0 < i < |leaves| ensures EntryRead(lib, members, leaves[i], ([(leaves[0].keypath, a)] + others)[i]) {
      assert EntryRead(lib, members, leaves[1..][i - 1], others[i - 1]);
    }
  }

  function Read(lib: ArrayLib, members: map<string, Text>, descriptor: Descriptor): Option<Tree<Array>> {
    var leaves := descriptor.leaves;
    if descriptor.codec != CODEC || !Expected(leaves) || members.Keys != MembersOf(leaves) then None
    else match ReadEntries(lib, members, leaves)
      case None => None
      case Some(es) =>
        EntriesKeyed(lib, members, leaves);
        Build(es)
  }

  lemma EntriesKeyed(lib: ArrayLib, members: map<string, Text>, leaves: seq<LeafDesc>)
    requires Expected(leaves) && ReadEntries(lib, members, leaves).Some?
    ensures Keyed(ReadEntries(lib, members, leaves).value)
  {
    var es := ReadEntries(lib, members, leaves).value;
    forall e | e in es ensures e.0 != [] {
      var i :| 0 <= i < |es| && es[i] == e;
      assert leaves[i] in leaves && Encode(leaves[i].keypath).Some?;
    }
  }

  /** The first loop as written, collecting the expected keypaths in a dict. */
  method CheckExpected(leaves: seq<LeafDesc>) returns (ok: bool)
    ensures ok <==> Expected(leaves)
  {
    var expected: map<Path, string> := map[];
    var i := 0;
    while i < |leaves|
      invariant 0 <= i <= |leaves|
      invariant Expected(leaves[..i]) && expected.Keys == KeypathsOf(leaves[..i])
    {
      var d := leaves[i];
      ExpectedOneMore(leaves, i);
      if d.keypath in expected || Encode(d.keypath) != Some(d.member) {
        return false;
      }
      expected := expected[d.keypath := d.member];
      i := i + 1;
    }
    assert leaves[..i] == leaves;
    ok := true;
  }

  lemma ExpectedOneMore(leaves: seq<LeafDesc>, i: nat)
    requires i < |leaves| && Expected(leaves[..i])
    ensures Expected(leaves[..i + 1]) <==>
            leaves[i].keypath !in KeypathsOf(leaves[..i]) && Encode(leaves[i].keypath) == Some(leaves[i].member)
    ensures Expected(leaves) ==> Expected(leaves[..i + 1])
    ensures KeypathsOf(leaves[..i + 1]) == KeypathsOf(leaves[..i]) + {leaves[i].keypath}
  {
    assert leaves[..i + 1] == leaves[..i] + [leaves[i]];
    ExpectedSnoc(leaves[..i], leaves[i]);
    if Expected(leaves) { assert forall d | d in leaves[..i + 1] :: d in leaves; }
  }

  lemma ExpectedSnoc(done: seq<LeafDesc>, last: LeafDesc)
    requires Expected(done)
    ensures Expected(done + [last]) <==> last.keypath !in KeypathsOf(done) && Encode(last.keypath) == Some(last.member)
    ensures KeypathsOf(done + [last]) == KeypathsOf(done) + {last.keypath}
  {
    var upto := done + [last];
    assert upto[|done|] in upto;
    DistinctSnoc(done, last);
  }

  lemma DistinctSnoc(done: seq<LeafDesc>, last: LeafDesc)
    requires DistinctKeypaths(done)
    ensures DistinctKeypaths(done + [last]) <==> last.keypath !in KeypathsOf(done)
  {
    var upto := done + [last];
    if last.keypath in KeypathsOf(done) {
      var d :| d in done && d.keypath == last.keypath;
      var j :| 0 <= j < |done| && done[j] == d;
      assert upto[j].keypath == upto[|done|].keypath;
    } else {
      forall j | 0 <= j < |done| ensures upto[j].keypath != upto[|done|].keypath { assert done[j] in done; }
    }
  }

  /** The loops as written, filling the nested result dict in place. */
  method ReadDeterministicNpz(lib: ArrayLib, members: map<string, Text>, descriptor: Descriptor)
    returns (ok: bool, root: Dict<Array>, ghost nodes: map<Path, Dict<Array>>)
    ensures ok <==> Read(lib, members, descriptor).Some?
    ensures ok ==> Mirrors(root, nodes, Read(lib, members, descriptor).value)
  {
    root := new Dict();
    nodes := map[[] := root];
    if descriptor.codec != CODEC { return false, root, nodes; }
    ok := CheckExpected(descriptor.leaves);
    if !ok || members.Keys != MembersOf(descriptor.leaves) { return false, root, nodes; }
    ghost var t: Tree<Array> := Branch(map[]);
    forall q ensures !IsLeafPath(t, q) {}
    ReadIsBuildRead(lib, members, descriptor);
    ok, nodes, t := FillFrom(lib, members, descriptor.leaves, root, nodes, t);
  }

  /** The second loop as written: read, check and store each leaf. */
  method FillFrom(lib: ArrayLib, members: map<string, Text>, leaves: seq<LeafDesc>,
                  root: Dict<Array>, ghost start: map<Path, Dict<Array>>, ghost t0: Tree<Array>)
    returns (ok: bool, ghost nodes: map<Path, Dict<Array>>, ghost t: Tree<Array>)
    requires Mirrors(root, start, t0) && Fillable(t0) && Expected(leaves)
    modifies start.Values
    ensures BuildRead(t0, ReadEntries(lib, members, leaves)) == if ok then Some(t) else None
    ensures ok ==> Mirrors(root, nodes, t)
  {
    nodes, t := start, t0;
    ghost var whole := BuildRead(t0, ReadEntries(lib, members, leaves));
    assert leaves[0..] == leaves;
    var i := 0;
    while i < |leaves|
      invariant 0 <= i <= |leaves|
      invariant Mirrors(root, nodes, t) && Fillable(t) && fresh(nodes.Values - start.Values)
      invariant BuildRead(t, ReadEntries(lib, members, leaves[i..])) == whole
    {
      NextLeaf(leaves, i);
      ok, nodes, t := FillOne(lib, members, leaves[i], root, nodes, t, leaves[i..]);
      if !ok { return; }
      i := i + 1;
    }
    ok := true;
    NoneLeft(lib, members, t, leaves[i..]);
  }

  lemma NoneLeft(lib: ArrayLib, members: map<string, Text>, t: Tree<Array>, leaves: seq<LeafDesc>)
    requires leaves == []
    ensures BuildRead(t, ReadEntries(lib, members, leaves)) == Some(t)
  {
  }

  /** One iteration: the leaf is read and checked, then stored on the walk its keypath takes. */
  method FillOne(lib: ArrayLib, members: map<string, Text>, d: LeafDesc, root: Dict<Array>,
                 ghost start: map<Path, Dict<Array>>, ghost t: Tree<Array>, ghost left: seq<LeafDesc>)
    returns (ok: bool, ghost nodes: map<Path, Dict<Array>>, ghost grown: Tree<Array>)
    requires Mirrors(root, start, t) && Fillable(t) && left != [] && left[0] == d && d.keypath != []
    modifies start.Values
    ensures BuildRead(t, ReadEntries(lib, members, left)) ==
            if ok then BuildRead(grown, ReadEntries(lib, members, left[1..])) else None
    ensures ok ==> Mirrors(root, nodes, grown) && Fillable(grown) && fresh(nodes.Values - start.Values)
  {
    nodes, grown := start, t;
    BuildReadStep(lib, members, t, left);
    var a := ReadLeaf(lib, members, d);
    if a.None? { return false, nodes, grown; }
    StaysFillable(t, d.keypath, a.value);
    ok, nodes := SetMirroredLeaf(root, nodes, t, d.keypath, a.value);
    if ok { grown := SetLeaf(t, d.keypath, a.value).value; }
  }

  /** The tree after reading and storing one leaf; None where either raises. */
  function Grown(lib: ArrayLib, members: map<string, Text>, d: LeafDesc, t: Tree<Array>): Option<Tree<Array>>
    requires d.keypath != []
  {
    match ReadLeaf(lib, members, d) case None => None case Some(a) => SetLeaf(t, d.keypath, a)
  }

  lemma NextLeaf(leaves: seq<LeafDesc>, i: nat)
    requires i < |leaves| && Expected(leaves)
    ensures leaves[i..][0] == leaves[i] && leaves[i..][1..] == leaves[i + 1..] && leaves[i].keypath != []
  {
    assert leaves[i] in leaves;
  }

  lemma StaysFillable(t: Tree<Array>, p: Path, a: Array)
    requires Fillable(t) && p != []
    ensures SetLeaf(t, p, a).Some? ==> Fillable(SetLeaf(t, p, a).value)
  {
    SetLeafEffect(t, p, a);
  }

  function BuildRead(t: Tree<Array>, es: Option<Entries<Array>>): Option<Tree<Array>> {
    if es.None? || !Keyed(es.value) then None else BuildOn(t, es.value)
  }

  predicate Keyed(es: Entries<Array>) { forall e | e in es :: e.0 != [] }

  lemma ReadIsBuildRead(lib: ArrayLib, members: map<string, Text>, descriptor: Descriptor)
    requires descriptor.codec == CODEC && Expected(descriptor.leaves) && members.Keys == MembersOf(descriptor.leaves)
    ensures Read(lib, members, descriptor) == BuildRead(Branch(map[]), ReadEntries(lib, members, descriptor.leaves))
  {
    if ReadEntries(lib, members, descriptor.leaves).Some? { EntriesKeyed(lib, members, descriptor.leaves); }
  }

  lemma BuildReadStep(lib: ArrayLib, members: map<string, Text>, t: Tree<Array>, leaves: seq<LeafDesc>)
    requires leaves != [] && leaves[0].keypath != []
    ensures BuildRead(t, ReadEntries(lib, members, leaves)) ==
            match Grown(lib, members, leaves[0], t)
            case None => None
            case Some(t') => BuildRead(t', ReadEntries(lib, members, leaves[1..]))
  {
  }

  // ---- round trip ----

  /** An array the format can carry: admissible, and its dtype text needs no escaping. */
  predicate Plainly(a: Array) { Admissible(a) && Npy.Plain(Str(a.dtype)) }

  /** A member determines its array but for the dtype's name, which the header does not spell. */
  lemma NpyBytesInjective(a: Array, b: Array)
    requires Plainly(a) && Plainly(b) && NpyBytes(a).Some? && NpyBytes(a) == NpyBytes(b)
    ensures a == b.(dtype := b.dtype.(name := a.dtype.name))
  {
    Npy.MemberInjective(Str(a.dtype), a.shape, a.data, Str(b.dtype), b.shape, b.data);
    assert Str(a.dtype)[1..] == a.dtype.code && Str(b.dtype)[1..] == b.dtype.code;
    assert Str(a.dtype)[0] == Str(b.dtype)[0];
  }

  /** np.lib.format reads back the members of this tree's canonical leaves. */
  ghost predicate ReadsLeaves(lib: ArrayLib, t: Tree<Array>) {
    forall p | IsLeafPath(t, p) :: ReadsBackAt(lib, LeafAt(t, p).value)
  }

  ghost predicate ReadsBackAt(lib: ArrayLib, a: Array) {
    NpyBytes(Canonical(lib, a)).Some? ==> lib.readArray(NpyBytes(Canonical(lib, a)).value) == Some(Canonical(lib, a))
  }

  /** Different canonical leaves of the tree have different members. */
  ghost predicate MembersTell(lib: ArrayLib, t: Tree<Array>) {
    forall p, q | IsLeafPath(t, p) && IsLeafPath(t, q) :: ToldApart(lib, LeafAt(t, p).value, LeafAt(t, q).value)
  }

  ghost predicate ToldApart(lib: ArrayLib, a: Array, b: Array) {
    var c, d := Canonical(lib, a), Canonical(lib, b);
    NpyBytes(c).Some? && NpyBytes(c) == NpyBytes(d) ==> c == d
  }

  /** p holds the leaf whose member these bytes are. */
  ghost predicate StoredAt(lib: ArrayLib, t: Tree<Array>, bytes: Text, p: Path) {
    IsLeafPath(t, p) && NpyBytes(Canonical(lib, LeafAt(t, p).value)) == Some(bytes)
  }

  ghost function StoredLeaf(lib: ArrayLib, t: Tree<Array>, bytes: Text): Option<Array> {
    if exists p :: StoredAt(lib, t, bytes, p) then
      var p :| StoredAt(lib, t, bytes, p);
      Some(Canonical(lib, LeafAt(t, p).value))
    else None
  }

  /** A library with the same byte swap whose reader knows the tree. */
  ghost function Reader(lib: ArrayLib, t: Tree<Array>): ArrayLib {
    lib.(readArray := (bytes: Text) => StoredLeaf(lib, t, bytes))
  }

  /** A reader for the tree's members exists exactly when they tell its leaves apart. */
  lemma ReadableIffTold(lib: ArrayLib, t: Tree<Array>)
    ensures (exists other: ArrayLib :: other.swap == lib.swap && ReadsLeaves(other, t)) <==> MembersTell(lib, t)
  {
    if other: ArrayLib :| other.swap == lib.swap && ReadsLeaves(other, t) {
      forall p, q | IsLeafPath(t, p) && IsLeafPath(t, q) ensures ToldApart(lib, LeafAt(t, p).value, LeafAt(t, q).value) {
        assert ReadsBackAt(other, LeafAt(t, p).value) && ReadsBackAt(other, LeafAt(t, q).value);
      }
    }
    if MembersTell(lib, t) {
      forall p | IsLeafPath(t, p) ensures ReadsBackAt(Reader(lib, t), LeafAt(t, p).value) { ReaderReads(lib, t, p); }
      assert Reader(lib, t).swap == lib.swap && ReadsLeaves(Reader(lib, t), t);
    }
  }

  lemma ReaderReads(lib: ArrayLib, t: Tree<Array>, p: Path)
    requires MembersTell(lib, t) && IsLeafPath(t, p)
    ensures ReadsBackAt(Reader(lib, t), LeafAt(t, p).value)
  {
    var c := Canonical(lib, LeafAt(t, p).value);
    assert Canonical(Reader(lib, t), LeafAt(t, p).value) == c;
    if NpyBytes(c).Some? {
      var bytes := NpyBytes(c).value;
      assert StoredAt(lib, t, bytes, p);
      var q :| StoredAt(lib, t, bytes, q) && StoredLeaf(lib, t, bytes) == Some(Canonical(lib, LeafAt(t, q).value));
      assert ToldApart(lib, LeafAt(t, p).value, LeafAt(t, q).value);
    }
  }

  /** A stored leaf that the library reads back. */
  ghost predicate ReadRow(lib: ArrayLib, e: (Path, Array)) {
    && Admissible(e.1) && e.1.dtype.order != BigEndian
    && (NpyBytes(e.1).Some? ==> lib.readArray(NpyBytes(e.1).value) == Some(e.1))
  }

  lemma {:induction false} ReadRows(lib: ArrayLib, members: map<string, Text>, leaves: seq<LeafDesc>, es: Entries<Array>)
    requires |leaves| == |es|
    requires forall i | 0 <= i < |es| :: ReadLeaf(lib, members, leaves[i]) == Some(es[i].1) && leaves[i].keypath == es[i].0
    ensures ReadEntries(lib, members, leaves) == Some(es)
  {
    var r := ReadEntries(lib, members, leaves);
    if es != [] {
      assert es == [es[0]] + es[1..] && es[0] == (es[0].0, es[0].1);
      ReadRows(lib, members, leaves[1..], es[1..]);
    }
  }

  lemma ReadOne(lib: ArrayLib, members: map<string, Text>, d: LeafDesc, e: (Path, Array))
    requires Row(members, d, e) && ReadRow(lib, e)
    ensures ReadLeaf(lib, members, d) == Some(e.1) && d.keypath == e.0
  {
    assert lib.readArray(NpyBytes(e.1).value) == Some(e.1);
  }

  lemma HeldRow(arch: Archive, es: Entries<Array>, d: LeafDesc) returns (i: nat)
    requires Holds(arch, es) && d in arch.leaves
    ensures i < |es| && arch.leaves[i] == d && Encode(d.keypath) == Some(d.member)
    ensures d.keypath == es[i].0 && d.member in arch.members
  {
    i :| 0 <= i < |arch.leaves| && arch.leaves[i] == d;
    assert Row(arch.members, arch.leaves[i], es[i]);
  }

  lemma HeldDistinct(arch: Archive, es: Entries<Array>)
    requires Holds(arch, es) && Distinct(Paths(es))
    ensures DistinctKeypaths(arch.leaves)
  {
    forall i, j | 0 <= i < j < |arch.leaves| ensures arch.leaves[i].keypath != arch.leaves[j].keypath {
      assert Row(arch.members, arch.leaves[i], es[i]) && Row(arch.members, arch.leaves[j], es[j]);
      assert Paths(es)[i] != Paths(es)[j];
    }
  }

  lemma HeldIsExpected(arch: Archive, es: Entries<Array>)
    requires Holds(arch, es) && Distinct(Paths(es))
    ensures Expected(arch.leaves) && arch.members.Keys == MembersOf(arch.leaves)
  {
    HeldDistinct(arch, es);
    forall d | d in arch.leaves ensures Encode(d.keypath) == Some(d.member) && d.member in arch.members {
      var i := HeldRow(arch, es, d);
    }
    forall m | m in arch.members ensures m in MembersOf(arch.leaves) {
      assert Listed(arch.leaves, m);
      var i :| 0 <= i < |arch.leaves| && arch.leaves[i].member == m;
      assert arch.leaves[i] in arch.leaves;
    }
  }

  ghost predicate AllPlainly(t: Tree<Array>) {
    forall p :: IsLeafPath(t, p) ==> Plainly(LeafAt(t, p).value)
  }

  /** Reading what was written gives back the tree with its leaves in canonical byte order. */
  lemma RoundTrip(lib: ArrayLib, o: PyTree)
    requires UniqueKeys(o) && ReadsLeaves(lib, Meaning(o)) && Write(lib, o).Some?
    ensures var arch := Write(lib, o).value;
            Read(lib, arch.members, Descriptor(CODEC, arch.leaves)) == Some(MapTree(Canon(lib), Meaning(o)))
  {
    var t := MapTree(Canon(lib), Meaning(o));
    var arch := Write(lib, o).value;
    var es := Flat(t, []);
    WriteTheorem(lib, o);
    FlatLists(t);
    MapTreeNoEmpty(Canon(lib), Meaning(o));
    HeldIsExpected(arch, es);
    forall e | e in es ensures ReadRow(lib, e) { LeafIsRead(lib, o, e); }
    RowsAreRead(lib, arch, es);
    BuildInverts(t, es);
  }

  lemma RowsAreRead(lib: ArrayLib, arch: Archive, es: Entries<Array>)
    requires Holds(arch, es) && forall e | e in es :: ReadRow(lib, e)
    ensures ReadEntries(lib, arch.members, arch.leaves) == Some(es)
  {
    forall i | 0 <= i < |es|
      ensures ReadLeaf(lib, arch.members, arch.leaves[i]) == Some(es[i].1) && arch.leaves[i].keypath == es[i].0
    {
      assert Row(arch.members, arch.leaves[i], es[i]) && es[i] in es;
      ReadOne(lib, arch.members, arch.leaves[i], es[i]);
    }
    ReadRows(lib, arch.members, arch.leaves, es);
  }

  lemma LeafIsRead(lib: ArrayLib, o: PyTree, e: (Path, Array))
    requires UniqueKeys(o) && ReadsLeaves(lib, Meaning(o)) && Write(lib, o).Some?
    requires e in Flat(MapTree(Canon(lib), Meaning(o)), [])
    ensures ReadRow(lib, e)
  {
    WriteTheorem(lib, o);
    FlatLists(MapTree(Canon(lib), Meaning(o)));
    assert (e.0, e.1) == e;
    MapTreeLeaf(Canon(lib), Meaning(o), e.0);
    assert IsLeafPath(Meaning(o), e.0);
    var a := LeafAt(Meaning(o), e.0).value;
    assert Writable(lib, a) && ReadsBackAt(lib, a) && e.1 == Canonical(lib, a);
  }

  ghost predicate NoBigEndian(t: Tree<Array>) {
    forall p :: IsLeafPath(t, p) ==> LeafAt(t, p).value.dtype.order != BigEndian
  }

  lemma {:induction false} CanonicalTree(lib: ArrayLib, t: Tree<Array>)
    requires NoBigEndian(t) && NoEmpty(t)
    ensures MapTree(Canon(lib), t) == t
  {
    MapTreeNoEmpty(Canon(lib), t);
    forall p ensures LeafAt(MapTree(Canon(lib), t), p) == LeafAt(t, p) {
      MapTreeLeaf(Canon(lib), t, p);
    }
    SameLeavesSameTree(MapTree(Canon(lib), t), t);
  }

  /** Reading gives back exactly the original mapping if and only if no leaf is big-endian. */
  lemma ExactRoundTrip(lib: ArrayLib, o: PyTree)
    requires UniqueKeys(o) && ReadsLeaves(lib, Meaning(o)) && Write(lib, o).Some?
    ensures var arch := Write(lib, o).value;
            Read(lib, arch.members, Descriptor(CODEC, arch.leaves)) == Some(Meaning(o)) <==> NoBigEndian(Meaning(o))
  {
    var t := Meaning(o);
    RoundTrip(lib, o);
    WriteTheorem(lib, o);
    if NoBigEndian(t) { CanonicalTree(lib, t); }
    if MapTree(Canon(lib), t) == t {
      forall p | IsLeafPath(t, p) ensures LeafAt(t, p).value.dtype.order != BigEndian { MapTreeLeaf(Canon(lib), t, p); }
    }
  }

  /** Two trees give the same archive exactly when they are equal as nested mappings with
      canonical leaves: insertion order never shows, and nothing else is lost. */
  lemma ArchiveIdentifiesTree(lib: ArrayLib, a: PyTree, b: PyTree)
    requires UniqueKeys(a) && UniqueKeys(b) && AllPlainly(Meaning(a)) && AllPlainly(Meaning(b))
    requires Write(lib, a).Some? && Write(lib, b).Some?
    ensures Write(lib, a) == Write(lib, b) <==> MapTree(Canon(lib), Meaning(a)) == MapTree(Canon(lib), Meaning(b))
  {
    var ta, tb := MapTree(Canon(lib), Meaning(a)), MapTree(Canon(lib), Meaning(b));
    WriteTheorem(lib, a);
    WriteTheorem(lib, b);
    if ta == tb { HeldOnce(Write(lib, a).value, Write(lib, b).value, Flat(ta, [])); }
    if Write(lib, a) == Write(lib, b) {
      FlatPlainly(lib, a);
      FlatPlainly(lib, b);
      HeldLeaves(Write(lib, a).value, Flat(ta, []), Flat(tb, []));
      MapTreeNoEmpty(Canon(lib), Meaning(a));
      MapTreeNoEmpty(Canon(lib), Meaning(b));
      FlattenBuild(ta);
      FlattenBuild(tb);
    }
  }

  ghost predicate PlainRow(e: (Path, Array)) { Plainly(e.1) && e.1.dtype.order != BigEndian }

  lemma FlatPlainly(lib: ArrayLib, o: PyTree)
    requires AllPlainly(Meaning(o)) && NoEmpty(Meaning(o))
    ensures forall e | e in Flat(MapTree(Canon(lib), Meaning(o)), []) :: PlainRow(e)
  {
    var t := MapTree(Canon(lib), Meaning(o));
    FlatLists(t);
    forall e | e in Flat(t, []) ensures PlainRow(e) {
      assert (e.0, e.1) == e;
      MapTreeLeaf(Canon(lib), Meaning(o), e.0);
      assert IsLeafPath(Meaning(o), e.0);
      CanonicalIsPlain(lib, LeafAt(Meaning(o), e.0).value);
    }
  }

  /** An archive holds only one list of plain canonical leaves. */
  lemma HeldLeaves(arch: Archive, es: Entries<Array>, fs: Entries<Array>)
    requires Holds(arch, es) && Holds(arch, fs)
    requires (forall e | e in es :: PlainRow(e)) && forall f | f in fs :: PlainRow(f)
    ensures es == fs
  {
    forall i | 0 <= i < |es| ensures es[i] == fs[i] {
      assert Row(arch.members, arch.leaves[i], es[i]) && Row(arch.members, arch.leaves[i], fs[i]);
      assert PlainRow(es[i]) && PlainRow(fs[i]);
      NpyBytesInjective(es[i].1, fs[i].1);
      assert es[i] == (es[i].0, es[i].1) && fs[i] == (fs[i].0, fs[i].1);
    }
  }

  lemma CanonicalIsPlain(lib: ArrayLib, a: Array)
    requires Plainly(a)
    ensures Plainly(Canonical(lib, a)) && Canonical(lib, a).dtype.order != BigEndian
  {
    var c := Canonical(lib, a);
    assert Str(c.dtype)[1..] == a.dtype.code == Str(a.dtype)[1..];
    assert forall x | x in Str(c.dtype) :: x == Str(c.dtype)[0] || x in Str(c.dtype)[1..];
    assert forall x | x in Str(a.dtype)[1..] :: x in Str(a.dtype);
  }

  lemma HeldOnce(a: Archive, b: Archive, es: Entries<Array>)
    requires Holds(a, es) && Holds(b, es)
    ensures a == b
  {
    SameLeaves(a, b, es);
    SameMembers(a, b, es);
    SameMembers(b, a, es);
    assert a.members == b.members;
  }

  lemma SameLeaves(a: Archive, b: Archive, es: Entries<Array>)
    requires Holds(a, es) && Holds(b, es)
    ensures a.leaves == b.leaves
  {
    forall i | 0 <= i < |es| ensures a.leaves[i] == b.leaves[i] {
      assert Row(a.members, a.leaves[i], es[i]) && Row(b.members, b.leaves[i], es[i]);
    }
  }

  lemma SameMembers(a: Archive, b: Archive, es: Entries<Array>)
    requires Holds(a, es) && Holds(b, es) && a.leaves == b.leaves
    ensures forall m | m in a.members :: m in b.members && a.members[m] == b.members[m]
  {
    forall m | m in a.members ensures m in b.members && a.members[m] == b.members[m] {
      assert Listed(a.leaves, m);
      var i :| 0 <= i < |a.leaves| && a.leaves[i].member == m;
      assert Row(a.members, a.leaves[i], es[i]) && Row(b.members, b.leaves[i], es[i]);
    }
  }
}
