/** Exactly which archives the reader accepts, and as which tree. */
module NpzAcceptance {
  import opened Basics
  import opened Trees
  import opened KeypathCodec
  import opened NpzCodec
  import opened NpzReading

  /** The descriptor entry d tells the truth about a leaf of t: the member it names is the one of
      its keypath, the library reads the leaf from it, shape and dtype are the leaf's, and the
      bytes are the canonical encoding of the leaf. */
  ghost predicate Authentic(lib: ArrayLib, members: map<string, Text>, t: Tree<Array>, d: LeafDesc) {
    && IsLeafPath(t, d.keypath) && Encode(d.keypath) == Some(d.member) && d.member in members
    && var leaf, bytes := LeafAt(t, d.keypath).value, members[d.member];
    && lib.readArray(bytes) == Some(leaf)
    && leaf.dtype.kind == Plain
    && leaf.shape == d.shape
    && d.dtype == (if leaf.dtype.order == BigEndian then Swapped(leaf.dtype.code) else Native(leaf.dtype.name))
    && NpyBytes(Canonical(lib, leaf)) == Some(bytes)
  }

  /** The archive is t's: it has this codec, one authentic entry for each leaf of t, and the
      members these entries name. */
  ghost predicate Authenticates(lib: ArrayLib, members: map<string, Text>, d: Descriptor, t: Tree<Array>) {
    && d.codec == "radjax_deterministic_npz.v1"
    && t.Branch? && (t.kids == map[] || NoEmpty(t))
    && (forall i, j | 0 <= i < j < |d.leaves| :: d.leaves[i].keypath != d.leaves[j].keypath)
    && (forall p :: IsLeafPath(t, p) <==> exists i :: 0 <= i < |d.leaves| && d.leaves[i].keypath == p)
    && (forall m :: m in members <==> exists i :: 0 <= i < |d.leaves| && d.leaves[i].member == m)
    && (forall i | 0 <= i < |d.leaves| :: Authentic(lib, members, t, d.leaves[i]))
  }

  lemma MembersAre(leaves: seq<LeafDesc>, m: string)
    ensures m in MembersOf(leaves) <==> exists i :: 0 <= i < |leaves| && leaves[i].member == m
  {
    if m in MembersOf(leaves) {
      var d :| d in leaves && d.member == m;
      var i :| 0 <= i < |leaves| && leaves[i] == d;
    }
  }

  lemma ReadIsAuthentic(lib: ArrayLib, members: map<string, Text>, t: Tree<Array>, d: LeafDesc, a: Array)
    requires ReadLeaf(lib, members, d) == Some(a) && Encode(d.keypath) == Some(d.member) && LeafAt(t, d.keypath) == Some(a)
    ensures Authentic(lib, members, t, d)
  {
  }

  lemma AuthenticIsRead(lib: ArrayLib, members: map<string, Text>, t: Tree<Array>, d: LeafDesc)
    requires Authentic(lib, members, t, d)
    ensures ReadLeaf(lib, members, d) == LeafAt(t, d.keypath)
  {
  }

  /** What is read is authenticated. */
  lemma AcceptedIsAuthentic(lib: ArrayLib, members: map<string, Text>, d: Descriptor, t: Tree<Array>)
    requires Read(lib, members, d) == Some(t)
    ensures Authenticates(lib, members, d, t)
  {
    var es := ReadIsBuilt(lib, members, d, t);
    TreeIsListed(d.leaves, es, t);
    MembersListed(members, d.leaves);
    forall i | 0 <= i < |d.leaves| ensures Authentic(lib, members, t, d.leaves[i]) { EntryIsAuthentic(lib, members, d.leaves, es, t, i); }
  }

  /** What is read is built from the entries read. */
  lemma ReadIsBuilt(lib: ArrayLib, members: map<string, Text>, d: Descriptor, t: Tree<Array>) returns (es: Entries<Array>)
    requires Read(lib, members, d) == Some(t)
    ensures d.codec == CODEC && Expected(d.leaves) && members.Keys == MembersOf(d.leaves)
    ensures ReadEntries(lib, members, d.leaves) == Some(es) && Keyed(es) && Build(es) == Some(t)
    ensures |es| == |d.leaves| && forall i | 0 <= i < |es| :: es[i].0 == d.leaves[i].keypath
  {
    es := ReadEntries(lib, members, d.leaves).value;
    EntriesKeyed(lib, members, d.leaves);
    forall i | 0 <= i < |es| ensures es[i].0 == d.leaves[i].keypath { assert EntryRead(lib, members, d.leaves[i], es[i]); }
  }

  lemma MembersListed(members: map<string, Text>, leaves: seq<LeafDesc>)
    requires members.Keys == MembersOf(leaves)
    ensures forall m :: m in members <==> exists i :: 0 <= i < |leaves| && leaves[i].member == m
  {
    forall m ensures m in members <==> exists i :: 0 <= i < |leaves| && leaves[i].member == m {
      assert m in members.Keys <==> m in members;
      MembersAre(leaves, m);
    }
  }

  /** The tree built from the entries read has their leaves. */
  lemma TreeIsListed(leaves: seq<LeafDesc>, es: Entries<Array>, t: Tree<Array>)
    requires DistinctKeypaths(leaves) && |es| == |leaves| && (forall i | 0 <= i < |es| :: es[i].0 == leaves[i].keypath)
    requires Keyed(es) && Build(es) == Some(t)
    ensures Distinct(Paths(es)) && t.Branch? && (t.kids == map[] || NoEmpty(t))
    ensures forall q :: LeafAt(t, q) == Find(es, q)
    ensures forall p :: IsLeafPath(t, p) <==> exists i :: 0 <= i < |leaves| && leaves[i].keypath == p
  {
    BuildEffect(es);
    PathsRead(leaves, es);
    forall p ensures IsLeafPath(t, p) <==> exists i :: 0 <= i < |leaves| && leaves[i].keypath == p { FindIn(es, p); }
  }

  lemma EntryIsAuthentic(lib: ArrayLib, members: map<string, Text>, leaves: seq<LeafDesc>, es: Entries<Array>, t: Tree<Array>, i: nat)
    requires ReadEntries(lib, members, leaves) == Some(es) && Expected(leaves) && i < |leaves| && Distinct(Paths(es))
    requires forall q :: LeafAt(t, q) == Find(es, q)
    ensures Authentic(lib, members, t, leaves[i])
  {
    assert EntryRead(lib, members, leaves[i], es[i]) && leaves[i] in leaves;
    FindAt(es, i);
    ReadIsAuthentic(lib, members, t, leaves[i], es[i].1);
  }

  /** The entries carry the descriptor's keypaths. */
  lemma PathsRead(leaves: seq<LeafDesc>, es: Entries<Array>)
    requires DistinctKeypaths(leaves) && |es| == |leaves| && forall i | 0 <= i < |es| :: es[i].0 == leaves[i].keypath
    ensures Distinct(Paths(es)) && forall i | 0 <= i < |es| :: Paths(es)[i] == leaves[i].keypath
    ensures forall p :: p in Paths(es) <==> exists i :: 0 <= i < |leaves| && leaves[i].keypath == p
  {
    var ps := Paths(es);
    forall i | 0 <= i < |es| ensures ps[i] == leaves[i].keypath { PathsOfMember(es, i); }
    forall p | p in ps ensures exists i :: 0 <= i < |leaves| && leaves[i].keypath == p {
      var i :| 0 <= i < |ps| && ps[i] == p;
      assert leaves[i].keypath == p;
    }
    forall p | exists i :: 0 <= i < |leaves| && leaves[i].keypath == p ensures p in ps {
      var i :| 0 <= i < |leaves| && leaves[i].keypath == p;
      assert ps[i] == p;
    }
  }

  /** The leaves of t as entries, in the order of the descriptor. */
  ghost function EntriesOf(leaves: seq<LeafDesc>, t: Tree<Array>): (es: Entries<Array>)
    requires forall i | 0 <= i < |leaves| :: IsLeafPath(t, leaves[i].keypath)
    ensures |es| == |leaves|
    ensures forall i | 0 <= i < |es| :: es[i].0 == leaves[i].keypath && LeafAt(t, leaves[i].keypath) == Some(es[i].1)
  {
    seq(|leaves|, i requires 0 <= i < |leaves| && IsLeafPath(t, leaves[i].keypath) =>
                    (leaves[i].keypath, LeafAt(t, leaves[i].keypath).value))
  }

  lemma EntriesList(leaves: seq<LeafDesc>, t: Tree<Array>)
    requires DistinctKeypaths(leaves) && forall i | 0 <= i < |leaves| :: IsLeafPath(t, leaves[i].keypath)
    requires forall p :: IsLeafPath(t, p) <==> exists i :: 0 <= i < |leaves| && leaves[i].keypath == p
    ensures Lists(EntriesOf(leaves, t), t)
  {
    var es := EntriesOf(leaves, t);
    PathsRead(leaves, es);
    forall p, v ensures (p, v) in es <==> LeafAt(t, p) == Some(v) {
      if LeafAt(t, p) == Some(v) {
        assert IsLeafPath(t, p);
        var i :| 0 <= i < |leaves| && leaves[i].keypath == p;
        assert es[i] == (p, v);
      }
    }
  }

  lemma NothingListed(leaves: seq<LeafDesc>, t: Tree<Array>)
    requires t.Branch? && t.kids == map[]
    requires forall p :: IsLeafPath(t, p) <==> exists i :: 0 <= i < |leaves| && leaves[i].keypath == p
    ensures leaves == []
  {
    forall p ensures !IsLeafPath(t, p) {}
    assert |leaves| > 0 ==> IsLeafPath(t, leaves[0].keypath);
  }

  /** What is authentic is read. */
  lemma AuthenticIsAccepted(lib: ArrayLib, members: map<string, Text>, d: Descriptor, t: Tree<Array>)
    requires Authenticates(lib, members, d, t)
    ensures Read(lib, members, d) == Some(t)
  {
    forall i | 0 <= i < |d.leaves| ensures IsLeafPath(t, d.leaves[i].keypath) { assert Authentic(lib, members, t, d.leaves[i]); }
    var es := EntriesOf(d.leaves, t);
    forall i | 0 <= i < |es| ensures ReadLeaf(lib, members, d.leaves[i]) == Some(es[i].1) && d.leaves[i].keypath == es[i].0 {
      AuthenticIsRead(lib, members, t, d.leaves[i]);
    }
    ReadRows(lib, members, d.leaves, es);
    AuthenticMembers(lib, members, d, t);
    if t.kids == map[] {
      NothingListed(d.leaves, t);
    } else {
      EntriesList(d.leaves, t);
      BuildInverts(t, es);
    }
  }

  lemma AuthenticMembers(lib: ArrayLib, members: map<string, Text>, d: Descriptor, t: Tree<Array>)
    requires Authenticates(lib, members, d, t)
    ensures d.codec == CODEC && Expected(d.leaves) && members.Keys == MembersOf(d.leaves)
  {
    forall m ensures m in members <==> m in MembersOf(d.leaves) { MembersAre(d.leaves, m); }
    forall e | e in d.leaves ensures Encode(e.keypath) == Some(e.member) {
      var i :| 0 <= i < |d.leaves| && d.leaves[i] == e;
      assert Authentic(lib, members, t, d.leaves[i]);
    }
  }

  /** Given what the library reads, exactly the authentic archives are accepted, each as its tree. */
  lemma ReadsExactlyAuthentic(lib: ArrayLib, members: map<string, Text>, d: Descriptor, t: Tree<Array>)
    ensures Read(lib, members, d) == Some(t) <==> Authenticates(lib, members, d, t)
  {
    if Read(lib, members, d) == Some(t) { AcceptedIsAuthentic(lib, members, d, t); }
    if Authenticates(lib, members, d, t) { AuthenticIsAccepted(lib, members, d, t); }
  }
}
